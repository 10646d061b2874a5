# com2see commit statistics — a Dafny model

com2see reads the commit history of a local git repository for one calendar
year and reports a few statistics: how many commits there are, how many
developers made them, the most active developer (the most commits), the most
"hardworking" developer (the most commits made at 20:00 or later, or before
06:00), and the first and last commit of the year.

This project models the aggregation behind that report and proves its
properties:

- `types.dfy` (module `Types`): a commit as `(author, time, hour)`, a branch
  as a name plus the result of reading its log, a repository as the result of
  listing its branches plus the result of looking up the URLs of remote
  "origin", and a `Result` type usable with `:-` for the Go code's
  "return the first error" style.
- `aggregation.dfy` (module `Aggregation`): the pure functions over a commit
  list — grouping by author, the leader scan behind both "most" statistics,
  the hardworking classification, and the first and last commit.
- `repo_slice.dfy` (module `RepoSlice`): the repository queries — collecting
  all branches' logs into one list, and each statistic computed from a fresh
  collection, passing on the first error.
- `report.dfy` (module `Report`): how the report record is filled from those
  queries, and what a successful report guarantees about itself.

Each fold is written over prefixes of its input (`cs[..|cs|-1]` then the last
element), so one unfolding is one iteration of the Go loop. The
collection and the grouping also have loop versions (`CollectLoop`,
`GroupLoop`) proved equal to the functions.

The repository is an abstract value: the model does not open repositories,
walk commit graphs or filter by date. Each branch's log is taken as already
restricted to the year. The hour of a commit (what `Committer.When.Hour()` gives, in the location its timestamp carries) is an input field.

## Model

| member | source | states |
|---|---|---|
| `RepoSlice.Commits` | internal/repository.go:18-46 | Succeeds exactly when the branches can be listed and every branch's log can be read. A listing failure passes its error on; otherwise the error is that of the first unreadable log. On success the list is the logs of all branches concatenated in branch order: as long as all logs together, with commit `j` of branch `i` at the branch's offset plus `j`. |
| `RepoSlice.CollectBranches` | internal/repository.go:24-45 | Succeeds exactly when every branch's log can be read. Otherwise it fails with the error of the first unreadable branch, and no list is returned. |
| `RepoSlice.CollectIsConcatenation` | internal/repository.go:24-33 | A successful collection is as long as all logs together, and commit `j` of branch `i` sits at position (commits of branches before `i`) + `j`. So the list is the logs concatenated in branch order, duplicates kept. |
| `RepoSlice.SharedCommitCountedTwice` | internal/repository.go:25-33 | In a successful collection, a commit that appears in the logs of two different branches occurs at least twice in the collected list: no cross-branch deduplication. |
| `RepoSlice.CollectLoop` | internal/repository.go:24-45 | The loop that appends branch after branch and returns at the first failing log computes exactly `CollectBranches`. |
| `Aggregation.ByAuthorMembers` | internal/repository.go:55-56 | An author's selection, the reference definition each group is compared with, holds exactly the listed commits by that author. |
| `Aggregation.ByAuthorAbsent` | internal/repository.go:55-56 | An author who wrote none of the commits has an empty selection. |
| `Aggregation.ByAuthorAppend` | internal/repository.go:55-56 | Selecting one author's commits from two lists joined together gives the two selections joined in the same order. |
| `Aggregation.Group` | internal/repository.go:54-57 | The keys of the author-to-commits map are exactly the distinct authors of the list. |
| `Aggregation.GroupHoldsByAuthor` | internal/repository.go:55-56 | Each author's group is exactly that author's commits, in list order. |
| `Aggregation.GroupPlacesEveryCommit` | internal/repository.go:55-56 | Every commit is in the group of its own author, and no group is empty. |
| `Aggregation.GroupConservesCommits` | internal/repository.go:54-57 | The group sizes add up to the length of the commit list. |
| `Aggregation.GroupLoop` | internal/repository.go:54-57 | The loop that appends each commit to its author's list builds exactly `Group`. |
| `Aggregation.AuthorCountBounds` | internal/repository.go:54-57 | There are never more distinct authors than commits. There are none exactly when there are no commits. |
| `Aggregation.Authors` | internal/repository.go:71 | The iteration order used for the map lists each distinct author exactly once and nothing else. |
| `Aggregation.ScanLeader` | internal/repository.go:68-78 | With a strict `>` update from ("", 0), the result's count is at least every visited score. A positive count belongs to the first key in visiting order that reaches it. A zero count comes with the empty name. |
| `Aggregation.MostActive` | internal/repository.go:68-78 | The count is the size of the named developer's group, and a zero count comes with the empty name. When every key is visited once, in any order, the count is the largest group size. An empty map gives ("", 0). |
| `Aggregation.LateCommits` | internal/repository.go:91-97 | A group's hardworking commits are exactly its commits made at hour ≥ 20 or < 6, each kept as many times as it occurs in the group, so their number is what the Go code reports. |
| `Aggregation.LateHourBoundaries` | internal/repository.go:93-94 | Hour 19 is not hardworking, 20 is, 5 is, and 6 is not. |
| `Aggregation.MostHardworking` | internal/repository.go:87-105 | The count is the named developer's number of hardworking commits, and a zero count comes with the empty name. When every key is visited once, in any order, the count is the largest such number. If nobody has a hardworking commit, the result is ("", 0). |
| `Aggregation.MostActiveOfCommits` | internal/repository.go:54-78 | Grouping a commit list and scanning its authors in order of first appearance gives a count that no author's number of commits exceeds and that the named author reaches. The count is 0, with the empty name, exactly when the list is empty. |
| `Aggregation.NoLateCommitNoLateGroup` | internal/repository.go:90-97 | If no commit was made at a hardworking hour, no author's group has a hardworking commit. |
| `Aggregation.MostHardworkingOfCommits` | internal/repository.go:87-105 | Grouping a commit list and scanning its authors gives a count that no author's number of hardworking commits exceeds and that the named author reaches. With no hardworking commit at all the result is ("", 0). |
| `Aggregation.HardworkingBelowActive` | internal/repository.go:87-105 | The hardworking leader's count never exceeds the most active developer's count. |
| `Aggregation.FirstCommit` | internal/repository.go:114-121 | None exactly for an empty list. Otherwise it is a listed commit whose time is at most every commit's time, and every commit listed before it is strictly later. |
| `Aggregation.LastCommit` | internal/repository.go:130-137 | None exactly for an empty list. Otherwise it is a listed commit whose time is at least every commit's time, and every commit listed before it is strictly earlier. |
| `RepoSlice.DeveloperToCommits` | internal/repository.go:48-60 | Fails exactly when the collection fails, with its error. Otherwise its keys are the distinct authors of the collected commits, and each author's value is exactly that author's commits in collection order. |
| `RepoSlice.MostActiveDeveloper` | internal/repository.go:62-79 | Fails exactly when the collection fails, with its error. Otherwise the count is the largest number of commits by one author and the named author made that many. The count is 0, with the empty name, exactly when there are no commits. |
| `RepoSlice.MostHardworkingDeveloper` | internal/repository.go:81-106 | Fails exactly when the collection fails, with its error. Otherwise the count is the largest number of hardworking commits by one author and the named author made that many. With no hardworking commit at all the result is ("", 0). |
| `RepoSlice.FirstCommitOf` | internal/repository.go:108-122 | Fails exactly when the collection fails, with its error. Otherwise it is None exactly when there are no commits. Else it is a collected commit no later than any other, and every commit collected before it is strictly later, so a tie keeps the first one. |
| `RepoSlice.LastCommitOf` | internal/repository.go:124-138 | Fails exactly when the collection fails, with its error. Otherwise it is None exactly when there are no commits. Else it is a collected commit no earlier than any other, and every commit collected before it is strictly earlier, so a tie keeps the first one. |
| `Report.NewReportData` | internal/report.go:87-135 | A name error returns no report before anything is collected. A later collection error also returns no report. A report exists exactly when both steps succeed. Its fields are the year as given, the number of collected commits, the number of distinct authors, and the first commit, last commit and two leaders, copied unchanged. Every read of the repository is taken to give the same answer (see Left out). |
| `Report.ReportIsConsistent` | internal/report.go:100-132 | In every report, developers ≤ commits, and there are no developers exactly when there are no commits. First and last commit are absent exactly when there are no commits, and the first is no later than the last. Hardworking count ≤ most active count ≤ commit count, and the most active count is positive when there are commits. |
| `Report.TwoBranchExample` | internal/report.go:87-135 | Two disjoint branches with 3 commits by alice and 5 by bob give 8 commits and 2 developers, with bob the most active at 5. |

## Left out

- Opening the repository, listing branches, reading logs and looking up remote "origin" belong to the git library. They are replaced by the abstract `Repo` value, which yields branches or an error and URLs or an error.
- The date window (`Since`/`Until`, and `getYearBounds` in internal/util.go) is applied inside the git library's log walk. Each branch's log is taken as already filtered to the year.
- Time zones and clock conversion are not modelled. A commit's time is an integer instant compared with `<` and `>`, and its hour, as `Committer.When.Hour()` reads it in the location the timestamp carries, is a given field in 0..23.
- RepoSlice.MostActiveDeveloper: the Go code ranges over a map, whose iteration order is unspecified and decides ties. The model visits authors in order of first appearance. The order-independent facts (maximal count, membership, ("", 0) when nothing is positive) are proved for every order in the contract of `Aggregation.MostActive`.
- RepoSlice.MostHardworkingDeveloper: the same fixed visiting order; the contract of `Aggregation.MostHardworking` holds for every order.
- RepoSlice.RepoName: the name is read from the abstract `Repo` (the URLs of remote "origin", or the error of looking them up) and is not specified further. Indexing an empty URL list is a run-time panic in the Go code, not a returned error; the model returns it as the error `IndexOutOfRange`.
- Report.NewReportData: every read of the repository is assumed to give the same result, with no concurrent change and no transient failure. In the Go code each of the later steps (internal/report.go:102-130) walks the repository again, so one of them could fail, or see other commits, after an earlier one succeeded. In the model those later error paths cannot be taken once the commits have been collected, and the cross-field bounds of `Report.ReportIsConsistent` rest on this assumption.
- Go's `int` is 64 bits wide. Counts here are unbounded naturals, since a commit list cannot reach 2^63 entries.
- Commits are referenced by address in the Go code and are plain values here. Two equal commit values listed twice cannot be told apart.
- Rendering (`GenerateHTMLReport` with its template and output file, `GenerateConsoleReport` with its table), command-line parsing and exit codes are output plumbing and are not modelled.
