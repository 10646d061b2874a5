/** The queries a report makes of a repository. The repository itself is the
    abstract value `Repo`: what listing its branches, reading each branch's
    log (already restricted to the report's date window) and looking up the
    "origin" remote yield. Every query collects the commits afresh, as the
    Go code does, and returns the first error it meets. */
module RepoSlice {
  import opened Types
  import opened Aggregation

  // ---------------------------------------------------------------------------
  // Collecting commits
  // ---------------------------------------------------------------------------

  /** Total number of commits in the logs of `bs` that could be read. */
  function TotalLength(bs: seq<Branch>): nat
  {
    if |bs| == 0 then 0
    else
      var b := bs[|bs| - 1];
      TotalLength(bs[..|bs| - 1]) + (if b.log.Ok? then |b.log.value| else 0)
  }

  /** Appends the log of each branch, in enumeration order, to one list.
      Succeeds exactly when every log can be read; otherwise fails with the
      error of the first branch whose log cannot be read. */
  function CollectBranches(bs: seq<Branch>): (r: Result<seq<Commit>>)
    ensures r.Ok? <==> forall i | 0 <= i < |bs| :: bs[i].log.Ok?
    ensures r.Err? ==>
              exists i :: 0 <= i < |bs| && bs[i].log == Err(r.error) &&
                          forall j | 0 <= j < i :: bs[j].log.Ok?
  {
    if |bs| == 0 then Ok([])
    else
      var prefix := bs[..|bs| - 1];
      var collected :- CollectBranches(prefix);
      var log :- bs[|bs| - 1].log;
      Ok(collected + log)
  }

  /** The commit at position `j` of branch `i`'s log sits in the collected
      list at the branch's offset, the number of commits of the branches
      before it, plus `j`. */
  lemma {:induction false} CollectPlacesCommit(bs: seq<Branch>, i: nat, j: nat)
    requires CollectBranches(bs).Ok?
    requires i < |bs| && j < |bs[i].log.value|
    ensures TotalLength(bs[..i]) + j < |CollectBranches(bs).value|
    ensures CollectBranches(bs).value[TotalLength(bs[..i]) + j] == bs[i].log.value[j]
  {
    var prefix := bs[..|bs| - 1];
    var b := bs[|bs| - 1];
    var r := CollectBranches(bs).value;
    var p := CollectBranches(prefix).value;
    assert r == p + b.log.value;
    if i < |bs| - 1 {
      assert bs[..i] == prefix[..i];
      assert prefix[i] == bs[i];
      CollectPlacesCommit(prefix, i, j);
    } else {
      assert bs[..i] == prefix;
      CollectLength(prefix);
    }
  }

  /** The collected list has as many commits as all the logs together. */
  lemma {:induction false} CollectLength(bs: seq<Branch>)
    requires CollectBranches(bs).Ok?
    ensures |CollectBranches(bs).value| == TotalLength(bs)
  {
    if |bs| > 0 {
      CollectLength(bs[..|bs| - 1]);
    }
  }

  /** `cs` is the concatenation of the readable logs of `bs` in branch order:
      as long as all logs together, with every commit of every log at its
      branch's offset plus its position, duplicates across branches included. */
  ghost predicate IsConcatenation(bs: seq<Branch>, cs: seq<Commit>)
  {
    && |cs| == TotalLength(bs)
    && forall i, j | 0 <= i < |bs| && bs[i].log.Ok? && 0 <= j < |bs[i].log.value| ::
         TotalLength(bs[..i]) + j < |cs| &&
         cs[TotalLength(bs[..i]) + j] == bs[i].log.value[j]
  }

  /** A successful collection is the concatenation of the logs. */
  lemma {:induction false} CollectIsConcatenation(bs: seq<Branch>)
    requires CollectBranches(bs).Ok?
    ensures IsConcatenation(bs, CollectBranches(bs).value)
  {
    CollectLength(bs);
    var r := CollectBranches(bs).value;
    forall i, j | 0 <= i < |bs| && bs[i].log.Ok? && 0 <= j < |bs[i].log.value|
      ensures TotalLength(bs[..i]) + j < |r| && r[TotalLength(bs[..i]) + j] == bs[i].log.value[j]
    {
      CollectPlacesCommit(bs, i, j);
    }
  }

  /** Collecting two readable branches yields the first log followed by the second. */
  lemma {:induction false} TwoBranchCommits(n1: string, a: seq<Commit>, n2: string, b: seq<Commit>)
    ensures CollectBranches([Branch(n1, Ok(a)), Branch(n2, Ok(b))]) == Ok(a + b)
  {
    var bs := [Branch(n1, Ok(a)), Branch(n2, Ok(b))];
    var first := bs[..1];
    assert first == [Branch(n1, Ok(a))];
    assert first[..|first| - 1] == [];
    assert CollectBranches(first) == Ok([] + a);
    assert [] + a == a;
    assert bs[..|bs| - 1] == first;
  }

  /** A commit found in the logs of two different branches is collected once
      per branch, so it occurs at least twice in the collected list. */
  lemma {:induction false} SharedCommitCountedTwice(bs: seq<Branch>, i1: nat, j1: nat, i2: nat, j2: nat)
    requires CollectBranches(bs).Ok?
    requires i1 < i2 < |bs|
    requires j1 < |bs[i1].log.value| && j2 < |bs[i2].log.value|
    requires bs[i1].log.value[j1] == bs[i2].log.value[j2]
    ensures multiset(CollectBranches(bs).value)[bs[i1].log.value[j1]] >= 2
  {
    var r := CollectBranches(bs).value;
    CollectPlacesCommit(bs, i1, j1);
    CollectPlacesCommit(bs, i2, j2);
    var p1 := TotalLength(bs[..i1]) + j1;
    var p2 := TotalLength(bs[..i2]) + j2;
    assert TotalLength(bs[..i1 + 1]) == TotalLength(bs[..i1]) + |bs[i1].log.value| by {
      assert bs[..i1 + 1][..i1] == bs[..i1];
    }
    TotalLengthGrows(bs, i1 + 1, i2);
    EqualAtTwoPositions(r, p1, p2);
  }

  /** Offsets do not decrease along the branch list. */
  lemma {:induction false} TotalLengthGrows(bs: seq<Branch>, i: nat, k: nat)
    requires i <= k <= |bs|
    ensures TotalLength(bs[..i]) <= TotalLength(bs[..k])
    decreases k - i
  {
    if i < k {
      TotalLengthGrows(bs, i, k - 1);
      assert bs[..k][..k - 1] == bs[..k - 1];
    }
  }

  /** A value found at two different positions of a list occurs in it at
      least twice. */
  lemma {:induction false} EqualAtTwoPositions(s: seq<Commit>, p: nat, q: nat)
    requires p < q < |s| && s[p] == s[q]
    ensures multiset(s)[s[p]] >= 2
  {
    assert s == s[..q] + s[q..];
    assert s[p] in s[..q];
    assert s[q..][0] == s[q];
    assert s[q] in s[q..];
  }

  /** The same collection written as the Go code's nested loops: one pass
      over the branches, appending each branch's commits to one list and
      returning at the first error. */
  method CollectLoop(bs: seq<Branch>) returns (r: Result<seq<Commit>>)
    ensures r == CollectBranches(bs)
  {
    var result: seq<Commit> := [];
    var i := 0;
    while i < |bs|
      invariant 0 <= i <= |bs|
      invariant CollectBranches(bs[..i]) == Ok(result)
    {
      assert bs[..i + 1][..i] == bs[..i];
      if bs[i].log.Err? {
        return Err(bs[i].log.error);
      }
      result := result + bs[i].log.value;
      i := i + 1;
    }
    assert bs[..i] == bs;
    return Ok(result);
  }

  /** All commits of the repository: fails if the branches cannot be listed
      or a branch's log cannot be read, otherwise the logs of all branches
      one after the other, in branch order, duplicates kept. */
  function Commits(repo: Repo): (r: Result<seq<Commit>>)
    ensures r.Ok? <==> repo.branches.Ok? && forall i | 0 <= i < |repo.branches.value| :: repo.branches.value[i].log.Ok?
    ensures repo.branches.Err? ==> r == Err(repo.branches.error)
    ensures repo.branches.Ok? && r.Err? ==>
              var bs := repo.branches.value;
              exists i :: 0 <= i < |bs| && bs[i].log == Err(r.error) &&
                          forall j | 0 <= j < i :: bs[j].log.Ok?
    ensures r.Ok? ==> IsConcatenation(repo.branches.value, r.value)
  {
    match repo.branches
    case Err(e) => Err(e)
    case Ok(bs) =>
      if CollectBranches(bs).Ok? then
        CollectIsConcatenation(bs);
        CollectBranches(bs)
      else
        CollectBranches(bs)
  }

  // ---------------------------------------------------------------------------
  // Queries built on the collected commits
  // ---------------------------------------------------------------------------

  /** The author-to-commits map of the repository's commits. */
  function DeveloperToCommits(repo: Repo): (r: Result<map<string, seq<Commit>>>)
    ensures r.Err? <==> Commits(repo).Err?
    ensures r.Err? ==> r.error == Commits(repo).error
    ensures r.Ok? ==> r.value.Keys == AuthorSet(Commits(repo).value)
    ensures r.Ok? ==> forall a | a in r.value :: r.value[a] == ByAuthor(Commits(repo).value, a)
  {
    var cs :- Commits(repo);
    GroupHoldsByAuthor(cs);
    Ok(Group(cs))
  }

  /** The developer with the most commits, the map being visited in order of
      first appearance of each author: the largest number of commits by one
      author, and an author who made that many. */
  function MostActiveDeveloper(repo: Repo): (r: Result<Leader>)
    ensures r.Err? <==> Commits(repo).Err?
    ensures r.Err? ==> r.error == Commits(repo).error
    ensures r.Ok? ==>
              var cs := Commits(repo).value;
              && (forall a | a in AuthorSet(cs) :: |ByAuthor(cs, a)| <= r.value.count)
              && (r.value.count > 0 ==> r.value.name in AuthorSet(cs) && |ByAuthor(cs, r.value.name)| == r.value.count)
              && (r.value.count == 0 <==> |cs| == 0)
              && (r.value.count == 0 ==> r.value.name == "")
  {
    var cs :- Commits(repo);
    MostActiveOfCommits(cs);
    Ok(MostActive(Group(cs), Authors(cs)))
  }

  /** The developer with the most hardworking commits, the map being visited
      in order of first appearance of each author: the largest number of
      hardworking commits by one author, an author who made that many, and
      ("", 0) when there is no hardworking commit at all. */
  function MostHardworkingDeveloper(repo: Repo): (r: Result<Leader>)
    ensures r.Err? <==> Commits(repo).Err?
    ensures r.Err? ==> r.error == Commits(repo).error
    ensures r.Ok? ==>
              var cs := Commits(repo).value;
              && (forall a | a in AuthorSet(cs) :: LateCount(ByAuthor(cs, a)) <= r.value.count)
              && (r.value.count > 0 ==> r.value.name in AuthorSet(cs) && LateCount(ByAuthor(cs, r.value.name)) == r.value.count)
              && (r.value.count == 0 ==> r.value.name == "")
              && ((forall c | c in cs :: !IsLateHour(c.hour)) ==> r.value == Leader("", 0))
  {
    var cs :- Commits(repo);
    MostHardworkingOfCommits(cs);
    Ok(MostHardworking(Group(cs), Authors(cs)))
  }

  /** The earliest commit of the repository, the first-listed one on a tie,
      or None if it has none. */
  function FirstCommitOf(repo: Repo): (r: Result<Option<Commit>>)
    ensures r.Err? <==> Commits(repo).Err?
    ensures r.Err? ==> r.error == Commits(repo).error
    ensures r.Ok? ==> (r.value.None? <==> |Commits(repo).value| == 0)
    ensures r.Ok? && r.value.Some? ==>
              var cs := Commits(repo).value;
              exists i :: 0 <= i < |cs| && cs[i] == r.value.value &&
                          (forall j | 0 <= j < |cs| :: r.value.value.time <= cs[j].time) &&
                          (forall j | 0 <= j < i :: cs[j].time > r.value.value.time)
  {
    var cs :- Commits(repo);
    Ok(FirstCommit(cs))
  }

  /** The latest commit of the repository, the first-listed one on a tie,
      or None if it has none. */
  function LastCommitOf(repo: Repo): (r: Result<Option<Commit>>)
    ensures r.Err? <==> Commits(repo).Err?
    ensures r.Err? ==> r.error == Commits(repo).error
    ensures r.Ok? ==> (r.value.None? <==> |Commits(repo).value| == 0)
    ensures r.Ok? && r.value.Some? ==>
              var cs := Commits(repo).value;
              exists i :: 0 <= i < |cs| && cs[i] == r.value.value &&
                          (forall j | 0 <= j < |cs| :: r.value.value.time >= cs[j].time) &&
                          (forall j | 0 <= j < i :: cs[j].time < r.value.value.time)
  {
    var cs :- Commits(repo);
    Ok(LastCommit(cs))
  }

  /** The repository's name: the first URL of remote "origin". Looking up the
      remote can fail; an empty URL list is an out-of-range index. */
  function RepoName(repo: Repo): (r: Result<string>)
    ensures repo.originUrls.Err? ==> r == Err(repo.originUrls.error)
    ensures repo.originUrls.Ok? && |repo.originUrls.value| == 0 ==> r == Err(IndexOutOfRange)
    ensures r.Ok? ==> repo.originUrls.Ok? && |repo.originUrls.value| > 0 && r.value == repo.originUrls.value[0]
  {
    var urls :- repo.originUrls;
    if |urls| == 0 then Err(IndexOutOfRange) else Ok(urls[0])
  }
}
