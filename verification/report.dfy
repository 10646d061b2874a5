/** Assembly of the report record from the repository queries. */
module Report {
  import opened Types
  import opened Aggregation
  import opened RepoSlice

  /** The flat record a report is rendered from. */
  datatype ReportData = ReportData(
    repoName: string,
    year: int,
    commitCount: nat,
    developerCount: nat,
    firstCommit: Option<Commit>,
    lastCommit: Option<Commit>,
    mostActiveDeveloper: string,
    mostActiveDeveloperCommitCount: nat,
    mostHardworkingDeveloper: string,
    maxHardworkingCommitCount: nat)

  /** Fills the record step by step: the name, then the commit count, the
      developer count, the first and last commit and the two leaders, each
      from its own query, returning no record at the first query that fails. */
  function NewReportData(year: int, repo: Repo): (r: Result<ReportData>)
    ensures RepoName(repo).Err? ==> r == Err(RepoName(repo).error)
    ensures RepoName(repo).Ok? && Commits(repo).Err? ==> r == Err(Commits(repo).error)
    ensures r.Ok? <==> RepoName(repo).Ok? && Commits(repo).Ok?
    ensures r.Ok? ==>
              var cs := Commits(repo).value;
              && r.value.repoName == RepoName(repo).value
              && r.value.year == year
              && r.value.commitCount == |cs|
              && r.value.developerCount == |AuthorSet(cs)|
              && r.value.firstCommit == FirstCommit(cs)
              && r.value.lastCommit == LastCommit(cs)
              && r.value.mostActiveDeveloper == MostActive(Group(cs), Authors(cs)).name
              && r.value.mostActiveDeveloperCommitCount == MostActive(Group(cs), Authors(cs)).count
              && r.value.mostHardworkingDeveloper == MostHardworking(Group(cs), Authors(cs)).name
              && r.value.maxHardworkingCommitCount == MostHardworking(Group(cs), Authors(cs)).count
  {
    var repoName :- RepoName(repo);
    var commits :- Commits(repo);
    // Each later query collects the commits again. `Repo` answers every read
    // alike, so in this model they cannot fail once the collection above has
    // succeeded; their errors are still passed on as the Go code does.
    match DeveloperToCommits(repo)
    case Err(e) => Err(e)
    case Ok(d2c) =>
      match FirstCommitOf(repo)
      case Err(e) => Err(e)
      case Ok(firstCommit) =>
        match LastCommitOf(repo)
        case Err(e) => Err(e)
        case Ok(lastCommit) =>
          match MostActiveDeveloper(repo)
          case Err(e) => Err(e)
          case Ok(active) =>
            match MostHardworkingDeveloper(repo)
            case Err(e) => Err(e)
            case Ok(hardworking) =>
              Ok(ReportData(repoName, year, |commits|, |d2c.Keys|, firstCommit, lastCommit,
                            active.name, active.count, hardworking.name, hardworking.count))
  }

  /** What a successful report says about itself: no more developers than
      commits and none exactly when there are no commits; no first or last
      commit exactly when there are no commits, and the first no later than
      the last; and the hardworking count bounded by the most active count,
      which is bounded by the commit count and reached by the named developer. */
  lemma {:induction false} ReportIsConsistent(year: int, repo: Repo)
    ensures NewReportData(year, repo).Ok? ==>
              var d := NewReportData(year, repo).value;
              && d.developerCount <= d.commitCount
              && (d.developerCount == 0 <==> d.commitCount == 0)
              && (d.firstCommit.None? <==> d.commitCount == 0)
              && (d.lastCommit.None? <==> d.commitCount == 0)
              && (d.firstCommit.Some? && d.lastCommit.Some? ==> d.firstCommit.value.time <= d.lastCommit.value.time)
              && d.maxHardworkingCommitCount <= d.mostActiveDeveloperCommitCount <= d.commitCount
              && (d.commitCount > 0 ==> d.mostActiveDeveloperCommitCount > 0)
  {
    if NewReportData(year, repo).Ok? {
      var d := NewReportData(year, repo).value;
      var cs := Commits(repo).value;
      var m := Group(cs);
      var order := Authors(cs);
      AuthorCountBounds(cs);
      MostActiveOfCommits(cs);
      assert Enumerates(order, m.Keys);
      HardworkingBelowActive(m, order);
      if d.firstCommit.Some? && d.lastCommit.Some? {
        assert d.lastCommit.value in cs;
      }
    }
  }

  /** Two branches that share no commits, the first holding three commits by
      alice and the second five by bob: the report counts eight commits and
      two developers and names bob, with five commits, the most active. */
  lemma {:induction false} TwoBranchExample(a: seq<Commit>, b: seq<Commit>, urls: seq<string>)
    requires |a| == 3 && forall c | c in a :: c.author == "alice"
    requires |b| == 5 && forall c | c in b :: c.author == "bob"
    requires |urls| > 0
    ensures var r := NewReportData(2023, Repo(Ok([Branch("a", Ok(a)), Branch("b", Ok(b))]), Ok(urls)));
            && r.Ok?
            && r.value.commitCount == 8
            && r.value.developerCount == 2
            && r.value.mostActiveDeveloper == "bob"
            && r.value.mostActiveDeveloperCommitCount == 5
  {
    TwoBranchCommits("a", a, "b", b);
    TwoAuthorLeader(a, b);
  }

  /** Three commits by alice followed by five by bob: two authors, and bob
      leads with five. */
  lemma {:induction false} TwoAuthorLeader(a: seq<Commit>, b: seq<Commit>)
    requires |a| == 3 && forall c | c in a :: c.author == "alice"
    requires |b| == 5 && forall c | c in b :: c.author == "bob"
    ensures |AuthorSet(a + b)| == 2
    ensures MostActive(Group(a + b), Authors(a + b)) == Leader("bob", 5)
  {
    TwoAuthorGroups(a, b);
    var m := Group(a + b);
    var order := Authors(a + b);
    assert forall k :: k in order <==> k in m.Keys;
    assert Enumerates(order, m.Keys);
    assert |m["alice"]| == 3 && |m["bob"]| == 5;
    LeaderOfTwo(m, order);
    TwoNames();
  }

  /** The two author names are different. */
  lemma {:induction false} TwoNames()
    ensures |{"alice", "bob"}| == 2
  {
    assert |"alice"| != |"bob"|;
  }

  /** With alice at three commits and bob at five, bob leads in any order. */
  lemma {:induction false} LeaderOfTwo(m: map<string, seq<Commit>>, order: seq<string>)
    requires m.Keys == {"alice", "bob"} && |m["alice"]| == 3 && |m["bob"]| == 5
    requires Enumerates(order, m.Keys)
    ensures MostActive(m, order) == Leader("bob", 5)
  {
    var leader := MostActive(m, order);
    assert |m["bob"]| <= leader.count;
    assert leader.name == "alice" || leader.name == "bob";
  }

  /** The groups of commits by alice followed by commits by bob. */
  lemma {:induction false} TwoAuthorGroups(a: seq<Commit>, b: seq<Commit>)
    requires |a| >= 1 && forall c | c in a :: c.author == "alice"
    requires |b| >= 1 && forall c | c in b :: c.author == "bob"
    ensures AuthorSet(a + b) == {"alice", "bob"}
    ensures Group(a + b).Keys == {"alice", "bob"}
    ensures Group(a + b)["alice"] == a && Group(a + b)["bob"] == b
  {
    var cs := a + b;
    assert AuthorSet(cs) == {"alice", "bob"} by {
      assert a[0] in cs && b[0] in cs;
      forall c | c in cs
        ensures c.author == "alice" || c.author == "bob"
      {
        assert c in a || c in b;
      }
    }
    assert ByAuthor(cs, "alice") == a by {
      ByAuthorAppend(a, b, "alice");
      ByAuthorSingle(a, "alice");
      ByAuthorAbsent(b, "alice");
    }
    assert ByAuthor(cs, "bob") == b by {
      ByAuthorAppend(a, b, "bob");
      ByAuthorSingle(b, "bob");
      ByAuthorAbsent(a, "bob");
    }
    GroupHoldsByAuthor(cs);
  }
}
