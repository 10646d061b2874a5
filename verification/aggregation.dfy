/** The statistics computed over a collected commit list: grouping by author,
    the two "leader" selections, and the chronologically first and last commit.
    Every function here is pure; folds are written over prefixes so that each
    step is one iteration of the corresponding loop. */
module Aggregation {
  import opened Types

  // ---------------------------------------------------------------------------
  // Grouping by author
  // ---------------------------------------------------------------------------

  /** The distinct author identities occurring in `cs`. */
  ghost function AuthorSet(cs: seq<Commit>): set<string>
  {
    set c | c in cs :: c.author
  }

  /** The commits of `cs` written by `a`, in their order in `cs`. Defined
      from the front of the list, independently of the grouping fold. */
  function ByAuthor(cs: seq<Commit>, a: string): (r: seq<Commit>)
    ensures |r| <= |cs|
  {
    if |cs| == 0 then []
    else (if cs[0].author == a then [cs[0]] else []) + ByAuthor(cs[1..], a)
  }

  /** An author's selection holds exactly the listed commits by that author. */
  lemma {:induction false} ByAuthorMembers(cs: seq<Commit>, a: string)
    ensures forall c :: c in ByAuthor(cs, a) <==> c in cs && c.author == a
  {
    if |cs| > 0 {
      ByAuthorMembers(cs[1..], a);
      assert cs == [cs[0]] + cs[1..];
    }
  }

  /** An author who wrote none of the commits has an empty selection. */
  lemma {:induction false} ByAuthorAbsent(cs: seq<Commit>, a: string)
    requires forall c | c in cs :: c.author != a
    ensures ByAuthor(cs, a) == []
  {
    if |cs| > 0 {
      assert forall c | c in cs[1..] :: c in cs;
      ByAuthorAbsent(cs[1..], a);
    }
  }

  /** Selecting by author distributes over concatenation. */
  lemma {:induction false} ByAuthorAppend(x: seq<Commit>, y: seq<Commit>, a: string)
    ensures ByAuthor(x + y, a) == ByAuthor(x, a) + ByAuthor(y, a)
  {
    if |x| == 0 {
      assert x + y == y;
    } else {
      var xy := x + y;
      var head := if x[0].author == a then [x[0]] else [];
      assert xy[0] == x[0];
      assert xy[1..] == x[1..] + y;
      calc {
        ByAuthor(xy, a);
        head + ByAuthor(x[1..] + y, a);
        { ByAuthorAppend(x[1..], y, a); }
        head + (ByAuthor(x[1..], a) + ByAuthor(y, a));
        (head + ByAuthor(x[1..], a)) + ByAuthor(y, a);
        ByAuthor(x, a) + ByAuthor(y, a);
      }
    }
  }

  /** A list written by one author is its own selection for that author. */
  lemma {:induction false} ByAuthorSingle(x: seq<Commit>, a: string)
    requires forall c | c in x :: c.author == a
    ensures ByAuthor(x, a) == x
  {
    if |x| > 0 {
      assert forall d | d in x[1..] :: d in x;
      ByAuthorSingle(x[1..], a);
      assert x == [x[0]] + x[1..];
    }
  }

  /** The author-to-commits map: each commit is appended to the list kept under
      its author, a missing key standing for the empty list. */
  function Group(cs: seq<Commit>): (m: map<string, seq<Commit>>)
    ensures m.Keys == AuthorSet(cs)
  {
    if |cs| == 0 then map[]
    else
      var prefix := cs[..|cs| - 1];
      var c := cs[|cs| - 1];
      var m := Group(prefix);
      assert AuthorSet(cs) == AuthorSet(prefix) + {c.author} by {
        assert cs == prefix + [c];
      }
      m[c.author := (if c.author in m then m[c.author] else []) + [c]]
  }

  /** The grouping written as the Go loop over the commit list. */
  method GroupLoop(cs: seq<Commit>) returns (d2c: map<string, seq<Commit>>)
    ensures d2c == Group(cs)
  {
    d2c := map[];
    for i := 0 to |cs|
      invariant d2c == Group(cs[..i])
    {
      assert cs[..i + 1][..i] == cs[..i];
      var c := cs[i];
      d2c := d2c[c.author := (if c.author in d2c then d2c[c.author] else []) + [c]];
    }
    assert cs[..|cs|] == cs;
  }

  /** Each group holds exactly its author's commits, in list order. */
  lemma {:induction false} GroupHoldsByAuthor(cs: seq<Commit>)
    ensures forall a | a in Group(cs) :: Group(cs)[a] == ByAuthor(cs, a)
  {
    if |cs| > 0 {
      var prefix := cs[..|cs| - 1];
      var c := cs[|cs| - 1];
      GroupHoldsByAuthor(prefix);
      var m := Group(prefix);
      assert cs == prefix + [c];
      forall a | a in Group(cs)
        ensures Group(cs)[a] == ByAuthor(cs, a)
      {
        ByAuthorAppend(prefix, [c], a);
        assert [c][1..] == [];
        if a == c.author && a !in m {
          ByAuthorAbsent(prefix, a);
        }
      }
    }
  }

  /** Sum of the sizes of all groups of `m`, taken in an unspecified key order. */
  ghost function SumSizes(m: map<string, seq<Commit>>): nat
    decreases |m|
  {
    if m == map[] then 0
    else
      var k :| k in m;
      |m[k]| + SumSizes(m - {k})
  }

  /** `SumSizes` does not depend on which key is taken first. */
  lemma {:induction false} SumSizesRemove(m: map<string, seq<Commit>>, k: string)
    requires k in m
    ensures SumSizes(m) == |m[k]| + SumSizes(m - {k})
    decreases |m|
  {
    var j :| j in m && SumSizes(m) == |m[j]| + SumSizes(m - {j});
    if j != k {
      SumSizesRemove(m - {j}, k);
      SumSizesRemove(m - {k}, j);
      assert m - {j} - {k} == m - {k} - {j};
    }
  }

  /** Grouping loses and invents no commit: the group sizes add up to the
      length of the list. */
  lemma {:induction false} GroupConservesCommits(cs: seq<Commit>)
    ensures SumSizes(Group(cs)) == |cs|
  {
    if |cs| > 0 {
      var prefix := cs[..|cs| - 1];
      var c := cs[|cs| - 1];
      GroupConservesCommits(prefix);
      var m := Group(prefix);
      var m' := Group(cs);
      SumSizesRemove(m', c.author);
      assert m' - {c.author} == m - {c.author};
      if c.author in m {
        SumSizesRemove(m, c.author);
      } else {
        assert m - {c.author} == m;
      }
    }
  }

  /** Every commit sits in the group of its own author, and every group is
      non-empty. */
  lemma {:induction false} GroupPlacesEveryCommit(cs: seq<Commit>)
    ensures forall i | 0 <= i < |cs| :: cs[i].author in Group(cs) && cs[i] in Group(cs)[cs[i].author]
    ensures forall a | a in Group(cs) :: |Group(cs)[a]| > 0
  {
    var m := Group(cs);
    GroupHoldsByAuthor(cs);
    forall a | a in m
      ensures |m[a]| > 0
    {
      var c :| c in cs && c.author == a;
      ByAuthorMembers(cs, a);
      assert c in m[a];
    }
    forall i | 0 <= i < |cs|
      ensures cs[i].author in m && cs[i] in m[cs[i].author]
    {
      ByAuthorMembers(cs, cs[i].author);
    }
  }

  /** There are never more authors than commits, and there are none exactly
      when there are no commits. */
  lemma {:induction false} AuthorCountBounds(cs: seq<Commit>)
    ensures |AuthorSet(cs)| <= |cs|
    ensures |AuthorSet(cs)| == 0 <==> |cs| == 0
  {
    if |cs| > 0 {
      var prefix := cs[..|cs| - 1];
      var c := cs[|cs| - 1];
      AuthorCountBounds(prefix);
      assert cs == prefix + [c];
      assert AuthorSet(cs) == AuthorSet(prefix) + {c.author};
      assert c.author in AuthorSet(cs);
    }
  }

  /** The distinct authors of `cs` in order of first appearance; used as the
      iteration order of the author-to-commits map. */
  function Authors(cs: seq<Commit>): (order: seq<string>)
    ensures forall i, j | 0 <= i < j < |order| :: order[i] != order[j]
    ensures forall a :: a in order <==> a in AuthorSet(cs)
  {
    if |cs| == 0 then []
    else
      var prefix := cs[..|cs| - 1];
      var c := cs[|cs| - 1];
      assert cs == prefix + [c];
      var order := Authors(prefix);
      if c.author in order then order else order + [c.author]
  }

  /** `order` lists every key of `keys` exactly once, as ranging over a map does. */
  ghost predicate Enumerates(order: seq<string>, keys: set<string>)
  {
    && (forall i, j | 0 <= i < j < |order| :: order[i] != order[j])
    && (forall a :: a in order <==> a in keys)
  }

  // ---------------------------------------------------------------------------
  // Leader selection
  // ---------------------------------------------------------------------------

  /** A developer together with the count that made them the leader. */
  datatype Leader = Leader(name: string, count: nat)

  /** Visits the keys of `m` in `order`, starting from the empty name and a
      count of 0, and replaces the leader whenever a key's score is strictly
      greater than the current count. The result is the first key in `order`
      with the greatest positive score, or ("", 0) if no score is positive. */
  function ScanLeader(m: map<string, seq<Commit>>, order: seq<string>, score: seq<Commit> -> nat): (r: Leader)
    requires forall k | k in order :: k in m
    ensures forall i | 0 <= i < |order| :: score(m[order[i]]) <= r.count
    ensures r.count == 0 ==> r.name == ""
    ensures r.count > 0 ==>
              exists i :: 0 <= i < |order| && order[i] == r.name && score(m[r.name]) == r.count &&
                          forall j :: 0 <= j < i ==> score(m[order[j]]) < r.count
  {
    if |order| == 0 then Leader("", 0)
    else
      var r := ScanLeader(m, order[..|order| - 1], score);
      var k := order[|order| - 1];
      if score(m[k]) > r.count then Leader(k, score(m[k])) else r
  }

  /** Number of commits in a group. */
  function Size(g: seq<Commit>): nat
  {
    |g|
  }

  /** Whether a commit made at hour `h` counts as hardworking: at 20:00
      or later, or before 06:00. */
  predicate IsLateHour(h: Hour)
  {
    h >= 20 || h < 6
  }

  /** The hardworking commits of a group, in group order. Each one is kept as
      often as it occurs in the group, so equal commits are counted apart. */
  function LateCommits(g: seq<Commit>): (r: seq<Commit>)
    ensures |r| <= |g|
    ensures forall c :: c in r <==> c in g && IsLateHour(c.hour)
    ensures forall c :: multiset(r)[c] == (if IsLateHour(c.hour) then multiset(g)[c] else 0)
    ensures (forall c | c in g :: !IsLateHour(c.hour)) ==> r == []
  {
    if |g| == 0 then []
    else
      var prefix := g[..|g| - 1];
      var c := g[|g| - 1];
      assert g == prefix + [c];
      LateCommits(prefix) + (if IsLateHour(c.hour) then [c] else [])
  }

  /** Number of hardworking commits in a group. */
  function LateCount(g: seq<Commit>): nat
  {
    |LateCommits(g)|
  }

  /** The developer with the largest group. Whatever the visiting order, the
      count is the size of the named developer's group; when every key is
      visited once it is the largest group size; with no developers the
      result is ("", 0). */
  function MostActive(m: map<string, seq<Commit>>, order: seq<string>): (r: Leader)
    requires forall k | k in order :: k in m
    ensures r.count > 0 ==> r.name in m && |m[r.name]| == r.count
    ensures r.count == 0 ==> r.name == ""
    ensures Enumerates(order, m.Keys) ==> forall k | k in m :: |m[k]| <= r.count
    ensures m == map[] ==> r == Leader("", 0)
  {
    ScanLeader(m, order, Size)
  }

  /** The developer with the most hardworking commits. Whatever the visiting
      order, the count is the named developer's number of hardworking commits;
      when every key is visited once it is the largest such number; if
      nobody has one the result is ("", 0). */
  function MostHardworking(m: map<string, seq<Commit>>, order: seq<string>): (r: Leader)
    requires forall k | k in order :: k in m
    ensures r.count > 0 ==> r.name in m && LateCount(m[r.name]) == r.count
    ensures r.count == 0 ==> r.name == ""
    ensures Enumerates(order, m.Keys) ==> forall k | k in m :: LateCount(m[k]) <= r.count
    ensures (forall k | k in m :: LateCount(m[k]) == 0) ==> r == Leader("", 0)
  {
    ScanLeader(m, order, LateCount)
  }

  /** The most active developer of a commit list, its groups visited in order
      of first appearance, stated over the list itself. */
  lemma {:induction false} MostActiveOfCommits(cs: seq<Commit>)
    ensures var r := MostActive(Group(cs), Authors(cs));
            && (forall a | a in AuthorSet(cs) :: |ByAuthor(cs, a)| <= r.count)
            && (r.count > 0 ==> r.name in AuthorSet(cs) && |ByAuthor(cs, r.name)| == r.count)
            && (r.count == 0 <==> |cs| == 0)
            && (r.count == 0 ==> r.name == "")
  {
    var m := Group(cs);
    var r := MostActive(m, Authors(cs));
    assert Enumerates(Authors(cs), m.Keys);
    GroupHoldsByAuthor(cs);
    if |cs| > 0 {
      var a := cs[0].author;
      assert a in m;
      assert cs[0] in ByAuthor(cs, a);
      assert |m[a]| > 0;
    }
  }

  /** The most hardworking developer of a commit list, its groups visited in
      order of first appearance, stated over the list itself. */
  lemma {:induction false} MostHardworkingOfCommits(cs: seq<Commit>)
    ensures var r := MostHardworking(Group(cs), Authors(cs));
            && (forall a | a in AuthorSet(cs) :: LateCount(ByAuthor(cs, a)) <= r.count)
            && (r.count > 0 ==> r.name in AuthorSet(cs) && LateCount(ByAuthor(cs, r.name)) == r.count)
            && (r.count == 0 ==> r.name == "")
            && ((forall c | c in cs :: !IsLateHour(c.hour)) ==> r == Leader("", 0))
  {
    var m := Group(cs);
    var r := MostHardworking(m, Authors(cs));
    assert Enumerates(Authors(cs), m.Keys);
    GroupHoldsByAuthor(cs);
    if forall c | c in cs :: !IsLateHour(c.hour) {
      NoLateCommitNoLateGroup(cs);
    }
  }

  /** Without a single hardworking commit, no group has one. */
  lemma {:induction false} NoLateCommitNoLateGroup(cs: seq<Commit>)
    requires forall c | c in cs :: !IsLateHour(c.hour)
    ensures forall a | a in Group(cs) :: LateCount(Group(cs)[a]) == 0
  {
    GroupHoldsByAuthor(cs);
    forall a | a in Group(cs)
      ensures LateCount(Group(cs)[a]) == 0
    {
      var g := ByAuthor(cs, a);
      ByAuthorMembers(cs, a);
      assert LateCommits(g) == [];
    }
  }

  /** The hardworking leader never has more commits counted than the most
      active developer. */
  lemma {:induction false} HardworkingBelowActive(m: map<string, seq<Commit>>, order: seq<string>)
    requires Enumerates(order, m.Keys)
    ensures MostHardworking(m, order).count <= MostActive(m, order).count
  {
    var h := MostHardworking(m, order);
    if h.count > 0 {
      assert LateCount(m[h.name]) <= |m[h.name]|;
    }
  }

  /** The hour classification at its four boundaries. */
  lemma {:induction false} LateHourBoundaries()
    ensures !IsLateHour(19) && IsLateHour(20) && IsLateHour(5) && !IsLateHour(6)
    ensures IsLateHour(23) && IsLateHour(0)
  {
  }

  // ---------------------------------------------------------------------------
  // First and last commit
  // ---------------------------------------------------------------------------

  /** The commit with the smallest committer time, the earliest-listed one on
      a tie (the update needs a strictly earlier time); None for no commits. */
  function FirstCommit(cs: seq<Commit>): (r: Option<Commit>)
    ensures r.None? <==> |cs| == 0
    ensures r.Some? ==>
              exists i :: 0 <= i < |cs| && cs[i] == r.value &&
                          (forall j | 0 <= j < |cs| :: r.value.time <= cs[j].time) &&
                          (forall j | 0 <= j < i :: cs[j].time > r.value.time)
  {
    if |cs| == 0 then None
    else
      var first := FirstCommit(cs[..|cs| - 1]);
      var c := cs[|cs| - 1];
      if first.None? || c.time < first.value.time then Some(c) else first
  }

  /** The commit with the largest committer time, the earliest-listed one on
      a tie (the update needs a strictly later time); None for no commits. */
  function LastCommit(cs: seq<Commit>): (r: Option<Commit>)
    ensures r.None? <==> |cs| == 0
    ensures r.Some? ==>
              exists i :: 0 <= i < |cs| && cs[i] == r.value &&
                          (forall j | 0 <= j < |cs| :: r.value.time >= cs[j].time) &&
                          (forall j | 0 <= j < i :: cs[j].time < r.value.time)
  {
    if |cs| == 0 then None
    else
      var last := LastCommit(cs[..|cs| - 1]);
      var c := cs[|cs| - 1];
      if last.None? || c.time > last.value.time then Some(c) else last
  }
}
