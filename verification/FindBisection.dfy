/** The list around the weights (find_bisection): uninteresting commits dropped, the rest counted and
turned round. */
module FindBisection {
  import opened CommitGraph
  import opened Marks
  import opened Bisect

  /** The commits that are kept, last first. */
  function Turned(commits: seq<Commit>, interesting: set<Commit>): (r: seq<Commit>)
    ensures forall c :: c in r <==> c in commits && c in interesting
  {
    if commits == [] then []
    else
      assert commits == [commits[0]] + commits[1..];
      Turned(commits[1..], interesting) + if commits[0] in interesting then [commits[0]] else []
  }

  lemma {:induction false} TurnedAppend(s: seq<Commit>, t: seq<Commit>, interesting: set<Commit>)
    ensures Turned(s + t, interesting) == Turned(t, interesting) + Turned(s, interesting)
  {
    if s == [] {
      assert s + t == t;
    } else {
      assert (s + t)[1..] == s[1..] + t;
      TurnedAppend(s[1..], t, interesting);
    }
  }

  ghost predicate IsParent(g: Graph, c: Commit, p: Commit) { c in g.parents && p in g.parents[c] }

  /** No commit comes after one of its parents. */
  ghost predicate ChildrenFirst(g: Graph, commits: seq<Commit>) {
    forall i, j :: 0 <= i < |commits| && 0 <= j < |commits| && IsParent(g, commits[i], commits[j]) ==> i < j
  }

  /** Where a kept commit stands after turning: behind those that came after it. */
  lemma {:induction false} TurnedAt(commits: seq<Commit>, interesting: set<Commit>, k: nat)
    requires k < |commits| && commits[k] in interesting
    ensures Turned(commits, interesting) ==
            Turned(commits[k + 1..], interesting) + [commits[k]] + Turned(commits[..k], interesting)
  {
    var c := commits[k];
    assert commits == commits[..k] + ([c] + commits[k + 1..]);
    TurnedAppend(commits[..k], [c] + commits[k + 1..], interesting);
    TurnedAppend([c], commits[k + 1..], interesting);
    assert Turned([c], interesting) == [c];
  }

  lemma {:induction false} TurnedDistinct(commits: seq<Commit>, interesting: set<Commit>)
    requires Distinct(commits)
    ensures Distinct(Turned(commits, interesting))
  {
    if commits != [] {
      assert forall i :: 0 <= i < |commits[1..]| ==> commits[1..][i] == commits[i + 1];
      assert commits[0] !in commits[1..];
      TurnedDistinct(commits[1..], interesting);
    }
  }

  /** The position of a commit with known neighbours, each commit being there once. */
  lemma {:induction false} PlaceIn(list: seq<Commit>, front: seq<Commit>, c: Commit, back: seq<Commit>, i: nat)
    requires Distinct(list) && list == front + [c] + back && i < |list| && list[i] == c
    ensures list[..i] == front
  {
    assert list[|front|] == c;
  }

  /** If children come first, parents come first after turning. */
  lemma {:induction false} TurnedParentsFirst(g: Graph, commits: seq<Commit>, interesting: set<Commit>,
                                              firstOnly: bool, list: seq<Commit>)
    requires Distinct(commits) && ChildrenFirst(g, commits) && list == Turned(commits, interesting)
    requires Closed(g, list, interesting)
    ensures ParentsFirst(Listed(g, list, interesting, firstOnly), list)
  {
    var h := Listed(g, list, interesting, firstOnly);
    TurnedDistinct(commits, interesting);
    forall i, p | 0 <= i < |list| && list[i] in h.parents && p in h.parents[list[i]] ensures p in list[..i] {
      ParentBefore(g, commits, interesting, list, i, p);
    }
  }

  lemma {:induction false} ParentBefore(g: Graph, commits: seq<Commit>, interesting: set<Commit>, list: seq<Commit>,
                                        i: nat, p: Commit)
    requires Distinct(list) && ChildrenFirst(g, commits) && list == Turned(commits, interesting)
    requires i < |list| && list[i] in g.parents && p in g.parents[list[i]] && p in list
    ensures p in list[..i]
  {
    var c := list[i];
    assert c in list;
    var k :| 0 <= k < |commits| && commits[k] == c;
    var j :| 0 <= j < |commits| && commits[j] == p;
    assert IsParent(g, commits[k], commits[j]);
    assert commits[k + 1..][j - k - 1] == p;
    TurnedAt(commits, interesting, k);
    PlaceIn(list, Turned(commits[k + 1..], interesting), c, Turned(commits[..k], interesting), i);
  }

  /** The loop that turns the list round, and counts. */
  method TurnRound(commits: seq<Commit>, interesting: set<Commit>, treesame: set<Commit>)
    returns (list: seq<Commit>, nr: nat)
    requires Distinct(commits)
    ensures list == Turned(commits, interesting) && nr == |Elements(list) - treesame|
  {
    list, nr := [], 0;
    for i := 0 to |commits|
      invariant list == Turned(commits[..i], interesting) && nr == |Elements(list) - treesame|
    {
      var c := commits[i];
      TurnedMore(commits, i, interesting, treesame);
      if c in interesting {
        list := [c] + list;
        nr := nr + if c in treesame then 0 else 1;
      }
    }
    assert commits[..|commits|] == commits;
  }

  lemma {:induction false} TurnedMore(commits: seq<Commit>, i: nat, interesting: set<Commit>, treesame: set<Commit>)
    requires Distinct(commits) && i < |commits|
    ensures var before, c := Turned(commits[..i], interesting), commits[i];
            && Turned(commits[..i + 1], interesting) == (if c in interesting then [c] else []) + before
            && |Elements([c] + before) - treesame| == |Elements(before) - treesame| + if c in treesame then 0 else 1
  {
    var before, c := Turned(commits[..i], interesting), commits[i];
    assert commits[..i + 1] == commits[..i] + [c];
    TurnedAppend(commits[..i], [c], interesting);
    assert Turned([c], interesting) == if c in interesting then [c] else [];
    CountMore(before, c, treesame);
  }

  lemma {:induction false} CountMore(before: seq<Commit>, c: Commit, treesame: set<Commit>)
    requires c !in before
    ensures |Elements([c] + before) - treesame| == |Elements(before) - treesame| + if c in treesame then 0 else 1
  {
    assert Elements([c] + before) - treesame == (Elements(before) - treesame) + ({c} - treesame);
    assert {c} - treesame == if c in treesame then {} else {c};
  }

  /** The commit whose weight is reported. */
  function First(found: Found): Commit
    requires !found.Nothing? && (found.Ranked? ==> found.commits != [])
  {
    if found.Ranked? then found.commits[0] else found.commit
  }

  /** The counts that find_bisection is about: the commits of the list reached, tree-same ones left out. */
  ghost function Counts(g: Graph, commits: seq<Commit>, interesting: set<Commit>, firstOnly: bool): Graph
    requires Closed(g, Turned(commits, interesting), interesting)
  {
    Listed(g, Turned(commits, interesting), interesting, firstOnly)
  }

  /** find_bisection: `all` is the number of tree-changing commits, `reaches` the weight of the commit
      found. If the commits come children first, the commit found is the best one, or nearly so, and
      a ranking is right, whenever the roots and merges leave room for the strands. */
  method FindBisection(g: Graph, commits: seq<Commit>, interesting: set<Commit>, treesame: set<Commit>,
                       firstOnly: bool, findAll: bool)
    returns (found: Found, reaches: int, all: nat)
    requires Valid(g) && Distinct(commits) && Closed(g, Turned(commits, interesting), interesting)
    ensures all == |(Elements(commits) * interesting) - treesame|
    ensures found.Nothing? <==> Elements(commits) * interesting == {}
    ensures !found.Nothing? ==> (found.Ranked? <==> findAll) && (found.Ranked? ==> found.commits != [])
    ensures !found.Nothing? && reaches >= 0 ==>
              reaches == Exact(Counts(g, commits, interesting, firstOnly), treesame, First(found))
    ensures ChildrenFirst(g, commits) && StrandsFilled(Counts(g, commits, interesting, firstOnly), treesame, all) ==>
              Right(Turned(commits, interesting), treesame, Counts(g, commits, interesting, firstOnly), all, found)
  {
    var list;
    list, all := TurnRound(commits, interesting, treesame);
    KeptCommits(commits, interesting, list);
    TurnedDistinct(commits, interesting);
    ghost var h := Counts(g, commits, interesting, firstOnly);
    var w;
    w, found := DoFindBisection(g, list, interesting, treesame, firstOnly, !findAll, all);
    reaches := 0;
    if !found.Nothing? {
      FirstListed(list, treesame, !findAll, all, h, w, found);
      reaches := w[First(found)];
    }
    if ChildrenFirst(g, commits) && StrandsFilled(h, treesame, all) {
      TurnedParentsFirst(g, commits, interesting, firstOnly, list);
      AllRight(list, treesame, !findAll, all, h, w, found);
    }
  }

  lemma {:induction false} KeptCommits(commits: seq<Commit>, interesting: set<Commit>, list: seq<Commit>)
    requires list == Turned(commits, interesting)
    ensures Elements(list) == Elements(commits) * interesting && (list == [] <==> Elements(list) == {})
  {
    assert list != [] ==> list[0] in Elements(list);
  }

  /** The answer is right: optimal, nearly optimal, or all commits in the right order. */
  ghost predicate Right(list: seq<Commit>, treesame: set<Commit>, h: Graph, nr: nat, found: Found) {
    match found
    case Nothing => list == []
    case Halfway(c) => NearlyOptimal(list, treesame, h, nr, c)
    case Best(c) => Optimal(list, treesame, h, nr, c)
    case Ranked(cs) =>
      && RankedExactly(treesame, h, nr, cs)
      && (nr > 0 ==> forall c :: c in cs <==> c in list && c !in treesame)
  }

  lemma {:induction false} AllRight(list: seq<Commit>, treesame: set<Commit>, shortcut: bool, nr: nat, h: Graph,
                                    w: map<Commit, int>, found: Found)
    requires Bisects(list, treesame, shortcut, nr, h, w, found) && nr == |Elements(list) - treesame|
    requires found.Halfway? ==> NearlyOptimal(list, treesame, h, nr, found.commit)
    requires found.Best? || found.Ranked? ==> AllWeighed(list, treesame, w)
    requires found.Best? && AllWeighed(list, treesame, w) ==> Optimal(list, treesame, h, nr, found.commit)
    requires found.Ranked? && AllWeighed(list, treesame, w) ==> RankedExactly(treesame, h, nr, found.commits)
    ensures Right(list, treesame, h, nr, found)
  {
    assert Elements(list) <= treesame ==> Elements(list) - treesame == {};
  }

  lemma {:induction false} FirstListed(list: seq<Commit>, treesame: set<Commit>, shortcut: bool, nr: nat, h: Graph,
                                       w: map<Commit, int>, found: Found)
    requires Bisects(list, treesame, shortcut, nr, h, w, found) && !found.Nothing?
    requires (found.Halfway? ==> found.commit in list) && forall c :: c in list ==> c in w
    ensures (found.Ranked? <==> !shortcut) && (found.Ranked? ==> found.commits != []) && First(found) in list
  {
    if found.Ranked? { FirstIsFarthest(list, treesame, w, nr, found.commits); }
  }
}
