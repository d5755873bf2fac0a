/** Weights of commits for bisection (do_find_bisection): how many tree-changing commits each
commit of the list reaches. */
module Bisect {
  import opened Options
  import opened CommitGraph
  import opened Marks

  /** The parents that are not UNINTERESTING; only the first parent is looked at in first-parent
      mode. */
  function InterestingParents(parents: seq<Commit>, interesting: set<Commit>, firstOnly: bool): (r: seq<Commit>)
    ensures forall p :: p in r ==> p in parents && p in interesting
    ensures !firstOnly ==> forall p :: p in parents && p in interesting ==> p in r
    ensures firstOnly ==> |r| <= 1 && (parents != [] && parents[0] in interesting ==> r == [parents[0]])
  {
    if parents == [] then []
    else if firstOnly then if parents[0] in interesting then [parents[0]] else []
    else (if parents[0] in interesting then [parents[0]] else []) + InterestingParents(parents[1..], interesting, false)
  }

  /** The list as a graph of its own. */
  ghost function Listed(g: Graph, list: seq<Commit>, interesting: set<Commit>, firstOnly: bool): Graph
    requires forall c :: c in list ==> c in g.parents
  {
    Graph(map c | c in list :: InterestingParents(g.parents[c], interesting, firstOnly), map c | c in list :: 0)
  }

  /** The list holds the interesting parents of its commits. */
  ghost predicate Closed(g: Graph, list: seq<Commit>, interesting: set<Commit>) {
    && (forall c :: c in list ==> c in g.parents && c in interesting)
    && (forall c, p {:trigger p in g.parents[c]} :: c in list && p in g.parents[c] && p in interesting ==> p in list)
  }

  lemma {:induction false} ListedReach(g: Graph, list: seq<Commit>, interesting: set<Commit>, firstOnly: bool,
                                       a: Commit, b: Commit)
    requires Closed(g, list, interesting) && Reach(Listed(g, list, interesting, firstOnly), a, b)
    ensures Reach(g, a, b)
  {
    var h := Listed(g, list, interesting, firstOnly);
    var path :| Connects(h, path, a, b);
    forall i | 0 <= i < |path| - 1 ensures LinkAt(g, path, i) { assert LinkAt(h, path, i); }
    assert Connects(g, path, a, b);
  }

  lemma {:induction false} ListedValid(g: Graph, list: seq<Commit>, interesting: set<Commit>, firstOnly: bool)
    requires Valid(g) && Closed(g, list, interesting)
    ensures Valid(Listed(g, list, interesting, firstOnly))
  {
    var h := Listed(g, list, interesting, firstOnly);
    forall c, p | c in h.parents && p in h.parents[c] ensures p in h.parents && !Reach(h, p, c) {
      assert p in g.parents[c];
      if Reach(h, p, c) { ListedReach(g, list, interesting, firstOnly, p, c); }
    }
  }

  /** The commits of the list that `c` reaches, itself included. */
  ghost function Below(h: Graph, c: Commit): set<Commit> {
    set d | d in h.parents && Reach(h, c, d)
  }

  /** Those among them that change the tree. */
  ghost function Exact(h: Graph, treesame: set<Commit>, c: Commit): nat {
    |Below(h, c) - treesame|
  }

  lemma {:induction false} BelowRoot(h: Graph, c: Commit)
    requires Valid(h) && c in h.parents && h.parents[c] == []
    ensures Below(h, c) == {c}
  {
    ReachSelf(h, c);
    forall d | d in Below(h, c) ensures d == c {
      if d != c { var p := ReachFirst(h, c, d); }
    }
  }

  /** A single strand: one commit more than the parent. */
  lemma {:induction false} BelowStrand(h: Graph, c: Commit, q: Commit)
    requires Valid(h) && c in h.parents && q in h.parents[c] && forall p :: p in h.parents[c] ==> p == q
    ensures Below(h, c) == Below(h, q) + {c} && c !in Below(h, q)
  {
    ReachSelf(h, c);
    forall d | d in Below(h, c) && d != c ensures d in Below(h, q) {
      var p := ReachFirst(h, c, d);
    }
    forall d | d in Below(h, q) ensures d in Below(h, c) { ReachVia(h, c, q, d); }
  }

  lemma {:induction false} ExactStrand(h: Graph, treesame: set<Commit>, c: Commit, q: Commit)
    requires Valid(h) && c in h.parents && q in h.parents[c] && forall p :: p in h.parents[c] ==> p == q
    ensures Exact(h, treesame, c) == Exact(h, treesame, q) + if c in treesame then 0 else 1
  {
    BelowStrand(h, c, q);
    if c in treesame {
      assert Below(h, c) - treesame == Below(h, q) - treesame;
    } else {
      assert Below(h, c) - treesame == (Below(h, q) - treesame) + {c};
    }
  }

  lemma {:induction false} ExactRoot(h: Graph, treesame: set<Commit>, c: Commit)
    requires Valid(h) && c in h.parents && h.parents[c] == []
    ensures Exact(h, treesame, c) == if c in treesame then 0 else 1
  {
    BelowRoot(h, c);
    if c in treesame {
      assert {c} - treesame == {};
    } else {
      assert {c} - treesame == {c};
    }
  }

  /** A set that holds `c` and the parents of its commits holds what `c` reaches. */
  lemma {:induction false} ClosedHolds(h: Graph, c: Commit, s: set<Commit>)
    requires Valid(h) && c in s && s <= Below(h, c) && DownClosed(h, s)
    ensures s == Below(h, c)
  {
    forall d | d in Below(h, c) ensures d in s {
      if d !in s { var _, _ := Frontier(h, s, c, d); }
    }
  }

  ghost predicate DownClosed(h: Graph, s: set<Commit>) {
    forall x, p {:trigger p in h.parents[x]} :: x in s && x in h.parents && p in h.parents[x] ==> p in s
  }

  lemma {:induction false} BelowClosed(h: Graph, c: Commit)
    requires Valid(h) && c in h.parents
    ensures c in Below(h, c) && DownClosed(h, Below(h, c))
  {
    ReachSelf(h, c);
    forall x, p | x in Below(h, c) && x in h.parents && p in h.parents[x] ensures p in Below(h, c) {
      ReachParent(h, c, x, p);
    }
  }

  /** What count_distance knows: the parents of listed commits, and a set `below` that it stays in. */
  ghost predicate Setting(g: Graph, interesting: set<Commit>, h: Graph, below: set<Commit>) {
    && below <= h.parents.Keys && DownClosed(h, below)
    && (forall c :: c in h.parents ==> c in g.parents && c in interesting)
    && (forall c, p {:trigger p in g.parents[c]} :: c in h.parents && p in g.parents[c] && p in interesting ==>
       p in h.parents[c])
    && (forall c, p {:trigger p in h.parents[c]} :: c in h.parents && p in h.parents[c] ==>
       p in g.parents[c] && p in interesting)
  }

  lemma {:induction false} CountStep(a: set<Commit>, b: set<Commit>, c: set<Commit>, treesame: set<Commit>)
    requires a <= b <= c
    ensures |(c - a) - treesame| == |(b - a) - treesame| + |(c - b) - treesame|
  {
    assert (c - a) - treesame == ((b - a) - treesame) + ((c - b) - treesame);
  }

  lemma {:induction false} CountOne(a: set<Commit>, x: Commit, treesame: set<Commit>)
    requires x !in a
    ensures |((a + {x}) - a) - treesame| == if x in treesame then 0 else 1
  {
    assert (a + {x}) - a == {x};
    if x in treesame { assert {x} - treesame == {}; } else { assert {x} - treesame == {x}; }
  }

  /** What a call of count_distance does: it counts the commits that it newly marks, and no newly
      marked commit has an unmarked parent left but the `pending` ones. */
  ghost predicate Counts(h: Graph, below: set<Commit>, before: set<Commit>, counted: set<Commit>,
                         pending: set<Commit>, treesame: set<Commit>, nr: nat) {
    && before <= counted && nr == |(counted - before) - treesame|
    && (forall x :: x in counted && x !in before ==> x in below && x in h.parents)
    && (forall x, p {:trigger p in h.parents[x]} ::
       x in counted && x !in before && x in h.parents && p in h.parents[x] ==> p in counted || p in pending)
  }

  lemma {:induction false} CountsMark(h: Graph, below: set<Commit>, before: set<Commit>, counted: set<Commit>,
                                      treesame: set<Commit>, nr: nat, x: Commit, pending: set<Commit>)
    requires Counts(h, below, before, counted, {x}, treesame, nr) && x in h.parents && x in below && x !in counted
    requires forall p :: p in h.parents[x] ==> p in pending
    ensures Counts(h, below, before, counted + {x}, pending, treesame, nr + if x in treesame then 0 else 1)
  {
    CountStep(before, counted, counted + {x}, treesame);
    CountOne(counted, x, treesame);
  }

  lemma {:induction false} CountsJoin(h: Graph, below: set<Commit>, before: set<Commit>, mid: set<Commit>,
                                      counted: set<Commit>, pending: set<Commit>, pending': set<Commit>,
                                      treesame: set<Commit>, nr: nat, n: nat)
    requires Counts(h, below, before, mid, pending, treesame, nr) && Counts(h, below, mid, counted, {}, treesame, n)
    requires forall x :: x in pending ==> x in pending' || x in counted
    ensures Counts(h, below, before, counted, pending', treesame, nr + n)
  {
    CountStep(before, mid, counted, treesame);
  }

  /** count_distance: the number of tree-changing commits it newly reaches. */
  method CountDistance(g: Graph, interesting: set<Commit>, treesame: set<Commit>, start: Commit, before: set<Commit>,
                       ghost h: Graph, ghost below: set<Commit>)
    returns (nr: nat, counted: set<Commit>)
    requires Setting(g, interesting, h, below) && (start in interesting ==> start in below) && before <= below
    requires start in h.parents ==> start in interesting
    ensures Counts(h, below, before, counted, {}, treesame, nr) && counted <= below
    ensures if start in interesting then start in counted else counted == before
    decreases |below| - |before|, 1
  {
    nr, counted := 0, before;
    var cur, more := start, true;
    assert (before - before) - treesame == {};
    Cardinality(before, below);
    while more && cur in interesting && cur !in counted
      invariant more && cur in interesting ==> cur in below
      invariant Counts(h, below, before, counted, if more && cur in interesting then {cur} else {}, treesame, nr)
      invariant counted <= below
      invariant (cur == start && more) || start in counted
      invariant start !in interesting ==> counted == before && cur == start
      decreases |below| - |counted|
    {
      nr, counted, cur, more := CountHere(g, interesting, treesame, before, counted, nr, cur, h, below);
    }
  }

  /** One commit of count_distance, and its parents but the first. */
  method CountHere(g: Graph, interesting: set<Commit>, treesame: set<Commit>, ghost before: set<Commit>,
                   counted: set<Commit>, nr: nat, cur: Commit, ghost h: Graph, ghost below: set<Commit>)
    returns (nr': nat, counted': set<Commit>, next: Commit, more: bool)
    requires Setting(g, interesting, h, below) && cur in below && cur !in counted && counted <= below
    requires Counts(h, below, before, counted, {cur}, treesame, nr)
    ensures Counts(h, below, before, counted', if more && next in interesting then {next} else {}, treesame, nr')
    ensures more && next in interesting ==> next in below
    ensures cur in counted' && counted + {cur} <= counted' <= below && |counted| < |counted'| <= |below|
    decreases |below| - |counted|, 0
  {
    var ps := g.parents[cur];
    nr', counted' := nr + if cur in treesame then 0 else 1, counted + {cur};
    Cardinality(counted', below);
    if ps == [] {
      CountsMark(h, below, before, counted, treesame, nr, cur, {});
      return nr', counted', cur, false;
    }
    CountsMark(h, below, before, counted, treesame, nr, cur, Pending(ps, 1, interesting));
    next, more := ps[0], true;
    assert next in g.parents[cur];
    nr', counted' := CountOthers(g, interesting, treesame, before, counted', nr', ps, cur, h, below);
    Cardinality(counted + {cur}, counted');
    Cardinality(counted', below);
  }

  /** The interesting ones of the first parent and the parents from `i` on. */
  ghost function Pending(ps: seq<Commit>, i: nat, interesting: set<Commit>): set<Commit>
    requires 0 < i <= |ps|
  {
    set p | p in [ps[0]] + ps[i..] && p in interesting
  }

  /** The parents of a commit but the first. */
  method CountOthers(g: Graph, interesting: set<Commit>, treesame: set<Commit>, ghost before: set<Commit>,
                     marked: set<Commit>, nr: nat, ps: seq<Commit>, ghost cur: Commit, ghost h: Graph,
                     ghost below: set<Commit>)
    returns (nr': nat, counted: set<Commit>)
    requires Setting(g, interesting, h, below) && cur in below && marked <= below && ps == g.parents[cur] && ps != []
    requires Counts(h, below, before, marked, Pending(ps, 1, interesting), treesame, nr)
    ensures Counts(h, below, before, counted, if ps[0] in interesting then {ps[0]} else {}, treesame, nr')
    ensures marked <= counted <= below
    decreases |below| - |marked|, 2
  {
    nr', counted := nr, marked;
    Cardinality(marked, below);
    assert forall p :: p in ps ==> p in g.parents[cur];
    for i := 1 to |ps|
      invariant marked <= counted <= below
      invariant Counts(h, below, before, counted, Pending(ps, i, interesting), treesame, nr')
    {
      var p := ps[i];
      assert p in ps;
      Cardinality(marked, counted);
      ghost var mid := counted;
      var n;
      n, counted := CountDistance(g, interesting, treesame, p, counted, h, below);
      CountsJoin(h, below, before, mid, counted, Pending(ps, i, interesting), Pending(ps, i + 1, interesting),
                 treesame, nr', n);
      nr' := nr' + n;
    }
  }

  /** The distance of a merge, from clear flags. */
  method DistanceOf(g: Graph, interesting: set<Commit>, treesame: set<Commit>, c: Commit, ghost h: Graph)
    returns (nr: nat)
    requires Valid(h) && c in h.parents && Setting(g, interesting, h, Below(h, c))
    ensures nr == Exact(h, treesame, c)
  {
    BelowClosed(h, c);
    var counted;
    nr, counted := CountDistance(g, interesting, treesame, c, {}, h, Below(h, c));
    ClosedHolds(h, c, counted);
    assert counted - {} == counted;
  }

  lemma {:induction false} SettingOf(g: Graph, list: seq<Commit>, interesting: set<Commit>, c: Commit)
    requires Valid(g) && Closed(g, list, interesting) && c in list
    ensures var h := Listed(g, list, interesting, false); Setting(g, interesting, h, Below(h, c))
  {
    var h := Listed(g, list, interesting, false);
    ListedValid(g, list, interesting, false);
    BelowClosed(h, c);
  }

  /** count_interesting_parents */
  method CountInterestingParents(parents: seq<Commit>, interesting: set<Commit>, firstOnly: bool) returns (count: nat)
    ensures count == |InterestingParents(parents, interesting, firstOnly)|
  {
    count := 0;
    var i := 0;
    while i < |parents|
      invariant i <= |parents| && (firstOnly ==> i == 0 && count == 0)
      invariant !firstOnly ==> count + |InterestingParents(parents[i..], interesting, false)| ==
                               |InterestingParents(parents, interesting, false)|
      decreases |parents| - i
    {
      assert parents[i..][1..] == parents[i + 1..];
      if parents[i] in interesting {
        count := count + 1;
      }
      if firstOnly {
        return;
      }
      i := i + 1;
    }
  }

  /** The exact weights and how they hang together. */
  ghost predicate Rules(h: Graph, treesame: set<Commit>, exact: map<Commit, nat>) {
    exact.Keys == h.parents.Keys && forall c {:trigger RuleAt(h, treesame, exact, c)} :: c in h.parents ==>
      RuleAt(h, treesame, exact, c)
  }

  ghost predicate RuleAt(h: Graph, treesame: set<Commit>, exact: map<Commit, nat>, c: Commit) {
    && c in h.parents && c in exact
    && (|h.parents[c]| == 0 ==> exact[c] == if c in treesame then 0 else 1)
    && (|h.parents[c]| == 1 ==>
          h.parents[c][0] in exact && exact[c] == exact[h.parents[c][0]] + if c in treesame then 0 else 1)
  }

  lemma {:induction false} RulesHold(h: Graph, treesame: set<Commit>) returns (exact: map<Commit, nat>)
    requires Valid(h)
    ensures Rules(h, treesame, exact) && forall c :: c in h.parents ==> exact[c] == Exact(h, treesame, c)
  {
    exact := map c | c in h.parents :: Exact(h, treesame, c);
    forall c | c in h.parents ensures RuleAt(h, treesame, exact, c) {
      if |h.parents[c]| == 1 { assert h.parents[c][0] in h.parents[c]; }
      RuleOf(h, treesame, exact, c);
    }
  }

  lemma {:induction false} RuleOf(h: Graph, treesame: set<Commit>, exact: map<Commit, nat>, c: Commit)
    requires Valid(h) && c in h.parents && c in exact && exact[c] == Exact(h, treesame, c)
    requires |h.parents[c]| == 1 ==>
             h.parents[c][0] in exact && exact[h.parents[c][0]] == Exact(h, treesame, h.parents[c][0])
    ensures RuleAt(h, treesame, exact, c)
  {
    if |h.parents[c]| == 0 {
      ExactRoot(h, treesame, c);
    } else if |h.parents[c]| == 1 {
      assert h.parents[c][0] in h.parents[c];
      ExactStrand(h, treesame, c, h.parents[c][0]);
    }
  }

  /** Every weight is exact, or stands for one (-1) or more (-2) interesting parents. */
  ghost predicate Weighed(h: Graph, exact: map<Commit, nat>, w: map<Commit, int>) {
    && w.Keys == h.parents.Keys == exact.Keys
    && forall c :: c in w ==> WeightOk(h, exact, w, c)
  }

  ghost predicate WeightOk(h: Graph, exact: map<Commit, nat>, w: map<Commit, int>, c: Commit) {
    && c in w && c in exact && c in h.parents
    && if w[c] >= 0 then w[c] == exact[c]
       else if w[c] == -1 then |h.parents[c]| == 1
       else w[c] == -2 && |h.parents[c]| >= 2
  }

  /** The tree-changing commits whose weight is known. */
  ghost function Known(w: map<Commit, int>, treesame: set<Commit>): set<Commit> {
    set c | c in w && c !in treesame && w[c] >= 0
  }

  lemma {:induction false} KnownMore(w: map<Commit, int>, treesame: set<Commit>, c: Commit, v: int)
    requires (c in w ==> w[c] < 0) && v >= 0
    ensures |Known(w[c := v], treesame)| == |Known(w, treesame)| + if c in treesame then 0 else 1
  {
    if c in treesame {
      assert Known(w[c := v], treesame) == Known(w, treesame);
    } else {
      assert Known(w[c := v], treesame) == Known(w, treesame) + {c};
    }
  }

  lemma {:induction false} KnownSame(w: map<Commit, int>, treesame: set<Commit>, c: Commit, v: int)
    requires c !in w && v < 0
    ensures Known(w[c := v], treesame) == Known(w, treesame)
  {
  }

  /** The first loop of do_find_bisection. */
  method InitWeights(g: Graph, list: seq<Commit>, interesting: set<Commit>, treesame: set<Commit>, firstOnly: bool,
                     ghost h: Graph, ghost exact: map<Commit, nat>)
    returns (w: map<Commit, int>, counted: nat)
    requires Distinct(list) && Rules(h, treesame, exact) && (forall c :: c in h.parents <==> c in list)
    requires forall c :: c in list ==>
             c in g.parents && h.parents[c] == InterestingParents(g.parents[c], interesting, firstOnly)
    ensures Weighed(h, exact, w) && Tally(h, treesame, w, counted) && StrandsOpen(h, w) && AllOpen(h, w)
  {
    w, counted := map[], 0;
    assert Known(map[], treesame) == {};
    for i := 0 to |list|
      invariant Started(h, exact, treesame, list, i, w, counted)
    {
      assert list[i] in list;
      w, counted := InitOne(g, list, i, interesting, treesame, firstOnly, w, counted, h, exact);
    }
    assert list[..|list|] == list;
    TallyStart(h, exact, treesame, w, counted);
  }

  /** What holds after `i` commits of the first loop. */
  ghost predicate Started(h: Graph, exact: map<Commit, nat>, treesame: set<Commit>, list: seq<Commit>, i: nat,
                          w: map<Commit, int>, counted: nat) {
    && i <= |list| && (forall c :: c in w <==> c in list[..i]) && (forall c :: c in w ==> WeightOk(h, exact, w, c))
    && counted == |Known(w, treesame)| && AllOpen(h, w)
  }

  /** One commit of the first loop. */
  method InitOne(g: Graph, list: seq<Commit>, i: nat, interesting: set<Commit>, treesame: set<Commit>,
                 firstOnly: bool, w: map<Commit, int>, counted: nat, ghost h: Graph, ghost exact: map<Commit, nat>)
    returns (w': map<Commit, int>, counted': nat)
    requires Distinct(list) && i < |list| && Started(h, exact, treesame, list, i, w, counted)
    requires Rules(h, treesame, exact)
    requires list[i] in g.parents && list[i] in h.parents
    requires h.parents[list[i]] == InterestingParents(g.parents[list[i]], interesting, firstOnly)
    ensures Started(h, exact, treesame, list, i + 1, w', counted')
  {
    var c := list[i];
    assert c !in list[..i] && RuleAt(h, treesame, exact, c);
    assert list[..i + 1] == list[..i] + [c];
    var n := CountInterestingParents(g.parents[c], interesting, firstOnly);
    var v := if n == 0 then if c in treesame then 0 else 1 else if n == 1 then -1 else -2;
    counted' := counted;
    if n == 0 {
      KnownMore(w, treesame, c, v);
      counted' := counted + if c in treesame then 0 else 1;
    } else {
      KnownSame(w, treesame, c, v);
    }
    w' := SetWeight(h, exact, w, c, v);
  }

  /** Only commits without interesting parents have a weight. */
  ghost predicate AllOpen(h: Graph, w: map<Commit, int>) {
    forall c :: c in w ==> c in h.parents && (|h.parents[c]| > 0 ==> w[c] < 0)
  }

  /** No single strand has a weight. */
  ghost predicate StrandsOpen(h: Graph, w: map<Commit, int>) {
    forall c :: c in w && c in h.parents && |h.parents[c]| == 1 ==> w[c] == -1
  }

  lemma {:induction false} TallyStart(h: Graph, exact: map<Commit, nat>, treesame: set<Commit>, w: map<Commit, int>,
                                      counted: nat)
    requires Weighed(h, exact, w) && AllOpen(h, w) && counted == |Known(w, treesame)|
    ensures Tally(h, treesame, w, counted) && StrandsOpen(h, w)
  {
    assert DoneMerges(h, treesame, w) == {};
    forall c | c in w && c in h.parents && |h.parents[c]| == 1 ensures w[c] == -1 { assert WeightOk(h, exact, w, c); }
  }

  function SetWeight(ghost h: Graph, ghost exact: map<Commit, nat>, w: map<Commit, int>, c: Commit,
                     v: int): (r: map<Commit, int>)
    requires forall d :: d in w ==> WeightOk(h, exact, w, d)
    requires c in exact && c in h.parents
    requires if v >= 0 then v == exact[c] else if v == -1 then |h.parents[c]| == 1 else v == -2 && |h.parents[c]| >= 2
    ensures r == w[c := v] && forall d :: d in r ==> WeightOk(h, exact, r, d)
  {
    assert forall d :: d in w[c := v] && d != c ==> WeightOk(h, exact, w, d);
    w[c := v]
  }

  /** approx_halfway, for a commit that changes the tree. */
  predicate ApproxHalfway(weight: int, nr: int) {
    var diff := 2 * weight - nr;
    -1 <= diff <= 1 || (if diff < 0 then -diff else diff) < nr / 1024
  }

  /** What do_find_bisection returns: a commit at half-way, the best one, or, if all are asked for,
      the tree-changing commits from the best on. */
  datatype Found = Halfway(commit: Commit) | Best(commit: Commit) | Ranked(commits: seq<Commit>) | Nothing

  /** No tree-same commit has more than one interesting parent. */
  ghost predicate NoTreesameMerges(h: Graph, treesame: set<Commit>) {
    forall c :: c in treesame && c in h.parents ==> |h.parents[c]| < 2
  }

  /** The tree-same merges whose weight is known. */
  ghost function DoneMerges(h: Graph, treesame: set<Commit>, w: map<Commit, int>): set<Commit> {
    set c | c in w && c in treesame && c in h.parents && |h.parents[c]| >= 2 && w[c] >= 0
  }

  /** `counted` is the number of tree-changing commits, and of merges that do not change the tree,
      whose weight is known. */
  ghost predicate Tally(h: Graph, treesame: set<Commit>, w: map<Commit, int>, counted: nat) {
    counted == |Known(w, treesame)| + |DoneMerges(h, treesame, w)|
  }

  /** What the halfway shortcut returns. */
  ghost predicate IsHalfway(w: map<Commit, int>, treesame: set<Commit>, nr: nat, c: Commit) {
    c in w && c !in treesame && w[c] >= 0 && ApproxHalfway(w[c], nr)
  }

  /** No tree-changing commit with interesting parents whose weight is known passes for halfway. */
  ghost predicate NoneHalfway(h: Graph, w: map<Commit, int>, treesame: set<Commit>, nr: nat) {
    forall c :: c in w && c in h.parents && h.parents[c] != [] ==> !IsHalfway(w, treesame, nr, c)
  }

  lemma {:induction false} StillNone(h: Graph, w: map<Commit, int>, treesame: set<Commit>, nr: nat, c: Commit, v: int)
    requires NoneHalfway(h, w, treesame, nr) && c in w && !IsHalfway(w[c := v], treesame, nr, c)
    ensures NoneHalfway(h, w[c := v], treesame, nr)
  {
    forall d | d in w[c := v] && d in h.parents && h.parents[d] != [] ensures !IsHalfway(w[c := v], treesame, nr, d) {
      if d != c { assert !IsHalfway(w, treesame, nr, d); }
    }
  }

  lemma {:induction false} NoneAtFirst(h: Graph, w: map<Commit, int>, treesame: set<Commit>, nr: nat)
    requires AllOpen(h, w)
    ensures NoneHalfway(h, w, treesame, nr)
  {
  }

  lemma {:induction false} DoneMore(h: Graph, treesame: set<Commit>, w: map<Commit, int>, c: Commit, v: int)
    requires c in w && w[c] < 0 && v >= 0 && c in h.parents
    ensures |DoneMerges(h, treesame, w[c := v])| ==
            |DoneMerges(h, treesame, w)| + if c in treesame && |h.parents[c]| >= 2 then 1 else 0
  {
    if c in treesame && |h.parents[c]| >= 2 {
      assert DoneMerges(h, treesame, w[c := v]) == DoneMerges(h, treesame, w) + {c};
    } else {
      assert DoneMerges(h, treesame, w[c := v]) == DoneMerges(h, treesame, w);
    }
  }

  /** Setting a weight counts the commit if it changes the tree or is a merge. */
  lemma {:induction false} TallyMore(h: Graph, treesame: set<Commit>, w: map<Commit, int>, counted: nat, c: Commit,
                                     v: int)
    requires c in w && w[c] < 0 && v >= 0 && c in h.parents && Tally(h, treesame, w, counted)
    ensures Tally(h, treesame, w[c := v], counted + if c in treesame && |h.parents[c]| < 2 then 0 else 1)
  {
    KnownMore(w, treesame, c, v);
    DoneMore(h, treesame, w, c, v);
  }

  /** Merges can be counted, or there are none. */
  ghost predicate MergeAt(g: Graph, interesting: set<Commit>, treesame: set<Commit>, firstOnly: bool, h: Graph,
                          exact: map<Commit, nat>, c: Commit) {
    && Valid(h) && c in h.parents && c in exact && exact[c] == Exact(h, treesame, c)
    && if firstOnly then |h.parents[c]| < 2 else Setting(g, interesting, h, Below(h, c))
  }

  method MergeWeight(g: Graph, interesting: set<Commit>, treesame: set<Commit>, ghost firstOnly: bool, c: Commit,
                     ghost h: Graph, ghost exact: map<Commit, nat>)
    returns (d: nat)
    requires MergeAt(g, interesting, treesame, firstOnly, h, exact, c) && |h.parents[c]| >= 2
    ensures d == exact[c]
  {
    d := DistanceOf(g, interesting, treesame, c, h);
  }

  /** Merges among the first `i` commits have their weight. */
  ghost predicate MergesDone(w: map<Commit, int>, list: seq<Commit>, i: nat) {
    i <= |list| && forall k :: 0 <= k < i ==> list[k] in w && w[list[k]] != -2
  }

  /** What holds after `i` commits of the second loop. */
  ghost predicate Merging(h: Graph, exact: map<Commit, nat>, treesame: set<Commit>, list: seq<Commit>, i: nat,
                          w: map<Commit, int>, counted: nat) {
    Weighed(h, exact, w) && Tally(h, treesame, w, counted) && StrandsOpen(h, w) && MergesDone(w, list, i)
  }

  /** One commit of the second loop. */
  method WeighMerge(g: Graph, list: seq<Commit>, i: nat, interesting: set<Commit>, treesame: set<Commit>,
                    ghost firstOnly: bool, w: map<Commit, int>, counted: nat, ghost h: Graph,
                    ghost exact: map<Commit, nat>)
    returns (w': map<Commit, int>, counted': nat)
    requires i < |list| && Merging(h, exact, treesame, list, i, w, counted) && list[i] in w
    requires MergeAt(g, interesting, treesame, firstOnly, h, exact, list[i])
    ensures Merging(h, exact, treesame, list, i + 1, w', counted') && w'.Keys == w.Keys && w'[list[i]] != -2
    ensures w' == w[list[i] := w'[list[i]]] && (w[list[i]] != -2 ==> w' == w)
  {
    var c := list[i];
    w', counted' := w, counted;
    if w[c] == -2 {
      assert WeightOk(h, exact, w, c);
      var d := MergeWeight(g, interesting, treesame, firstOnly, c, h, exact);
      TallyMore(h, treesame, w, counted, c, d);
      w', counted' := SetWeight(h, exact, w, c, d), counted + 1;
    }
  }

  /** The second loop: merges are counted the expensive way. There are none in first-parent mode. */
  method WeighMerges(g: Graph, list: seq<Commit>, interesting: set<Commit>, treesame: set<Commit>, firstOnly: bool,
                     shortcut: bool, nr: nat, w0: map<Commit, int>, counted0: nat, ghost h: Graph,
                     ghost exact: map<Commit, nat>)
    returns (w: map<Commit, int>, counted: nat, found: Found)
    requires Weighed(h, exact, w0) && Tally(h, treesame, w0, counted0) && StrandsOpen(h, w0)
    requires NoneHalfway(h, w0, treesame, nr)
    requires forall c :: c in h.parents <==> c in list
    requires forall c {:trigger MergeAt(g, interesting, treesame, firstOnly, h, exact, c)} :: c in h.parents ==>
             MergeAt(g, interesting, treesame, firstOnly, h, exact, c)
    ensures Weighed(h, exact, w) && Tally(h, treesame, w, counted) && StrandsOpen(h, w)
    ensures found.Nothing? ==> MergesDone(w, list, |list|) && (shortcut ==> NoneHalfway(h, w, treesame, nr))
    ensures !found.Nothing? ==>
              && shortcut && found.Halfway? && IsHalfway(w, treesame, nr, found.commit)
              && found.commit in Merges(h)
  {
    w, counted, found := w0, counted0, Nothing;
    for i := 0 to |list|
      invariant Merging(h, exact, treesame, list, i, w, counted)
      invariant shortcut ==> NoneHalfway(h, w, treesame, nr)
    {
      var c := list[i];
      assert c in list && c in w && MergeAt(g, interesting, treesame, firstOnly, h, exact, c);
      var merge := w[c] == -2;
      ghost var was := w;
      w, counted := WeighMerge(g, list, i, interesting, treesame, firstOnly, w, counted, h, exact);
      if shortcut && merge && c !in treesame && ApproxHalfway(w[c], nr) {
        assert WeightOk(h, exact, w, c);
        found := Halfway(c);
        return;
      }
      if shortcut && merge { StillNone(h, was, treesame, nr, c, w[c]); }
    }
  }

  /** The first interesting parent whose weight is known. */
  method KnownParent(parents: seq<Commit>, interesting: set<Commit>, firstOnly: bool, w: map<Commit, int>)
    returns (q: Option<Commit>)
    requires forall p :: p in InterestingParents(parents, interesting, firstOnly) ==> p in w
    ensures q.Some? ==>
              q.value in InterestingParents(parents, interesting, firstOnly) && q.value in w && w[q.value] >= 0
    ensures q.None? ==> forall p :: p in InterestingParents(parents, interesting, firstOnly) ==> p in w && w[p] < 0
  {
    var i := 0;
    while i < |parents|
      invariant i <= |parents| && (firstOnly ==> i == 0)
      invariant forall p :: p in parents[..i] && p in interesting ==> p in w && w[p] < 0
      decreases |parents| - i
    {
      assert parents[..i + 1] == parents[..i] + [parents[i]];
      if parents[i] in interesting {
        assert parents[i] in InterestingParents(parents, interesting, firstOnly);
        if w[parents[i]] >= 0 {
          return Some(parents[i]);
        }
      }
      if firstOnly {
        return None;
      }
      i := i + 1;
    }
    assert parents[..|parents|] == parents;
    return None;
  }

  /** Known weights stay, and unknown ones stay or become known. */
  ghost predicate Grows(w: map<Commit, int>, w': map<Commit, int>) {
    w'.Keys == w.Keys && forall c :: c in w ==> w'[c] == w[c] || (w[c] < 0 && w'[c] >= 0)
  }

  /** A strand whose weight can be filled in. */
  ghost predicate Fillable(h: Graph, w: map<Commit, int>, c: Commit) {
    c in w && w[c] == -1 && c in h.parents && |h.parents[c]| == 1 && h.parents[c][0] in w && w[h.parents[c][0]] >= 0
  }

  ghost predicate NoMerges(w: map<Commit, int>) {
    forall c :: c in w ==> w[c] != -2
  }

  /** One commit of the third loop. */
  method FillOne(g: Graph, interesting: set<Commit>, treesame: set<Commit>, firstOnly: bool, w: map<Commit, int>,
                 counted: nat, c: Commit, ghost h: Graph, ghost exact: map<Commit, nat>)
    returns (w': map<Commit, int>, counted': nat)
    requires Weighed(h, exact, w) && NoMerges(w) && Tally(h, treesame, w, counted)
    requires RuleAt(h, treesame, exact, c) && c in w && w[c] < 0
    requires c in g.parents && h.parents[c] == InterestingParents(g.parents[c], interesting, firstOnly)
    ensures Weighed(h, exact, w') && NoMerges(w') && Tally(h, treesame, w', counted') && Grows(w, w')
    ensures (Fillable(h, w, c) ==> w'[c] >= 0) && w' == w[c := w'[c]]
  {
    assert WeightOk(h, exact, w, c);
    var q := KnownParent(g.parents[c], interesting, firstOnly, w);
    w', counted' := w, counted;
    if q.Some? {
      assert q.value == h.parents[c][0];
      assert WeightOk(h, exact, w, q.value);
      var v := w[q.value] + if c in treesame then 0 else 1;
      TallyMore(h, treesame, w, counted, c, v);
      w', counted' := SetWeight(h, exact, w, c, v), counted + if c in treesame then 0 else 1;
    }
  }

  ghost predicate Filled(h: Graph, w0: map<Commit, int>, w: map<Commit, int>, list: seq<Commit>, i: nat) {
    i <= |list| && forall k :: 0 <= k < i && Fillable(h, w0, list[k]) ==> list[k] in w && w[list[k]] >= 0
  }

  lemma {:induction false} FilledMore(h: Graph, w0: map<Commit, int>, w: map<Commit, int>, w': map<Commit, int>,
                                      list: seq<Commit>, i: nat)
    requires Filled(h, w0, w, list, i) && i < |list| && Grows(w, w') && Grows(w0, w) && list[i] in w
    requires w[list[i]] < 0 && Fillable(h, w, list[i]) ==> w'[list[i]] >= 0
    ensures Filled(h, w0, w', list, i + 1)
  {
    var c := list[i];
    if Fillable(h, w0, c) {
      assert w[h.parents[c][0]] == w0[h.parents[c][0]];
    }
  }

  lemma {:induction false} GrowsTrans(a: map<Commit, int>, b: map<Commit, int>, c: map<Commit, int>)
    requires Grows(a, b) && Grows(b, c)
    ensures Grows(a, c)
  {
  }

  /** Parents come before their children. */
  ghost predicate ParentsFirst(h: Graph, list: seq<Commit>) {
    forall i, p :: 0 <= i < |list| && list[i] in h.parents && p in h.parents[list[i]] ==> p in list[..i]
  }

  ghost predicate KnownUpTo(w: map<Commit, int>, list: seq<Commit>, i: nat) {
    i <= |list| && forall c :: c in list[..i] ==> c in w && w[c] >= 0
  }

  /** If parents come first, a pass misses nothing. */
  lemma {:induction false} KnownNext(h: Graph, exact: map<Commit, nat>, list: seq<Commit>, i: nat,
                                     w: map<Commit, int>, w': map<Commit, int>)
    requires ParentsFirst(h, list) && i < |list| && KnownUpTo(w, list, i) && Grows(w, w')
    requires Weighed(h, exact, w) && NoMerges(w) && list[i] in w
    requires w[list[i]] >= 0 || Fillable(h, w, list[i]) ==> w'[list[i]] >= 0
    ensures KnownUpTo(w', list, i + 1)
  {
    var c := list[i];
    assert list[..i + 1] == list[..i] + [c];
    if w[c] < 0 {
      assert WeightOk(h, exact, w, c);
      assert h.parents[c][0] in h.parents[c];
      assert Fillable(h, w, c);
    }
  }

  /** What holds after `i` commits of a pass. */
  ghost predicate Passing(h: Graph, exact: map<Commit, nat>, treesame: set<Commit>, w0: map<Commit, int>,
                          w: map<Commit, int>, counted: nat, list: seq<Commit>, i: nat) {
    Weighed(h, exact, w) && NoMerges(w) && Tally(h, treesame, w, counted) && Grows(w0, w) && Filled(h, w0, w, list, i)
  }

  /** The list is the graph's. */
  ghost predicate Same(g: Graph, list: seq<Commit>, interesting: set<Commit>, firstOnly: bool, h: Graph) {
    && (forall c :: c in h.parents <==> c in list)
    && (forall c :: c in list ==>
       c in g.parents && h.parents[c] == InterestingParents(g.parents[c], interesting, firstOnly))
  }

  /** One commit of a pass. */
  method PassStep(g: Graph, list: seq<Commit>, interesting: set<Commit>, treesame: set<Commit>, firstOnly: bool,
                  w: map<Commit, int>, counted: nat, i: nat, ghost w0: map<Commit, int>, ghost h: Graph,
                  ghost exact: map<Commit, nat>)
    returns (w': map<Commit, int>, counted': nat)
    requires i < |list| && Passing(h, exact, treesame, w0, w, counted, list, i)
    requires Rules(h, treesame, exact) && Same(g, list, interesting, firstOnly, h)
    ensures Passing(h, exact, treesame, w0, w', counted', list, i + 1)
    ensures list[i] in w && w' == w[list[i] := w'[list[i]]] && (w[list[i]] >= 0 ==> w' == w)
    ensures ParentsFirst(h, list) && KnownUpTo(w, list, i) ==> KnownUpTo(w', list, i + 1)
  {
    var c := list[i];
    assert c in list;
    w', counted' := w, counted;
    if w[c] < 0 {
      assert RuleAt(h, treesame, exact, c);
      w', counted' := FillOne(g, interesting, treesame, firstOnly, w, counted, c, h, exact);
    }
    PassKeeps(h, exact, list, i, w0, w, w');
  }

  lemma {:induction false} PassKeeps(h: Graph, exact: map<Commit, nat>, list: seq<Commit>, i: nat,
                                     w0: map<Commit, int>, w: map<Commit, int>, w': map<Commit, int>)
    requires i < |list| && list[i] in w && Grows(w0, w) && Grows(w, w') && Filled(h, w0, w, list, i)
    requires Weighed(h, exact, w) && NoMerges(w)
    requires w[list[i]] < 0 && Fillable(h, w, list[i]) ==> w'[list[i]] >= 0
    ensures Grows(w0, w') && Filled(h, w0, w', list, i + 1)
    ensures ParentsFirst(h, list) && KnownUpTo(w, list, i) ==> KnownUpTo(w', list, i + 1)
  {
    GrowsTrans(w0, w, w');
    FilledMore(h, w0, w, w', list, i);
    if ParentsFirst(h, list) && KnownUpTo(w, list, i) { KnownNext(h, exact, list, i, w, w'); }
  }

  /** One pass over the list in the third loop. */
  method FillPass(g: Graph, list: seq<Commit>, interesting: set<Commit>, treesame: set<Commit>, firstOnly: bool,
                  shortcut: bool, nr: nat, w0: map<Commit, int>, counted0: nat, ghost h: Graph,
                  ghost exact: map<Commit, nat>)
    returns (w: map<Commit, int>, counted: nat, found: Found)
    requires Weighed(h, exact, w0) && NoMerges(w0) && Tally(h, treesame, w0, counted0)
    requires Rules(h, treesame, exact) && Same(g, list, interesting, firstOnly, h)
    requires shortcut ==> NoneHalfway(h, w0, treesame, nr)
    ensures found.Nothing? && shortcut ==> NoneHalfway(h, w, treesame, nr)
    ensures found.Nothing? ==> Passing(h, exact, treesame, w0, w, counted, list, |list|)
    ensures found.Nothing? && ParentsFirst(h, list) ==> KnownUpTo(w, list, |list|)
    ensures Weighed(h, exact, w)
    ensures !found.Nothing? ==> shortcut && found.Halfway? && IsHalfway(w, treesame, nr, found.commit)
  {
    w, counted, found := w0, counted0, Nothing;
    for i := 0 to |list|
      invariant Passing(h, exact, treesame, w0, w, counted, list, i)
      invariant ParentsFirst(h, list) ==> KnownUpTo(w, list, i)
      invariant shortcut ==> NoneHalfway(h, w, treesame, nr)
    {
      var c := list[i];
      assert c in list;
      var known := w[c] >= 0;
      ghost var was := w;
      w, counted := PassStep(g, list, interesting, treesame, firstOnly, w, counted, i, w0, h, exact);
      if shortcut && !known && w[c] >= 0 && c !in treesame && ApproxHalfway(w[c], nr) {
        found := Halfway(c);
        return;
      }
      if shortcut && !known { StillNone(h, was, treesame, nr, c, w[c]); }
    }
  }

  ghost function Unknown(w: map<Commit, int>): set<Commit> { set c | c in w && w[c] < 0 }

  /** Below an unknown commit there is one that can be filled in. */
  lemma {:induction false} SomeFillable(h: Graph, exact: map<Commit, nat>, w: map<Commit, int>, c: Commit)
    returns (r: Commit)
    requires Valid(h) && Weighed(h, exact, w) && NoMerges(w) && c in w && w[c] < 0
    ensures Fillable(h, w, r)
    decreases |Below(h, c)|
  {
    assert WeightOk(h, exact, w, c);
    var q := h.parents[c][0];
    assert q in h.parents[c];
    if w[q] >= 0 {
      r := c;
    } else {
      BelowStrand(h, c, q);
      r := SomeFillable(h, exact, w, q);
    }
  }

  lemma {:induction false} PassProgress(h: Graph, exact: map<Commit, nat>, treesame: set<Commit>, list: seq<Commit>,
                                        w0: map<Commit, int>, w: map<Commit, int>, counted: nat, nr: nat)
    requires Valid(h) && Weighed(h, exact, w0) && NoMerges(w0)
    requires Tally(h, treesame, w0, counted) && (forall c :: c in h.parents <==> c in list)
    requires nr == |Elements(list) - treesame| && counted < nr && Grows(w0, w) && Filled(h, w0, w, list, |list|)
    ensures |Unknown(w)| < |Unknown(w0)|
  {
    var c := SomeUnknown(treesame, list, w0, counted, nr);
    var r := SomeFillable(h, exact, w0, c);
    var k :| 0 <= k < |list| && list[k] == r;
    assert Unknown(w) <= Unknown(w0) && r in Unknown(w0) && r !in Unknown(w);
    StrictSubset(Unknown(w), Unknown(w0), r);
  }

  lemma {:induction false} SomeUnknown(treesame: set<Commit>, list: seq<Commit>, w: map<Commit, int>, counted: nat,
                                       nr: nat)
    returns (c: Commit)
    requires (forall d :: d in w <==> d in list) && nr == |Elements(list) - treesame|
    requires |Known(w, treesame)| <= counted < nr
    ensures c in w && w[c] < 0
  {
    assert !(Elements(list) - treesame <= Known(w, treesame)) by {
      if Elements(list) - treesame <= Known(w, treesame) { Cardinality(Elements(list) - treesame, Known(w, treesame)); }
    }
    c :| c in Elements(list) - treesame && c !in Known(w, treesame);
  }

  /** How far a weight is from both ends. */
  function Distance(weight: int, nr: int): int { if nr - weight < weight then nr - weight else weight }

  /** The distance to the nearer end: commits reached, or commits not reached. */
  lemma {:induction false} DistanceMeans(weight: int, nr: int)
    ensures Distance(weight, nr) <= weight && Distance(weight, nr) <= nr - weight
    ensures Distance(weight, nr) == weight || Distance(weight, nr) == nr - weight
  {
  }

  /** Two and three are half-way of five, three is of six but two and four are not; of ten thousand
      exactly the weights from 4996 to 5004 are. The tolerance grows at every multiple of 1024. */
  lemma {:induction false} HalfwayExamples(weight: int)
    ensures ApproxHalfway(weight, 5) <==> 2 <= weight <= 3
    ensures ApproxHalfway(weight, 6) <==> weight == 3
    ensures ApproxHalfway(weight, 10000) <==> 4996 <= weight <= 5004
    ensures ApproxHalfway(weight, 3070) <==> weight == 1535
    ensures ApproxHalfway(weight, 3072) <==> 1535 <= weight <= 1537
  {
  }

  /** The commit farthest from both ends going by the weights; the first one if all are unknown. */
  ghost predicate Farthest(list: seq<Commit>, treesame: set<Commit>, w: map<Commit, int>, nr: nat, best: Commit) {
    && list != [] && best in list && best in w && (forall d :: d in list ==> d in w)
    && ((best !in treesame && forall d :: d in list && d !in treesame ==> Distance(w[d], nr) <= Distance(w[best], nr))
        || (best == list[0] && forall d :: d in list && d !in treesame ==> Distance(w[d], nr) < 0))
  }

  /** best_bisection: the first of the tree-changing commits farthest from both ends. */
  method BestBisection(list: seq<Commit>, treesame: set<Commit>, w: map<Commit, int>, nr: nat) returns (best: Commit)
    requires list != [] && forall c :: c in list ==> c in w
    ensures Farthest(list, treesame, w, nr, best)
  {
    best := list[0];
    var bestDistance := -1;
    for i := 0 to |list|
      invariant best in list && bestDistance >= -1
      invariant bestDistance == -1 ==> best == list[0]
      invariant bestDistance >= 0 ==> best !in treesame && bestDistance == Distance(w[best], nr)
      invariant forall k :: 0 <= k < i && list[k] !in treesame ==> Distance(w[list[k]], nr) <= bestDistance
    {
      var c := list[i];
      assert c in list;
      if c !in treesame {
        var distance := Distance(w[c], nr);
        if distance > bestDistance {
          best, bestDistance := c, distance;
        }
      }
    }
  }

  // ---- best_bisection_sorted ----

  /** compare_commit_dist: the farther from both ends first, then by object id. */
  predicate Precedes(w: map<Commit, int>, nr: int, c: Commit, d: Commit)
    requires c in w && d in w
  {
    Distance(w[c], nr) > Distance(w[d], nr) || (Distance(w[c], nr) == Distance(w[d], nr) && c.oid < d.oid)
  }

  ghost predicate InRank(w: map<Commit, int>, nr: int, cs: seq<Commit>) {
    && (forall c :: c in cs ==> c in w)
    && forall i, j {:trigger Precedes(w, nr, cs[i], cs[j])} :: 0 <= i < j < |cs| ==> Precedes(w, nr, cs[i], cs[j])
  }

  /** The tree-changing commits, each once, in rank; the first commit of the list if there are none. */
  ghost predicate Ranking(list: seq<Commit>, treesame: set<Commit>, w: map<Commit, int>, nr: nat, cs: seq<Commit>) {
    && list != [] && |cs| == (if nr == 0 then 1 else nr) && InRank(w, nr, cs)
    && if Elements(list) <= treesame then cs == [list[0]]
       else forall c :: c in cs <==> c in list && c !in treesame
  }

  /** The rank is strict, so there is only one way to sort. */
  lemma {:induction false} RankUnique(w: map<Commit, int>, nr: int, cs: seq<Commit>, ds: seq<Commit>)
    requires InRank(w, nr, cs) && InRank(w, nr, ds) && forall c :: c in cs <==> c in ds
    ensures cs == ds
    decreases |cs|
  {
    if cs == [] {
      if ds != [] { NotEmpty(cs, ds); }
    } else {
      NotEmpty(ds, cs);
      FirstSame(w, nr, cs, ds);
      forall c ensures c in cs[1..] <==> c in ds[1..] {
        RestOf(w, nr, cs, c);
        RestOf(w, nr, ds, c);
      }
      RankUnique(w, nr, cs[1..], ds[1..]);
      assert cs == [cs[0]] + cs[1..] && ds == [ds[0]] + ds[1..];
    }
  }

  lemma {:induction false} NotEmpty(cs: seq<Commit>, ds: seq<Commit>)
    requires ds != [] && forall c :: c in cs <==> c in ds
    ensures cs != []
  {
    assert ds[0] in ds;
  }

  lemma {:induction false} FirstSame(w: map<Commit, int>, nr: int, cs: seq<Commit>, ds: seq<Commit>)
    requires cs != [] && ds != [] && InRank(w, nr, cs) && InRank(w, nr, ds) && forall c :: c in cs <==> c in ds
    ensures cs[0] == ds[0]
  {
    assert cs[0] in ds && ds[0] in cs;
    var i :| 0 <= i < |ds| && ds[i] == cs[0];
    var j :| 0 <= j < |cs| && cs[j] == ds[0];
    assert i > 0 ==> Precedes(w, nr, ds[0], ds[i]);
    assert j > 0 ==> Precedes(w, nr, cs[0], cs[j]);
  }

  lemma {:induction false} RestOf(w: map<Commit, int>, nr: int, cs: seq<Commit>, c: Commit)
    requires cs != [] && InRank(w, nr, cs)
    ensures c in cs[1..] <==> c in cs && c != cs[0]
  {
    if c in cs[1..] {
      var i :| 0 <= i < |cs[1..]| && cs[1..][i] == c;
      assert Precedes(w, nr, cs[0], cs[i + 1]);
    }
    assert cs == [cs[0]] + cs[1..];
  }

  /** Insertion in front of the first commit that `c` precedes. */
  method InsertInRank(w: map<Commit, int>, nr: int, cs: seq<Commit>, c: Commit) returns (r: seq<Commit>)
    requires InRank(w, nr, cs) && c in w && c !in cs
    ensures InRank(w, nr, r) && |r| == |cs| + 1 && forall d :: d in r <==> d == c || d in cs
  {
    var k := 0;
    while k < |cs| && !Precedes(w, nr, c, cs[k])
      invariant k <= |cs| && forall i :: 0 <= i < k ==> Precedes(w, nr, cs[i], c)
    {
      assert cs[k] in cs && cs[k].oid != c.oid;
      k := k + 1;
    }
    r := cs[..k] + [c] + cs[k..];
    Inserted(w, nr, cs, c, k, r);
  }

  lemma {:induction false} Inserted(w: map<Commit, int>, nr: int, cs: seq<Commit>, c: Commit, k: nat, r: seq<Commit>)
    requires InRank(w, nr, cs) && c in w && k <= |cs| && r == cs[..k] + [c] + cs[k..]
    requires forall i :: 0 <= i < k ==> Precedes(w, nr, cs[i], c)
    requires k < |cs| ==> Precedes(w, nr, c, cs[k])
    ensures InRank(w, nr, r) && forall d :: d in r <==> d == c || d in cs
  {
    assert cs == cs[..k] + cs[k..];
    assert forall d :: d in r <==> d == c || d in cs;
    forall i, j | 0 <= i < j < |r| ensures Precedes(w, nr, r[i], r[j]) { InsertedAt(w, nr, cs, c, k, r, i, j); }
  }

  lemma {:induction false} InsertedAt(w: map<Commit, int>, nr: int, cs: seq<Commit>, c: Commit, k: nat,
                                      r: seq<Commit>, i: nat, j: nat)
    requires InRank(w, nr, cs) && c in w && k <= |cs| && r == cs[..k] + [c] + cs[k..]
    requires forall i :: 0 <= i < k ==> Precedes(w, nr, cs[i], c)
    requires k < |cs| ==> Precedes(w, nr, c, cs[k])
    requires i < j < |r| && r[i] in w && r[j] in w
    ensures Precedes(w, nr, r[i], r[j])
  {
    if i == k {
      assert r[j] == cs[j - 1] && (k < j - 1 ==> Precedes(w, nr, cs[k], cs[j - 1]));
    } else if j == k {
      assert r[i] == cs[i];
    } else {
      var i', j' := if i < k then i else i - 1, if j < k then j else j - 1;
      assert r[i] == cs[i'] && r[j] == cs[j'] && Precedes(w, nr, cs[i'], cs[j']);
    }
  }

  /** best_bisection_sorted: the tree-changing commits, which fill the array exactly, are sorted by
      distance and object id and put into the front of the list; the rest is cut off. */
  method BestBisectionSorted(list: seq<Commit>, treesame: set<Commit>, w: map<Commit, int>, nr: nat)
    returns (r: seq<Commit>)
    requires list != [] && Distinct(list) && nr == |Elements(list) - treesame| && forall c :: c in list ==> c in w
    ensures Ranking(list, treesame, w, nr, r)
  {
    var ranked: seq<Commit> := [];
    for i := 0 to |list|
      invariant RankedTo(list, treesame, w, nr, i, ranked)
    {
      assert list[i] in list;
      ranked := RankNext(list, treesame, w, nr, i, ranked);
    }
    assert list[..|list|] == list;
    r := if ranked == [] then [list[0]] else ranked;
    RankedAll(list, treesame, w, nr, ranked, r);
  }

  /** The tree-changing commits among the first `i`, in rank. */
  ghost predicate RankedTo(list: seq<Commit>, treesame: set<Commit>, w: map<Commit, int>, nr: nat, i: nat,
                           ranked: seq<Commit>) {
    && i <= |list| && InRank(w, nr, ranked) && |ranked| == |Elements(list[..i]) - treesame|
    && forall c :: c in ranked <==> c in list[..i] && c !in treesame
  }

  method RankNext(list: seq<Commit>, treesame: set<Commit>, w: map<Commit, int>, nr: nat, i: nat, ranked: seq<Commit>)
    returns (r: seq<Commit>)
    requires Distinct(list) && i < |list| && list[i] in w && RankedTo(list, treesame, w, nr, i, ranked)
    ensures RankedTo(list, treesame, w, nr, i + 1, r)
  {
    OneMore(list, i, treesame);
    r := ranked;
    if list[i] !in treesame {
      r := InsertInRank(w, nr, ranked, list[i]);
    }
  }

  lemma {:induction false} OneMore(list: seq<Commit>, i: nat, treesame: set<Commit>)
    requires Distinct(list) && i < |list|
    ensures list[i] !in list[..i] && forall c :: c in list[..i + 1] <==> c == list[i] || c in list[..i]
    ensures |Elements(list[..i + 1]) - treesame| ==
            |Elements(list[..i]) - treesame| + if list[i] in treesame then 0 else 1
  {
    var c := list[i];
    assert list[..i + 1] == list[..i] + [c];
    assert Elements(list[..i + 1]) - treesame == (Elements(list[..i]) - treesame) + ({c} - treesame);
    assert {c} - treesame == if c in treesame then {} else {c};
  }

  lemma {:induction false} RankedAll(list: seq<Commit>, treesame: set<Commit>, w: map<Commit, int>, nr: nat,
                                     ranked: seq<Commit>, r: seq<Commit>)
    requires list != [] && |ranked| == nr && InRank(w, nr, ranked) && forall c :: c in list ==> c in w
    requires forall c :: c in ranked <==> c in list && c !in treesame
    requires r == if ranked == [] then [list[0]] else ranked
    ensures Ranking(list, treesame, w, nr, r)
  {
    if ranked == [] {
      forall c | c in list ensures c in treesame { assert c !in ranked; }
      assert list[0] in list;
    } else {
      assert ranked[0] in ranked;
    }
  }

  /** The first of the ranking is one best_bisection could give. */
  lemma {:induction false} FirstIsFarthest(list: seq<Commit>, treesame: set<Commit>, w: map<Commit, int>, nr: nat,
                                           cs: seq<Commit>)
    requires Ranking(list, treesame, w, nr, cs) && forall c :: c in list ==> c in w
    ensures cs != [] && Farthest(list, treesame, w, nr, cs[0])
  {
    if !(Elements(list) <= treesame) {
      assert cs[0] in cs;
      forall d | d in list && d !in treesame ensures Distance(w[d], nr) <= Distance(w[cs[0]], nr) {
        assert d in cs;
        var i :| 0 <= i < |cs| && cs[i] == d;
        if i > 0 { assert Precedes(w, nr, cs[0], cs[i]); }
      }
    } else {
      forall d | d in list ensures d in treesame { assert d in Elements(list); }
      assert list[0] in list;
    }
  }

  /** The list and the graph of its own that the weights are about. */
  ghost predicate Listing(g: Graph, list: seq<Commit>, interesting: set<Commit>, firstOnly: bool, h: Graph) {
    Valid(h) && Same(g, list, interesting, firstOnly, h)
  }

  /** A pass that fills in at least one weight. */
  method NextPass(g: Graph, list: seq<Commit>, interesting: set<Commit>, treesame: set<Commit>, firstOnly: bool,
                  shortcut: bool, nr: nat, w0: map<Commit, int>, counted0: nat, ghost h: Graph,
                  ghost exact: map<Commit, nat>)
    returns (w: map<Commit, int>, counted: nat, found: Found)
    requires Listing(g, list, interesting, firstOnly, h) && Weighed(h, exact, w0)
    requires NoMerges(w0) && Tally(h, treesame, w0, counted0) && Rules(h, treesame, exact)
    requires nr == |Elements(list) - treesame| && counted0 < nr
    requires shortcut ==> NoneHalfway(h, w0, treesame, nr)
    ensures Weighed(h, exact, w) && (found.Nothing? && shortcut ==> NoneHalfway(h, w, treesame, nr))
    ensures found.Nothing? ==> NoMerges(w) && Tally(h, treesame, w, counted) && |Unknown(w)| < |Unknown(w0)|
    ensures found.Nothing? && ParentsFirst(h, list) ==> KnownUpTo(w, list, |list|)
    ensures !found.Nothing? ==> shortcut && found.Halfway? && IsHalfway(w, treesame, nr, found.commit)
  {
    w, counted, found := FillPass(g, list, interesting, treesame, firstOnly, shortcut, nr, w0, counted0, h, exact);
    if found.Nothing? {
      PassProgress(h, exact, treesame, list, w0, w, counted0, nr);
    }
  }

  /** The third loop: fill in the strands. It ends, because a pass fills in at least one. */
  method FillStrands(g: Graph, list: seq<Commit>, interesting: set<Commit>, treesame: set<Commit>, firstOnly: bool,
                     shortcut: bool, nr: nat, w0: map<Commit, int>, counted0: nat, ghost h: Graph,
                     ghost exact: map<Commit, nat>)
    returns (w: map<Commit, int>, counted: nat, found: Found)
    requires Listing(g, list, interesting, firstOnly, h) && Weighed(h, exact, w0)
    requires NoMerges(w0) && Tally(h, treesame, w0, counted0) && Rules(h, treesame, exact)
    requires nr == |Elements(list) - treesame| && (shortcut ==> NoneHalfway(h, w0, treesame, nr))
    ensures Weighed(h, exact, w) && (found.Nothing? && shortcut ==> NoneHalfway(h, w, treesame, nr))
    ensures found.Nothing? ==> NoMerges(w) && Tally(h, treesame, w, counted) && counted >= nr
    ensures found.Nothing? ==> if counted0 < nr then ParentsFirst(h, list) ==> KnownUpTo(w, list, |list|) else w == w0
    ensures !found.Nothing? ==>
              shortcut && found.Halfway? && IsHalfway(w, treesame, nr, found.commit) && counted0 < nr
  {
    w, counted, found := w0, counted0, Nothing;
    while counted < nr
      invariant Weighed(h, exact, w) && NoMerges(w) && Tally(h, treesame, w, counted) && found == Nothing
      invariant shortcut ==> NoneHalfway(h, w, treesame, nr)
      invariant (w == w0 && counted == counted0)
                || (counted0 < nr && (ParentsFirst(h, list) ==> KnownUpTo(w, list, |list|)))
      decreases |Unknown(w)|
    {
      w, counted, found := NextPass(g, list, interesting, treesame, firstOnly, shortcut, nr, w, counted, h, exact);
      if !found.Nothing? {
        return;
      }
    }
  }

  /** All tree-changing commits have a weight. */
  ghost predicate AllWeighed(list: seq<Commit>, treesame: set<Commit>, w: map<Commit, int>) {
    forall c :: c in list && c !in treesame ==> c in w && w[c] >= 0
  }

  lemma {:induction false} AllKnown(list: seq<Commit>, treesame: set<Commit>, w: map<Commit, int>, counted: nat,
                                    nr: nat, h: Graph)
    requires (forall d :: d in w <==> d in list) && nr == |Elements(list) - treesame|
    requires counted >= nr && Tally(h, treesame, w, counted)
    requires NoTreesameMerges(h, treesame)
    ensures AllWeighed(list, treesame, w)
  {
    assert DoneMerges(h, treesame, w) == {};
    forall c | c in list && c !in treesame ensures w[c] >= 0 {
      if c !in Known(w, treesame) { StrictSubset(Known(w, treesame), Elements(list) - treesame, c); }
    }
  }

  ghost function Roots(h: Graph): set<Commit> { set c | c in h.parents && h.parents[c] == [] }
  ghost function Merges(h: Graph): set<Commit> { set c | c in h.parents && |h.parents[c]| >= 2 }

  /** The tree-changing roots and the merges, which are counted first, leave the third loop work to do. */
  ghost predicate Enough(h: Graph, treesame: set<Commit>, nr: nat) {
    |Roots(h) - treesame| + |Merges(h)| < nr
  }

  /** Every tree-changing commit gets its weight. */
  ghost predicate StrandsFilled(h: Graph, treesame: set<Commit>, nr: nat) {
    Enough(h, treesame, nr) || forall c :: c in h.parents && c !in treesame ==> |h.parents[c]| != 1
  }

  /** What is counted before the third loop. */
  lemma {:induction false} CountedFirst(h: Graph, exact: map<Commit, nat>, treesame: set<Commit>, w: map<Commit, int>,
                                        counted: nat)
    requires Weighed(h, exact, w) && NoMerges(w) && StrandsOpen(h, w) && Tally(h, treesame, w, counted)
    ensures counted == |Roots(h) - treesame| + |Merges(h)|
  {
    KnownFirst(h, exact, treesame, w);
    Addition(Roots(h) - treesame, Merges(h), treesame);
  }

  lemma {:induction false} KnownFirst(h: Graph, exact: map<Commit, nat>, treesame: set<Commit>, w: map<Commit, int>)
    requires Weighed(h, exact, w) && NoMerges(w) && StrandsOpen(h, w)
    ensures Known(w, treesame) == (Roots(h) - treesame) + (Merges(h) - treesame)
    ensures DoneMerges(h, treesame, w) == Merges(h) * treesame
    ensures Roots(h) - treesame !! Merges(h)
  {
    forall c | c in h.parents ensures c in w && (w[c] >= 0 <==> |h.parents[c]| != 1) {
      assert WeightOk(h, exact, w, c);
    }
  }

  lemma {:induction false} Addition(roots: set<Commit>, merges: set<Commit>, treesame: set<Commit>)
    requires roots !! merges
    ensures |roots + (merges - treesame)| + |merges * treesame| == |roots| + |merges|
  {
    assert merges == (merges - treesame) + merges * treesame;
  }

  /** What the loops leave behind if they are not cut short. */
  ghost predicate Outcome(list: seq<Commit>, treesame: set<Commit>, h: Graph, nr: nat, w: map<Commit, int>) {
    && (forall c :: c in list ==> c in w && c in h.parents && (|h.parents[c]| != 1 ==> w[c] >= 0))
    && (NoTreesameMerges(h, treesame) ==> AllWeighed(list, treesame, w))
    && (if Enough(h, treesame, nr) then ParentsFirst(h, list) ==> AllWeighed(list, treesame, w) else StrandsOpen(h, w))
  }

  lemma {:induction false} OutcomeOf(list: seq<Commit>, treesame: set<Commit>, h: Graph, exact: map<Commit, nat>,
                                     nr: nat, w0: map<Commit, int>, counted0: nat, w: map<Commit, int>, counted: nat)
    requires (forall c :: c in h.parents <==> c in list) && nr == |Elements(list) - treesame|
    requires Weighed(h, exact, w0) && NoMerges(w0) && StrandsOpen(h, w0) && Tally(h, treesame, w0, counted0)
    requires Weighed(h, exact, w) && NoMerges(w) && Tally(h, treesame, w, counted) && counted >= nr
    requires if counted0 < nr then ParentsFirst(h, list) ==> KnownUpTo(w, list, |list|) else w == w0
    ensures Outcome(list, treesame, h, nr, w)
  {
    CountedFirst(h, exact, treesame, w0, counted0);
    RestWeighed(list, h, exact, w);
    if NoTreesameMerges(h, treesame) { AllKnown(list, treesame, w, counted, nr, h); }
    if counted0 < nr && ParentsFirst(h, list) { UpToEnd(list, treesame, w); }
  }

  lemma {:induction false} RestWeighed(list: seq<Commit>, h: Graph, exact: map<Commit, nat>, w: map<Commit, int>)
    requires (forall c :: c in h.parents <==> c in list) && Weighed(h, exact, w) && NoMerges(w)
    ensures forall c :: c in list ==> c in w && c in h.parents && (|h.parents[c]| != 1 ==> w[c] >= 0)
  {
    forall c | c in list ensures c in w && c in h.parents && (|h.parents[c]| != 1 ==> w[c] >= 0) {
      assert WeightOk(h, exact, w, c);
    }
  }

  lemma {:induction false} UpToEnd(list: seq<Commit>, treesame: set<Commit>, w: map<Commit, int>)
    requires KnownUpTo(w, list, |list|)
    ensures AllWeighed(list, treesame, w)
  {
    assert list[..|list|] == list;
  }

  /** If parents come first, the weights are all there exactly if the count leaves room for the strands. */
  lemma {:induction false} WeighedExactly(list: seq<Commit>, treesame: set<Commit>, h: Graph, nr: nat,
                                          w: map<Commit, int>)
    requires Outcome(list, treesame, h, nr, w) && ParentsFirst(h, list) && forall c :: c in h.parents <==> c in list
    ensures AllWeighed(list, treesame, w) <==> StrandsFilled(h, treesame, nr)
  {
  }

  /** What the loops need to know of the list. */
  ghost predicate Ready(g: Graph, list: seq<Commit>, interesting: set<Commit>, treesame: set<Commit>, firstOnly: bool,
                        h: Graph, exact: map<Commit, nat>) {
    && Listing(g, list, interesting, firstOnly, h) && Rules(h, treesame, exact)
    && forall c {:trigger MergeAt(g, interesting, treesame, firstOnly, h, exact, c)} :: c in h.parents ==>
       MergeAt(g, interesting, treesame, firstOnly, h, exact, c)
  }

  lemma {:induction false} Prepare(g: Graph, list: seq<Commit>, interesting: set<Commit>, treesame: set<Commit>,
                                   firstOnly: bool, h: Graph)
    returns (exact: map<Commit, nat>)
    requires Valid(g) && Closed(g, list, interesting) && h == Listed(g, list, interesting, firstOnly)
    ensures Ready(g, list, interesting, treesame, firstOnly, h, exact)
  {
    ListedValid(g, list, interesting, firstOnly);
    exact := RulesHold(h, treesame);
    forall c | c in h.parents ensures MergeAt(g, interesting, treesame, firstOnly, h, exact, c) {
      if !firstOnly { SettingOf(g, list, interesting, c); }
    }
  }

  /** What do_find_bisection promises: a commit halfway, the farthest going by the weights, or all in
      the order of the weights. A commit halfway is a merge unless the third loop had work to do, and is
      returned as soon as its weight is known. */
  ghost predicate Bisects(list: seq<Commit>, treesame: set<Commit>, shortcut: bool, nr: nat, h: Graph,
                          w: map<Commit, int>, found: Found) {
    match found
    case Nothing => list == []
    case Halfway(c) => shortcut && IsHalfway(w, treesame, nr, c) && (c in Merges(h) || Enough(h, treesame, nr))
    case Best(c) =>
      && shortcut && Farthest(list, treesame, w, nr, c) && Outcome(list, treesame, h, nr, w)
      && NoneHalfway(h, w, treesame, nr)
    case Ranked(cs) => !shortcut && Ranking(list, treesame, w, nr, cs) && Outcome(list, treesame, h, nr, w)
  }

  lemma {:induction false} ExactInRange(list: seq<Commit>, treesame: set<Commit>, nr: nat, h: Graph, c: Commit)
    requires (forall d :: d in h.parents <==> d in list) && nr == |Elements(list) - treesame|
    ensures Exact(h, treesame, c) <= nr
  {
    Cardinality(Below(h, c) - treesame, Elements(list) - treesame);
  }

  /** The three loops, and the choice. */
  method Search(g: Graph, list: seq<Commit>, interesting: set<Commit>, treesame: set<Commit>, firstOnly: bool,
                shortcut: bool, nr: nat, ghost h: Graph, ghost exact: map<Commit, nat>)
    returns (w: map<Commit, int>, found: Found)
    requires Distinct(list) && Ready(g, list, interesting, treesame, firstOnly, h, exact)
    requires nr == |Elements(list) - treesame|
    ensures Weighed(h, exact, w) && Bisects(list, treesame, shortcut, nr, h, w, found)
  {
    var counted;
    w, counted := InitWeights(g, list, interesting, treesame, firstOnly, h, exact);
    NoneAtFirst(h, w, treesame, nr);
    w, counted, found := WeighMerges(g, list, interesting, treesame, firstOnly, shortcut, nr, w, counted, h, exact);
    if found.Nothing? {
      MergesGone(w, list, h, exact);
      ghost var w0, counted0 := w, counted;
      w, counted, found := FillStrands(g, list, interesting, treesame, firstOnly, shortcut, nr, w, counted, h, exact);
      CountedFirst(h, exact, treesame, w0, counted0);
      if found.Nothing? && list != [] {
        OutcomeOf(list, treesame, h, exact, nr, w0, counted0, w, counted);
        found := Choose(list, treesame, shortcut, w, nr);
      }
    }
  }

  /** The choice at the end. */
  method Choose(list: seq<Commit>, treesame: set<Commit>, shortcut: bool, w: map<Commit, int>, nr: nat)
    returns (found: Found)
    requires list != [] && Distinct(list) && nr == |Elements(list) - treesame| && forall c :: c in list ==> c in w
    ensures if shortcut then found.Best? && Farthest(list, treesame, w, nr, found.commit)
            else found.Ranked? && Ranking(list, treesame, w, nr, found.commits)
  {
    if shortcut {
      var best := BestBisection(list, treesame, w, nr);
      found := Best(best);
    } else {
      var ranked := BestBisectionSorted(list, treesame, w, nr);
      found := Ranked(ranked);
    }
  }

  lemma {:induction false} MergesGone(w: map<Commit, int>, list: seq<Commit>, h: Graph, exact: map<Commit, nat>)
    requires Weighed(h, exact, w) && (forall c :: c in h.parents <==> c in list) && MergesDone(w, list, |list|)
    ensures NoMerges(w)
  {
    forall c | c in w ensures w[c] != -2 {
      assert c in list;
      var k :| 0 <= k < |list| && list[k] == c;
    }
  }

  /** No tree-changing commit is farther from both ends. */
  ghost predicate Optimal(list: seq<Commit>, treesame: set<Commit>, h: Graph, nr: nat, best: Commit) {
    forall d :: d in list && d !in treesame ==>
      best !in treesame && Distance(Exact(h, treesame, d), nr) <= Distance(Exact(h, treesame, best), nr)
  }

  lemma {:induction false} BestIsBest(list: seq<Commit>, treesame: set<Commit>, nr: nat, h: Graph,
                                      w: map<Commit, int>, best: Commit)
    requires Farthest(list, treesame, w, nr, best)
    requires forall c :: c in list && c !in treesame ==> c in w && 0 <= w[c] <= nr && w[c] == Exact(h, treesame, c)
    ensures Optimal(list, treesame, h, nr, best)
  {
    forall d | d in list && d !in treesame
      ensures best !in treesame && Distance(Exact(h, treesame, d), nr) <= Distance(Exact(h, treesame, best), nr)
    {
      assert Distance(w[d], nr) >= 0;
    }
  }

  /** The commit `c` is as far from both ends as any, or short of that by less than nr / 2048. */
  ghost predicate NearlyOptimal(list: seq<Commit>, treesame: set<Commit>, h: Graph, nr: nat, c: Commit) {
    && c in list && c !in treesame
    && forall d :: d in list && d !in treesame ==>
         || Distance(Exact(h, treesame, d), nr) <= Distance(Exact(h, treesame, c), nr)
         || 2 * (Distance(Exact(h, treesame, d), nr) - Distance(Exact(h, treesame, c), nr)) < nr / 1024
  }

  lemma {:induction false} HalfwayNear(weight: int, other: int, nr: nat)
    requires ApproxHalfway(weight, nr)
    ensures Distance(other, nr) <= Distance(weight, nr) || 2 * (Distance(other, nr) - Distance(weight, nr)) < nr / 1024
  {
  }

  /** Going by the exact counts the commits are in the order they are returned in. */
  ghost predicate RankedExactly(treesame: set<Commit>, h: Graph, nr: nat, cs: seq<Commit>) {
    forall i, j :: 0 <= i < j < |cs| ==>
      Distance(Exact(h, treesame, cs[j]), nr) <= Distance(Exact(h, treesame, cs[i]), nr)
  }

  /** do_find_bisection: every weight that is not negative is the number of tree-changing commits
      reached. A commit found halfway is nearly the best there is. Otherwise the commit found is the
      farthest going by the weights, or all are ranked by them, and then by the exact counts if all
      tree-changing commits have a weight. They do without tree-same merges; with them, and parents
      first in the list, exactly if the roots and merges counted leave room for the strands. */
  method DoFindBisection(g: Graph, list: seq<Commit>, interesting: set<Commit>, treesame: set<Commit>,
                         firstOnly: bool, shortcut: bool, nr: nat)
    returns (w: map<Commit, int>, found: Found)
    requires Valid(g) && Distinct(list) && Closed(g, list, interesting) && nr == |Elements(list) - treesame|
    ensures forall c :: c in list ==>
            c in w && (w[c] >= 0 ==> w[c] == Exact(Listed(g, list, interesting, firstOnly), treesame, c))
    ensures found.Nothing? <==> list == []
    ensures Bisects(list, treesame, shortcut, nr, Listed(g, list, interesting, firstOnly), w, found)
    ensures found.Halfway? ==>
              NearlyOptimal(list, treesame, Listed(g, list, interesting, firstOnly), nr, found.commit)
    ensures found.Best? && AllWeighed(list, treesame, w) ==>
              Optimal(list, treesame, Listed(g, list, interesting, firstOnly), nr, found.commit)
    ensures found.Ranked? && AllWeighed(list, treesame, w) ==>
              RankedExactly(treesame, Listed(g, list, interesting, firstOnly), nr, found.commits)
    ensures (found.Best? || found.Ranked?) && ParentsFirst(Listed(g, list, interesting, firstOnly), list) ==>
              (AllWeighed(list, treesame, w) <==> StrandsFilled(Listed(g, list, interesting, firstOnly), treesame, nr))
  {
    ghost var h := Listed(g, list, interesting, firstOnly);
    ghost var exact := Prepare(g, list, interesting, treesame, firstOnly, h);
    w, found := Search(g, list, interesting, treesame, firstOnly, shortcut, nr, h, exact);
    ExactWeights(g, list, interesting, treesame, firstOnly, h, exact, w);
    Judged(list, treesame, shortcut, nr, h, w, found);
  }

  /** What the promise means in terms of the exact counts. */
  lemma {:induction false} Judged(list: seq<Commit>, treesame: set<Commit>, shortcut: bool, nr: nat, h: Graph,
                                  w: map<Commit, int>, found: Found)
    requires Bisects(list, treesame, shortcut, nr, h, w, found) && (forall c :: c in h.parents <==> c in list)
    requires nr == |Elements(list) - treesame|
    requires forall c :: c in w <==> c in list
    requires forall c :: c in list ==> c in w && (w[c] >= 0 ==> w[c] == Exact(h, treesame, c))
    ensures found.Halfway? ==> NearlyOptimal(list, treesame, h, nr, found.commit)
    ensures found.Best? && AllWeighed(list, treesame, w) ==> Optimal(list, treesame, h, nr, found.commit)
    ensures found.Ranked? && AllWeighed(list, treesame, w) ==> RankedExactly(treesame, h, nr, found.commits)
    ensures (found.Best? || found.Ranked?) && ParentsFirst(h, list) ==>
              (AllWeighed(list, treesame, w) <==> StrandsFilled(h, treesame, nr))
  {
    match found
    case Nothing =>
    case Halfway(c) =>
      forall d | d in list && d !in treesame
        ensures Distance(Exact(h, treesame, d), nr) <= Distance(Exact(h, treesame, c), nr)
             || 2 * (Distance(Exact(h, treesame, d), nr) - Distance(Exact(h, treesame, c), nr)) < nr / 1024
      {
        HalfwayNear(w[c], Exact(h, treesame, d), nr);
      }
    case Best(c) =>
      if AllWeighed(list, treesame, w) {
        forall d | d in list && d !in treesame ensures w[d] <= nr { ExactInRange(list, treesame, nr, h, d); }
        BestIsBest(list, treesame, nr, h, w, c);
      }
      if ParentsFirst(h, list) { WeighedExactly(list, treesame, h, nr, w); }
    case Ranked(cs) =>
      if AllWeighed(list, treesame, w) { RankIsRank(list, treesame, nr, h, w, cs); }
      if ParentsFirst(h, list) { WeighedExactly(list, treesame, h, nr, w); }
  }

  lemma {:induction false} RankIsRank(list: seq<Commit>, treesame: set<Commit>, nr: nat, h: Graph,
                                      w: map<Commit, int>, cs: seq<Commit>)
    requires Ranking(list, treesame, w, nr, cs) && AllWeighed(list, treesame, w)
    requires forall c :: c in list ==> c in w && (w[c] >= 0 ==> w[c] == Exact(h, treesame, c))
    ensures RankedExactly(treesame, h, nr, cs)
  {
    forall i, j | 0 <= i < j < |cs|
      ensures Distance(Exact(h, treesame, cs[j]), nr) <= Distance(Exact(h, treesame, cs[i]), nr)
    {
      assert cs[i] in cs && cs[j] in cs && Precedes(w, nr, cs[i], cs[j]);
    }
  }

  lemma {:induction false} ExactWeights(g: Graph, list: seq<Commit>, interesting: set<Commit>, treesame: set<Commit>,
                                        firstOnly: bool, h: Graph, exact: map<Commit, nat>, w: map<Commit, int>)
    requires Ready(g, list, interesting, treesame, firstOnly, h, exact) && Weighed(h, exact, w)
    ensures forall c :: c in list ==> c in w && (w[c] >= 0 ==> w[c] == Exact(h, treesame, c))
  {
    forall c | c in list ensures c in w && (w[c] >= 0 ==> w[c] == Exact(h, treesame, c)) {
      assert MergeAt(g, interesting, treesame, firstOnly, h, exact, c) && WeightOk(h, exact, w, c);
    }
  }

  // ---- merges that do not change the tree ----

  /** Two roots, a strand of two commits on the first, and two merges of the roots. */
  function TwinMerges(): Graph {
    Graph(map[Commit(0) := [], Commit(1) := [], Commit(2) := [Commit(0)], Commit(3) := [Commit(2)],
              Commit(4) := [Commit(0), Commit(1)], Commit(5) := [Commit(0), Commit(1)]],
          map[Commit(0) := 0, Commit(1) := 0, Commit(2) := 0, Commit(3) := 0, Commit(4) := 0, Commit(5) := 0])
  }

  function TwinList(): seq<Commit> { [Commit(0), Commit(1), Commit(2), Commit(3), Commit(4), Commit(5)] }

  /** The merges do not change the tree. */
  function Twins(): set<Commit> { {Commit(4), Commit(5)} }

  /** The shape of that graph. */
  ghost predicate TwinShape(ps: map<Commit, seq<Commit>>) {
    && (forall c :: c in ps <==> c.oid < 6)
    && ps[Commit(0)] == [] && ps[Commit(1)] == [] && ps[Commit(2)] == [Commit(0)] && ps[Commit(3)] == [Commit(2)]
    && ps[Commit(4)] == [Commit(0), Commit(1)] && ps[Commit(5)] == [Commit(0), Commit(1)]
  }

  lemma {:induction false} TwinFacts()
    ensures TwinShape(TwinMerges().parents) && TwinMerges().generation.Keys == TwinMerges().parents.Keys
  {
  }

  lemma {:induction false} TwinListFacts()
    ensures Distinct(TwinList()) && forall c :: c in TwinList() <==> c.oid < 6
  {
    forall c: Commit | c.oid < 6 ensures c in TwinList() { assert TwinList()[c.oid] == c; }
  }

  /** The parents of a commit of that shape. */
  lemma {:induction false} TwinParents(ps: map<Commit, seq<Commit>>, c: Commit)
    requires TwinShape(ps) && c in ps
    ensures forall p :: p in ps[c] ==> p in ps && p.oid < c.oid
    ensures |ps[c]| == if c.oid < 2 then 0 else if c.oid < 4 then 1 else 2
  {
    assert c == Commit(c.oid);
  }

  /** Commits numbered so that parents come first have no cycle. */
  lemma {:induction false} NumberedDown(g: Graph, a: Commit, b: Commit)
    requires Reach(g, a, b)
    requires forall c, p {:trigger p in g.parents[c]} :: c in g.parents && p in g.parents[c] ==> p.oid < c.oid
    ensures b.oid <= a.oid
  {
    ReachInGraph(g, a, b);
    var s := set c | c in g.parents && c.oid <= a.oid;
    if b !in s { var _, _ := Frontier(g, s, a, b); }
  }

  lemma {:induction false} TwinValid(g: Graph)
    requires TwinShape(g.parents) && g.generation.Keys == g.parents.Keys
    ensures Valid(g)
  {
    forall c, p | c in g.parents && p in g.parents[c] ensures p in g.parents && p.oid < c.oid {
      TwinParents(g.parents, c);
    }
    forall c, p | c in g.parents && p in g.parents[c] ensures !Reach(g, p, c) {
      if Reach(g, p, c) { NumberedDown(g, p, c); }
    }
  }

  lemma {:induction false} KeepsAll(ps: seq<Commit>, all: set<Commit>)
    requires forall p :: p in ps ==> p in all
    ensures InterestingParents(ps, all, false) == ps
  {
    if ps != [] { KeepsAll(ps[1..], all); }
  }

  /** If all commits are interesting, the list is the graph itself. */
  lemma {:induction false} TwinListed(g: Graph, list: seq<Commit>, h: Graph)
    requires TwinShape(g.parents) && forall c :: c in list <==> c.oid < 6
    requires h == Listed(g, list, Elements(list), false)
    ensures h.parents == g.parents
  {
    forall c | c in list ensures h.parents[c] == g.parents[c] {
      TwinParents(g.parents, c);
      KeepsAll(g.parents[c], Elements(list));
    }
  }

  lemma {:induction false} TwinClosed(g: Graph, list: seq<Commit>)
    requires TwinShape(g.parents) && forall c :: c in list <==> c.oid < 6
    ensures Closed(g, list, Elements(list))
  {
    forall c, p | c in list && p in g.parents[c] ensures p in list { TwinParents(g.parents, c); }
  }

  lemma {:induction false} TwinParentsFirst(h: Graph)
    requires TwinShape(h.parents)
    ensures ParentsFirst(h, TwinList())
  {
    var list := TwinList();
    forall i, p | 0 <= i < |list| && list[i] in h.parents && p in h.parents[list[i]] ensures p in list[..i] {
      TwinParents(h.parents, list[i]);
      assert list[..i][p.oid] == p;
    }
  }

  /** What is counted leaves no room for the strand. */
  lemma {:induction false} TwinCounted(h: Graph, list: seq<Commit>)
    requires TwinShape(h.parents) && forall c :: c in list <==> c.oid < 6
    ensures |Elements(list) - Twins()| == 4 && Merges(h) == Twins() && !Enough(h, Twins(), 4)
  {
    assert Elements(list) - Twins() == {Commit(0), Commit(1), Commit(2), Commit(3)};
    forall c | c in h.parents ensures |h.parents[c]| == if c.oid < 2 then 0 else if c.oid < 4 then 1 else 2 {
      TwinParents(h.parents, c);
    }
    assert Roots(h) - Twins() == {Commit(0), Commit(1)};
    assert Merges(h) == Twins();
  }

  lemma {:induction false} TwinExact(h: Graph)
    requires Valid(h) && TwinShape(h.parents)
    ensures Exact(h, Twins(), Commit(0)) == 1 && Exact(h, Twins(), Commit(1)) == 1 && Exact(h, Twins(), Commit(2)) == 2
  {
    ExactRoot(h, Twins(), Commit(0));
    ExactRoot(h, Twins(), Commit(1));
    ExactStrand(h, Twins(), Commit(2), Commit(0));
  }

  /** The weight of a commit that is no merge. */
  lemma {:induction false} TwinWeight(h: Graph, w: map<Commit, int>, c: Commit)
    requires TwinShape(h.parents) && c.oid < 4 && c in w
    requires (|h.parents[c]| != 1 ==> w[c] >= 0) && (|h.parents[c]| == 1 ==> w[c] == -1)
    requires w[c] >= 0 ==> w[c] == Exact(h, Twins(), c)
    requires Exact(h, Twins(), Commit(0)) == 1 && Exact(h, Twins(), Commit(1)) == 1
    ensures w[c] == if c.oid < 2 then 1 else -1
  {
    TwinParents(h.parents, c);
    assert c.oid < 2 ==> c == Commit(0) || c == Commit(1);
  }

  lemma {:induction false} TwinWeights(h: Graph, list: seq<Commit>, w: map<Commit, int>)
    requires TwinShape(h.parents) && (forall c :: c in list <==> c.oid < 6) && StrandsOpen(h, w)
    requires forall c :: c in list ==> c in w && (w[c] >= 0 ==> w[c] == Exact(h, Twins(), c))
    requires forall c :: c in list ==> c in h.parents && (|h.parents[c]| != 1 ==> w[c] >= 0)
    requires Exact(h, Twins(), Commit(0)) == 1 && Exact(h, Twins(), Commit(1)) == 1
    ensures forall c :: c in list && c !in Twins() ==> w[c] == if c.oid < 2 then 1 else -1
  {
    forall c | c in list && c !in Twins() ensures w[c] == if c.oid < 2 then 1 else -1 {
      assert c.oid < 4;
      TwinWeight(h, w, c);
    }
  }

  lemma {:induction false} TwinBest(list: seq<Commit>, w: map<Commit, int>, best: Commit)
    requires (forall c :: c in list <==> c.oid < 6) && Farthest(list, Twins(), w, 4, best)
    requires forall c :: c in list && c !in Twins() ==> w[c] == if c.oid < 2 then 1 else -1
    ensures best == Commit(0) || best == Commit(1)
  {
    assert Commit(0) in list && Commit(0) !in Twins() && Distance(w[Commit(0)], 4) == 1;
  }

  /** Here a root is returned, at distance one, although the commit on it is exactly in the middle:
      it never gets a weight. */
  lemma {:induction false} MiddleMissed(h: Graph, list: seq<Commit>, w: map<Commit, int>, best: Commit)
    requires Valid(h) && TwinShape(h.parents) && (forall c :: c in list <==> c.oid < 6)
    requires Farthest(list, Twins(), w, 4, best)
    requires forall c :: c in list && c !in Twins() ==> w[c] == if c.oid < 2 then 1 else -1
    ensures Distance(Exact(h, Twins(), Commit(2)), 4) == 2 && Distance(Exact(h, Twins(), best), 4) == 1
    ensures !AllWeighed(list, Twins(), w) && !Optimal(list, Twins(), h, 4, best)
  {
    TwinExact(h);
    TwinBest(list, w, best);
    assert Commit(2) in list && Commit(2) !in Twins();
    NotOptimal(list, Twins(), h, w, best, Commit(2));
  }

  lemma {:induction false} NotOptimal(list: seq<Commit>, treesame: set<Commit>, h: Graph, w: map<Commit, int>,
                                      best: Commit, d: Commit)
    requires d in list && d !in treesame && d in w && w[d] < 0
    requires Distance(Exact(h, treesame, d), 4) > Distance(Exact(h, treesame, best), 4)
    ensures !AllWeighed(list, treesame, w) && !Optimal(list, treesame, h, 4, best)
  {
  }

  /** do_find_bisection at that input: no commit passes for halfway, because the merges are tree-same
      and the third loop is not entered. */
  method BisectTwins() returns (w: map<Commit, int>, found: Found)
    ensures found.Best? && TwinShape(TwinMerges().parents)
    ensures ParentsFirst(Listed(TwinMerges(), TwinList(), Elements(TwinList()), false), TwinList())
    ensures !Optimal(TwinList(), Twins(), Listed(TwinMerges(), TwinList(), Elements(TwinList()), false), 4,
                     found.commit)
  {
    var g, list := TwinMerges(), TwinList();
    TwinFacts();
    TwinListFacts();
    TwinValid(g);
    ghost var h := Listed(g, list, Elements(list), false);
    TwinListed(g, list, h);
    TwinClosed(g, list);
    TwinParentsFirst(h);
    TwinCounted(h, list);
    ListedValid(g, list, Elements(list), false);
    w, found := DoFindBisection(g, list, Elements(list), Twins(), false, true, 4);
    TwinOutcome(h, list, w, found);
  }

  lemma {:induction false} TwinOutcome(h: Graph, list: seq<Commit>, w: map<Commit, int>, found: Found)
    requires Valid(h) && TwinShape(h.parents) && (forall c :: c in list <==> c.oid < 6)
    requires Merges(h) == Twins() && !Enough(h, Twins(), 4)
    requires Bisects(list, Twins(), true, 4, h, w, found)
    requires forall c :: c in list ==> c in w && (w[c] >= 0 ==> w[c] == Exact(h, Twins(), c))
    ensures found.Best? && !Optimal(list, Twins(), h, 4, found.commit)
  {
    assert Commit(0) in list;
    if found.Best? {
      TwinExact(h);
      TwinWeights(h, list, w);
      MiddleMissed(h, list, w, found.commit);
    }
  }
}
