/** The commit graph: reachability along parent links, acyclicity and generation numbers.

Everything in the reachability modules is specified against `Reach`, plain
existence of a path of parent links. */
module CommitGraph {

  datatype Commit = Commit(oid: nat)

  /** `parents` lists the parents of every commit, first parent first.
      `generation` is the commit-graph generation number of every commit. */
  datatype Graph = Graph(parents: map<Commit, seq<Commit>>, generation: map<Commit, nat>)

  /** Value of a commit that is not in the commit-graph file. */
  const GENERATION_NUMBER_INFINITY: nat := 0x7fff_ffff_ffff_ffff

  /** Entry `i` of `path` is followed by one of its parents. */
  ghost predicate LinkAt(g: Graph, path: seq<Commit>, i: nat)
    requires i + 1 < |path|
  {
    path[i] in g.parents && path[i + 1] in g.parents && path[i + 1] in g.parents[path[i]]
  }

  ghost predicate IsPath(g: Graph, path: seq<Commit>) {
    && |path| > 0 && path[0] in g.parents
    && forall i {:trigger LinkAt(g, path, i)} :: 0 <= i < |path| - 1 ==> LinkAt(g, path, i)
  }

  ghost predicate Connects(g: Graph, path: seq<Commit>, from: Commit, to: Commit) {
    IsPath(g, path) && path[0] == from && path[|path| - 1] == to
  }

  /** `to` is `from` or one of its ancestors. */
  ghost predicate Reach(g: Graph, from: Commit, to: Commit) {
    exists path :: Connects(g, path, from, to)
  }

  /** Every parent is a commit of the graph, and no commit is its own ancestor. */
  ghost predicate Valid(g: Graph) {
    && g.generation.Keys == g.parents.Keys
    && (forall c, p {:trigger p in g.parents[c]} :: c in g.parents && p in g.parents[c] ==> p in g.parents)
    && (forall c, p {:trigger p in g.parents[c]} :: c in g.parents && p in g.parents[c] ==> !Reach(g, p, c))
  }

  /** Generation numbers never increase from child to parent. */
  ghost predicate Monotone(g: Graph)
    requires Valid(g)
  {
    && (forall c :: c in g.parents ==> g.generation[c] <= GENERATION_NUMBER_INFINITY)
    && (forall c, p {:trigger p in g.parents[c]} :: c in g.parents && p in g.parents[c] ==>
       g.generation[p] <= g.generation[c])
  }

  /** Generation numbers strictly decrease from child to parent. */
  ghost predicate Strict(g: Graph)
    requires Valid(g)
  {
    forall c, p {:trigger p in g.parents[c]} :: c in g.parents && p in g.parents[c] ==>
      g.generation[p] < g.generation[c]
  }

  /** `to` is an ancestor of some commit of `from` (or one of them). */
  ghost predicate ReachAny(g: Graph, from: set<Commit>, to: Commit) {
    exists f {:trigger f in from, Reach(g, f, to)} :: f in from && Reach(g, f, to)
  }

  lemma {:induction false} ReachSelf(g: Graph, c: Commit)
    requires c in g.parents
    ensures Reach(g, c, c)
  {
    assert Connects(g, [c], c, c);
  }

  lemma {:induction false} ReachParent(g: Graph, a: Commit, b: Commit, p: Commit)
    requires Valid(g) && Reach(g, a, b) && b in g.parents && p in g.parents[b]
    ensures Reach(g, a, p)
  {
    var path :| Connects(g, path, a, b);
    var longer := path + [p];
    forall i | 0 <= i < |path| ensures LinkAt(g, longer, i) {
      if i < |path| - 1 { assert LinkAt(g, path, i); }
    }
    assert Connects(g, longer, a, p);
  }

  lemma {:induction false} ReachInGraph(g: Graph, a: Commit, b: Commit)
    requires Reach(g, a, b)
    ensures a in g.parents && b in g.parents
  {
    var path :| Connects(g, path, a, b);
    if |path| > 1 { assert LinkAt(g, path, |path| - 2); }
  }

  lemma {:induction false} SubPath(g: Graph, path: seq<Commit>, lo: nat, hi: nat)
    requires IsPath(g, path) && lo < hi <= |path|
    ensures IsPath(g, path[lo..hi])
  {
    if lo > 0 { assert LinkAt(g, path, lo - 1); }
    forall i | 0 <= i < hi - lo - 1 ensures LinkAt(g, path[lo..hi], i) {
      assert LinkAt(g, path, lo + i);
    }
  }

  lemma {:induction false} ReachTrans(g: Graph, a: Commit, b: Commit, c: Commit)
    requires Reach(g, a, b) && Reach(g, b, c)
    ensures Reach(g, a, c)
  {
    var ab :| Connects(g, ab, a, b);
    var bc :| Connects(g, bc, b, c);
    var path := ab + bc[1..];
    forall i | 0 <= i < |path| - 1 ensures LinkAt(g, path, i) {
      if i < |ab| - 1 { assert LinkAt(g, ab, i); } else { assert LinkAt(g, bc, i - (|ab| - 1)); }
    }
    assert Connects(g, path, a, c);
  }

  /** A proper descendant starts with one of its parents. */
  lemma {:induction false} ReachFirst(g: Graph, a: Commit, b: Commit) returns (p: Commit)
    requires Reach(g, a, b) && a != b
    ensures a in g.parents && p in g.parents[a] && Reach(g, p, b)
  {
    var path :| Connects(g, path, a, b);
    p := path[1];
    assert LinkAt(g, path, 0);
    SubPath(g, path, 1, |path|);
    assert Connects(g, path[1..|path|], p, b);
  }

  lemma {:induction false} ReachVia(g: Graph, a: Commit, p: Commit, b: Commit)
    requires Valid(g) && a in g.parents && p in g.parents[a] && Reach(g, p, b)
    ensures Reach(g, a, b) && a != b
  {
    ReachSelf(g, a);
    ReachParent(g, a, a, p);
    ReachTrans(g, a, p, b);
  }

  /** Ancestry is a partial order. */
  lemma {:induction false} ReachAntisymmetric(g: Graph, a: Commit, b: Commit)
    requires Valid(g) && Reach(g, a, b) && Reach(g, b, a)
    ensures a == b
  {
    if a != b {
      var p := ReachFirst(g, a, b);
      ReachTrans(g, p, b, a);
    }
  }

  /** A path that leaves a set crosses its border on some parent link. */
  lemma {:induction false} Frontier(g: Graph, s: set<Commit>, a: Commit, b: Commit) returns (c: Commit, p: Commit)
    requires Reach(g, a, b) && a in s && b !in s
    ensures c in g.parents && c in s && p in g.parents && p in g.parents[c] && p !in s
    ensures Reach(g, a, c) && Reach(g, p, b)
  {
    var path :| Connects(g, path, a, b);
    var k := 0;
    while path[k + 1] in s
      invariant 0 <= k < |path| - 1
      invariant path[k] in s
      decreases |path| - k
    {
      k := k + 1;
    }
    c, p := path[k], path[k + 1];
    assert LinkAt(g, path, k);
    SubPath(g, path, 0, k + 1);
    SubPath(g, path, k + 1, |path|);
    assert Connects(g, path[0..k + 1], a, c);
    assert Connects(g, path[k + 1..|path|], p, b);
  }

  lemma {:induction false} GenerationDescends(g: Graph, a: Commit, b: Commit)
    requires Valid(g) && Monotone(g) && Reach(g, a, b)
    ensures a in g.parents && b in g.parents && g.generation[b] <= g.generation[a]
  {
    ReachInGraph(g, a, b);
    var s := set c | c in g.parents && g.generation[c] <= g.generation[a];
    if b !in s {
      var _, _ := Frontier(g, s, a, b);
    }
  }

  lemma {:induction false} GenerationStrictlyDescends(g: Graph, a: Commit, b: Commit)
    requires Valid(g) && Strict(g) && Reach(g, a, b) && a != b
    ensures a in g.parents && b in g.parents && g.generation[b] < g.generation[a]
  {
    ReachInGraph(g, a, b);
    var s := {a} + set c | c in g.parents && g.generation[c] < g.generation[a];
    if b !in s {
      var _, _ := Frontier(g, s, a, b);
    }
  }
}
