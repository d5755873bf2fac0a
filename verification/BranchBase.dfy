/** The base a branch most likely started from, along first parents (get_branch_base_for_tip). */
module BranchBase {
  import opened CommitGraph
  import opened Marks

  /** The same commits, each with its first parent only. */
  function FirstParents(g: Graph): Graph {
    Graph(map c | c in g.parents :: if g.parents[c] == [] then [] else g.parents[c][..1], g.generation)
  }

  ghost predicate SingleParents(g: Graph) {
    forall c :: c in g.parents ==> |g.parents[c]| <= 1
  }

  lemma {:induction false} FirstParentReach(g: Graph, a: Commit, b: Commit)
    requires Reach(FirstParents(g), a, b)
    ensures Reach(g, a, b)
  {
    var path :| Connects(FirstParents(g), path, a, b);
    forall i | 0 <= i < |path| - 1 ensures LinkAt(g, path, i) {
      assert LinkAt(FirstParents(g), path, i);
    }
    assert Connects(g, path, a, b);
  }

  lemma {:induction false} FirstParentsValid(g: Graph)
    requires Valid(g)
    ensures Valid(FirstParents(g)) && SingleParents(FirstParents(g))
    ensures Strict(g) ==> Strict(FirstParents(g))
  {
    var fp := FirstParents(g);
    assert fp.parents.Keys == g.parents.Keys;
    forall c, p | c in fp.parents && p in fp.parents[c]
      ensures p in g.parents[c] && p in fp.parents && !Reach(fp, p, c)
    {
      assert p in g.parents[c];
      if Reach(fp, p, c) { FirstParentReach(g, p, c); }
    }
  }

  /** First-parent history is a chain. */
  lemma {:induction false} Chain(g: Graph, a: Commit, x: Commit, y: Commit)
    requires Valid(g) && SingleParents(g) && Reach(g, a, x) && Reach(g, a, y)
    ensures Reach(g, x, y) || Reach(g, y, x)
  {
    var above := set c | c in g.parents && Reach(g, c, x);
    ReachInGraph(g, a, x);
    ReachInGraph(g, a, y);
    if y !in above {
      var c, p := Frontier(g, above, a, y);
      if c != x {
        var _ := ReachFirst(g, c, x);
      } else {
        ReachVia(g, x, p, y);
      }
    }
  }

  /** The first-parent history of `c`. */
  ghost function History(g: Graph, c: Commit): set<Commit> {
    set d | d in g.parents && Reach(g, c, d)
  }

  /** Labels: -1 for "reachable from the tip", k + 1 for "reachable from bases[k]". */
  ghost predicate Truthful(g: Graph, tip: Commit, bases: seq<Commit>, best: map<Commit, int>) {
    forall c {:trigger TrueAt(g, tip, bases, best, c)} :: c in best ==> TrueAt(g, tip, bases, best, c)
  }

  ghost predicate TrueAt(g: Graph, tip: Commit, bases: seq<Commit>, best: map<Commit, int>, c: Commit) {
    c in best && if best[c] == -1 then Reach(g, tip, c) else 1 <= best[c] <= |bases| && Reach(g, bases[best[c] - 1], c)
  }

  /** A popped commit has labelled its parent; a base mark is only overridden at the branch point. */
  ghost predicate PassedOn(best: map<Commit, int>, point: set<Commit>, c: Commit, p: Commit) {
    && c in best && p in best
    && (best[c] == -1 ==> best[p] == -1)
    && (best[c] != -1 ==> best[p] != -1 || p in point)
  }

  /** The labelled commits are the popped and the queued ones, and pops go down in generation. */
  ghost predicate Layered(g: Graph, best: map<Commit, int>, done: set<Commit>, queue: set<Commit>) {
    && (forall c :: c in best <==> c in done || c in queue)
    && (forall c :: c in best ==> c in g.parents && c in g.generation)
    && (forall d, q {:trigger NotAbove(g, q, d)} :: d in done && q in queue ==> NotAbove(g, q, d))
  }

  lemma {:induction false} QueuedNotDone(g: Graph, best: map<Commit, int>, done: set<Commit>, queue: set<Commit>,
                                         c: Commit)
    requires Layered(g, best, done, queue) && c in queue
    ensures c !in done
  {
    assert c in done ==> NotAbove(g, c, c);
  }

  ghost predicate NotAbove(g: Graph, q: Commit, d: Commit) {
    d != q && d in g.generation && q in g.generation && g.generation[q] <= g.generation[d]
  }

  ghost predicate Started(tip: Commit, bases: seq<Commit>, best: map<Commit, int>, point: set<Commit>) {
    && tip in best && best[tip] == -1
    && (forall i :: 0 <= i < |bases| ==> bases[i] in best && (best[bases[i]] != -1 || bases[i] in point))
  }

  ghost predicate AllPassedOn(g: Graph, best: map<Commit, int>, done: set<Commit>, point: set<Commit>) {
    forall c, p {:trigger p in g.parents[c]} :: c in done && c in g.parents && p in g.parents[c] ==>
      PassedOn(best, point, c, p)
  }

  /** Only one queued commit continues the tip's own history. */
  ghost predicate OneHead(best: map<Commit, int>, queue: set<Commit>) {
    forall x, y {:trigger Head(best, x), Head(best, y)} ::
      x in queue && y in queue && Head(best, x) && Head(best, y) ==> x == y
  }

  ghost predicate Head(best: map<Commit, int>, x: Commit) {
    x in best && best[x] == -1
  }

  lemma {:induction false} OneHeadStep(best: map<Commit, int>, queue: set<Commit>, c: Commit, p: Commit, v: int)
    requires OneHead(best, queue) && c in queue && c in best && (p in best ==> p in queue)
    requires v == -1 ==> forall y :: y in queue && y in best && y != c && best[y] == -1 ==> y == p
    ensures OneHead(best[p := v], queue - {c} + {p})
  {
    var best' := best[p := v];
    forall x, y | x in queue - {c} + {p} && y in queue - {c} + {p} && Head(best', x) && Head(best', y) ensures x == y {
      assert x == p || Head(best, x);
      assert y == p || Head(best, y);
    }
  }

  ghost predicate PointFound(g: Graph, bases: seq<Commit>, best: map<Commit, int>, queue: set<Commit>,
                             point: set<Commit>, bestIndex: int) {
    if point == {} then bestIndex == -1
    else
      && 1 <= bestIndex <= |bases|
      && (forall a, b :: a in point && b in point ==> a == b)
      && (forall a :: a in point ==> a in queue && a in best && best[a] == -1 && Reach(g, bases[bestIndex - 1], a))
  }

  /** The walk's invariant; `point` is empty or holds the branch point found. */
  ghost predicate Walking(g: Graph, tip: Commit, bases: seq<Commit>, best: map<Commit, int>, done: set<Commit>,
                          queue: set<Commit>, point: set<Commit>, bestIndex: int) {
    && Layered(g, best, done, queue)
    && Truthful(g, tip, bases, best)
    && Started(tip, bases, best, point)
    && AllPassedOn(g, best, done, point)
    && OneHead(best, queue)
    && PointFound(g, bases, best, queue, point, bestIndex)
  }

  /** What a tip or base reaches and is not yet popped lies below a queued commit. */
  lemma {:induction false} QueuedAbove(g: Graph, tip: Commit, bases: seq<Commit>, best: map<Commit, int>,
                                       done: set<Commit>, queue: set<Commit>, point: set<Commit>, bestIndex: int,
                                       s: Commit, c: Commit)
    returns (q: Commit)
    requires Valid(g) && Walking(g, tip, bases, best, done, queue, point, bestIndex)
    requires (s == tip || s in bases) && Reach(g, s, c) && c !in done
    ensures q in queue && Reach(g, q, c)
    ensures q == s || exists d :: d in done && d in g.parents && q in g.parents[d] && Reach(g, s, d)
  {
    if s in done {
      var d, p := Frontier(g, done, s, c);
      assert PassedOn(best, point, d, p);
      q := p;
    } else {
      q := s;
    }
  }

  /** A popped commit that is not the branch point belongs to one side only. */
  ghost predicate Separated(g: Graph, tip: Commit, bases: seq<Commit>, best: map<Commit, int>, done: set<Commit>) {
    && (forall x {:trigger Reach(g, tip, x)} :: x in done && x in best && Reach(g, tip, x) ==> best[x] == -1)
    && (forall x, i {:trigger Reach(g, bases[i], x)} ::
       x in done && x in best && 0 <= i < |bases| && Reach(g, bases[i], x) ==> best[x] != -1)
  }

  ghost predicate Highest(g: Graph, queue: set<Commit>, c: Commit) {
    c in queue && c in g.generation && forall q :: q in queue && q in g.generation ==>
      g.generation[q] <= g.generation[c]
  }

  lemma {:induction false} PoppedSeparated(g: Graph, tip: Commit, bases: seq<Commit>, best: map<Commit, int>,
                                           done: set<Commit>, queue: set<Commit>, point: set<Commit>, bestIndex: int,
                                           c: Commit)
    requires Valid(g) && Strict(g) && Walking(g, tip, bases, best, done, queue, point, bestIndex)
    requires Separated(g, tip, bases, best, done) && Highest(g, queue, c) && c !in point
    ensures Separated(g, tip, bases, best, done + {c})
  {
    QueuedNotDone(g, best, done, queue, c);
    if Reach(g, tip, c) {
      var q := QueuedAbove(g, tip, bases, best, done, queue, point, bestIndex, tip, c);
      if q != c { GenerationStrictlyDescends(g, q, c); }
      if c != tip {
        var d :| d in done && d in g.parents && c in g.parents[d] && Reach(g, tip, d);
        assert PassedOn(best, point, d, c);
      }
    }
    forall i | 0 <= i < |bases| && Reach(g, bases[i], c) ensures best[c] != -1 {
      var q := QueuedAbove(g, tip, bases, best, done, queue, point, bestIndex, bases[i], c);
      if q != c { GenerationStrictlyDescends(g, q, c); }
      if c != bases[i] {
        var d :| d in done && d in g.parents && c in g.parents[d] && Reach(g, bases[i], d);
        assert PassedOn(best, point, d, c);
      }
    }
  }

  /** Stopping at the branch point is optimal: every shared commit is an ancestor of it. */
  lemma {:induction false} SharedBelowPoint(g: Graph, tip: Commit, bases: seq<Commit>, best: map<Commit, int>,
                                            done: set<Commit>, queue: set<Commit>, point: set<Commit>, bestIndex: int,
                                            a: Commit, i: nat, x: Commit)
    requires Valid(g) && Strict(g) && SingleParents(g) && Walking(g, tip, bases, best, done, queue, point, bestIndex)
    requires Separated(g, tip, bases, best, done) && Highest(g, queue, a) && point == {a}
    requires i < |bases| && Reach(g, tip, x) && Reach(g, bases[i], x)
    ensures Reach(g, a, x)
  {
    assert a in point && TrueAt(g, tip, bases, best, a);
    Chain(g, tip, a, x);
    if !Reach(g, a, x) {
      if x !in done {
        var q := QueuedAbove(g, tip, bases, best, done, queue, point, bestIndex, tip, x);
        ReachTrans(g, q, x, a);
        if q != x { GenerationStrictlyDescends(g, q, x); }
        GenerationStrictlyDescends(g, x, a);
      }
    }
  }

  /** A walk that ran dry without a branch point has found no shared commit. */
  lemma {:induction false} NothingShared(g: Graph, tip: Commit, bases: seq<Commit>, best: map<Commit, int>,
                                         done: set<Commit>, point: set<Commit>, bestIndex: int, i: nat, x: Commit)
    requires Valid(g) && Walking(g, tip, bases, best, done, {}, point, bestIndex)
    requires Separated(g, tip, bases, best, done) && i < |bases|
    ensures !(Reach(g, tip, x) && Reach(g, bases[i], x))
  {
    if Reach(g, tip, x) && Reach(g, bases[i], x) {
      if x !in done {
        var _ := QueuedAbove(g, tip, bases, best, done, {}, point, bestIndex, tip, x);
      }
    }
  }

  /** Taking `c` from the queue and labelling its parent `p` with `v`. */
  lemma {:induction false} LayeredStep(g: Graph, best: map<Commit, int>, done: set<Commit>, queue: set<Commit>,
                                       c: Commit, p: Commit, v: int)
    requires Valid(g) && Strict(g) && Layered(g, best, done, queue)
    requires Highest(g, queue, c) && c in g.parents && p in g.parents[c]
    ensures Layered(g, best[p := v], done + {c}, queue - {c} + {p}) && p !in done && p != c
  {
    forall d | d in done ensures NotAbove(g, c, d) && NotAbove(g, p, d) {}
  }

  lemma {:induction false} TruthfulStep(g: Graph, tip: Commit, bases: seq<Commit>, best: map<Commit, int>, c: Commit,
                                        p: Commit, v: int)
    requires Valid(g) && Truthful(g, tip, bases, best) && c in best && c in g.parents && p in g.parents[c]
    requires v == best[c] || (p in best && v == best[p])
    ensures Truthful(g, tip, bases, best[p := v])
  {
    assert TrueAt(g, tip, bases, best, c);
    ReachParent(g, if best[c] == -1 then tip else bases[best[c] - 1], c, p);
    var best' := best[p := v];
    forall x | x in best' ensures TrueAt(g, tip, bases, best', x) {
      assert x in best ==> TrueAt(g, tip, bases, best, x);
      assert p in best ==> TrueAt(g, tip, bases, best, p);
    }
  }

  lemma {:induction false} PassedStep(g: Graph, best: map<Commit, int>, done: set<Commit>, point: set<Commit>,
                                      c: Commit, p: Commit, v: int, point': set<Commit>)
    requires AllPassedOn(g, best, done, point) && c in g.parents
    requires g.parents[c] == [p] && c in best && p != c && p !in done
    requires point <= point' && PassedOn(best[p := v], point', c, p)
    requires p in best ==> (if best[p] == -1 then v == -1 else v != -1 || p in point')
    ensures AllPassedOn(g, best[p := v], done + {c}, point')
  {
    forall d, q | d in done + {c} && d in g.parents && q in g.parents[d] ensures PassedOn(best[p := v], point', d, q) {
      if d != c { assert PassedOn(best, point, d, q); }
    }
  }

  lemma {:induction false} StepLabel(g: Graph, tip: Commit, bases: seq<Commit>, best: map<Commit, int>,
                                     done: set<Commit>, queue: set<Commit>, point: set<Commit>, bestIndex: int,
                                     c: Commit, p: Commit, v: int, point': set<Commit>, bestIndex': int)
    requires Valid(g) && Strict(g) && Walking(g, tip, bases, best, done, queue, point, bestIndex)
    requires Highest(g, queue, c) && c !in point && c in g.parents && g.parents[c] == [p]
    requires v == best[c] || (p in best && v == best[p])
    requires best[c] == -1 ==> v == -1
    requires best[c] != -1 ==> v != -1 || p in point'
    requires p in best ==> (if best[p] == -1 then v == -1 else v != -1 || p in point')
    requires point <= point' && (v == -1 ==> forall y :: y in queue && y != c && best[y] == -1 ==> y == p)
    requires PointFound(g, bases, best[p := v], queue - {c} + {p}, point', bestIndex')
    ensures Walking(g, tip, bases, best[p := v], done + {c}, queue - {c} + {p}, point', bestIndex')
  {
    assert p in g.parents[c];
    LayeredStep(g, best, done, queue, c, p, v);
    TruthfulStep(g, tip, bases, best, c, p, v);
    OneHeadStep(best, queue, c, p, v);
    PassedStep(g, best, done, point, c, p, v, point');
  }

  lemma {:induction false} StepRoot(g: Graph, tip: Commit, bases: seq<Commit>, best: map<Commit, int>,
                                    done: set<Commit>, queue: set<Commit>, point: set<Commit>, bestIndex: int,
                                    c: Commit)
    requires Walking(g, tip, bases, best, done, queue, point, bestIndex)
    requires Highest(g, queue, c) && c !in point && c in g.parents && g.parents[c] == []
    ensures Walking(g, tip, bases, best, done + {c}, queue - {c}, point, bestIndex)
  {
    QueuedNotDone(g, best, done, queue, c);
    forall q | q in queue && q != c ensures NotAbove(g, q, c) {}
  }

  lemma {:induction false} PointKept(g: Graph, bases: seq<Commit>, best: map<Commit, int>, queue: set<Commit>,
                                     point: set<Commit>, bestIndex: int, c: Commit, p: Commit, v: int)
    requires PointFound(g, bases, best, queue, point, bestIndex) && c !in point && p !in point
    ensures PointFound(g, bases, best[p := v], queue - {c} + {p}, point, bestIndex)
  {
  }

  /** The parent is new: pass along the label. */
  lemma {:induction false} StepNew(g: Graph, tip: Commit, bases: seq<Commit>, best: map<Commit, int>,
                                   done: set<Commit>, queue: set<Commit>, point: set<Commit>, bestIndex: int,
                                   c: Commit, p: Commit)
    requires Valid(g) && Strict(g) && Walking(g, tip, bases, best, done, queue, point, bestIndex)
    requires Highest(g, queue, c) && c !in point && c in g.parents && g.parents[c] == [p] && p !in best
    ensures Walking(g, tip, bases, best[p := best[c]], done + {c}, queue - {c} + {p}, point, bestIndex)
  {
    PointKept(g, bases, best, queue, point, bestIndex, c, p, best[c]);
    assert forall y :: y in queue && best[y] == -1 ==> Head(best, y);
    StepLabel(g, tip, bases, best, done, queue, point, bestIndex, c, p, best[c], point, bestIndex);
  }

  /** Collision among bases: minimise. */
  lemma {:induction false} StepMinimise(g: Graph, tip: Commit, bases: seq<Commit>, best: map<Commit, int>,
                                        done: set<Commit>, queue: set<Commit>, point: set<Commit>, bestIndex: int,
                                        c: Commit, p: Commit, v: int)
    requires Valid(g) && Strict(g) && Walking(g, tip, bases, best, done, queue, point, bestIndex)
    requires Highest(g, queue, c) && c !in point && c in g.parents && g.parents[c] == [p] && p in best
    requires best[c] > 0 && best[p] > 0 && (v == best[c] || v == best[p])
    ensures Walking(g, tip, bases, best[p := v], done + {c}, queue - {c} + {p}, point, bestIndex)
  {
    PointKept(g, bases, best, queue, point, bestIndex, c, p, v);
    StepLabel(g, tip, bases, best, done, queue, point, bestIndex, c, p, v, point, bestIndex);
  }

  /** Exactly one of the two labels is positive, and there is only ever one branch point. */
  lemma {:induction false} OneSidePositive(best: map<Commit, int>, queue: set<Commit>, point: set<Commit>, c: Commit,
                                           p: Commit)
    requires OneHead(best, queue) && c in queue && p in queue && c in best && p in best && p != c && c !in point
    requires forall a :: a in point ==> a in queue && a in best && best[a] == -1
    requires !(best[c] > 0 && best[p] > 0) && (best[c] == -1 || best[c] > 0) && (best[p] == -1 || best[p] > 0)
    ensures (best[c] == -1) != (best[p] == -1) && point <= {p}
    ensures forall y :: y in queue && y in best && best[y] == -1 && y != c ==> y == p
  {
    assert forall y :: y in queue && y in best && best[y] == -1 ==> Head(best, y);
  }

  lemma {:induction false} PointMoves(g: Graph, bases: seq<Commit>, best: map<Commit, int>, queue: set<Commit>,
                                      point: set<Commit>, bestIndex: int, c: Commit, p: Commit, positive: int)
    requires PointFound(g, bases, best, queue, point, bestIndex) && point <= {p}
    requires 1 <= positive <= |bases| && Reach(g, bases[positive - 1], p)
    ensures PointFound(g, bases, best[p := -1], queue - {c} + {p}, {p},
                       if bestIndex < 0 || positive < bestIndex then positive else bestIndex)
  {
    if point != {} { assert p in point; }
  }

  lemma {:induction false} PositiveReaches(g: Graph, tip: Commit, bases: seq<Commit>, best: map<Commit, int>,
                                           c: Commit, p: Commit, positive: int)
    requires Valid(g) && Truthful(g, tip, bases, best) && c in best && p in best && c in g.parents && p in g.parents[c]
    requires (best[c] == -1) != (best[p] == -1) && positive == if best[c] < 0 then best[p] else best[c]
    ensures 1 <= positive <= |bases| && Reach(g, bases[positive - 1], p)
  {
    assert TrueAt(g, tip, bases, best, c) && TrueAt(g, tip, bases, best, p);
    if best[c] != -1 { ReachParent(g, bases[best[c] - 1], c, p); }
  }

  /** The parent is reached from the tip and from a base: a branch point. */
  lemma {:induction false} StepBranch(g: Graph, tip: Commit, bases: seq<Commit>, best: map<Commit, int>,
                                      done: set<Commit>, queue: set<Commit>, point: set<Commit>, bestIndex: int,
                                      c: Commit, p: Commit, positive: int)
    requires Valid(g) && Strict(g) && Walking(g, tip, bases, best, done, queue, point, bestIndex)
    requires Highest(g, queue, c) && c !in point && c in g.parents && g.parents[c] == [p] && p in queue
    requires !(best[c] > 0 && best[p] > 0) && positive == if best[c] < 0 then best[p] else best[c]
    ensures Walking(g, tip, bases, best[p := -1], done + {c}, queue - {c} + {p}, {p},
                    if bestIndex < 0 || positive < bestIndex then positive else bestIndex)
  {
    assert p in g.parents[c];
    LayeredStep(g, best, done, queue, c, p, -1);
    assert TrueAt(g, tip, bases, best, c) && TrueAt(g, tip, bases, best, p);
    OneSidePositive(best, queue, point, c, p);
    PositiveReaches(g, tip, bases, best, c, p, positive);
    PointMoves(g, bases, best, queue, point, bestIndex, c, p, positive);
    StepLabel(g, tip, bases, best, done, queue, point, bestIndex, c, p, -1, {p},
              if bestIndex < 0 || positive < bestIndex then positive else bestIndex);
  }

  lemma {:induction false} SeparatedKept(g: Graph, tip: Commit, bases: seq<Commit>, best: map<Commit, int>,
                                         done: set<Commit>, c: Commit, p: Commit, v: int)
    requires Separated(g, tip, bases, best, done + {c}) && p !in done && p != c
    requires forall x :: x in done || x == c ==> x in best
    ensures Separated(g, tip, bases, best[p := v], done + {c})
  {
  }

  // ---- the earliest base ----

  /** What reaches `p` from a base is accounted for by its label, or by the index at the branch point. */
  ghost predicate RankedAt(best: map<Commit, int>, point: set<Commit>, bestIndex: int, p: Commit, v: int) {
    p in best && if p in point then bestIndex <= v else 0 < best[p] <= v
  }

  ghost predicate RankedBase(bases: seq<Commit>, best: map<Commit, int>, point: set<Commit>, bestIndex: int, i: nat) {
    i < |bases| && RankedAt(best, point, bestIndex, bases[i], i + 1)
  }

  /** Labels are at most those handed on, and for popped commits at most every base that reaches them. */
  ghost predicate Ranked(g: Graph, bases: seq<Commit>, best: map<Commit, int>, done: set<Commit>, point: set<Commit>,
                         bestIndex: int) {
    && (forall i {:trigger RankedBase(bases, best, point, bestIndex, i)} :: 0 <= i < |bases| ==>
       RankedBase(bases, best, point, bestIndex, i))
    && (forall d, p {:trigger p in g.parents[d]} ::
          d in done && d in best && best[d] > 0 && d in g.parents && p in g.parents[d] ==>
            RankedAt(best, point, bestIndex, p, best[d]))
    && (forall x, i {:trigger Reach(g, bases[i], x)} ::
          x in done && x in best && 0 <= i < |bases| && Reach(g, bases[i], x) ==> best[x] <= i + 1)
  }

  /** Every base that reaches the queued commit at the front of the queue. */
  lemma {:induction false} FrontRanked(g: Graph, tip: Commit, bases: seq<Commit>, best: map<Commit, int>,
                                       done: set<Commit>, queue: set<Commit>, point: set<Commit>, bestIndex: int,
                                       c: Commit, i: nat)
    requires Valid(g) && Strict(g) && Walking(g, tip, bases, best, done, queue, point, bestIndex)
    requires Separated(g, tip, bases, best, done)
    requires Ranked(g, bases, best, done, point, bestIndex) && Highest(g, queue, c)
    requires i < |bases| && Reach(g, bases[i], c)
    ensures RankedAt(best, point, bestIndex, c, i + 1)
  {
    QueuedNotDone(g, best, done, queue, c);
    var q := QueuedAbove(g, tip, bases, best, done, queue, point, bestIndex, bases[i], c);
    if q != c { GenerationStrictlyDescends(g, q, c); }
    if c != bases[i] {
      var d :| d in done && d in g.parents && c in g.parents[d] && Reach(g, bases[i], d);
      assert PassedOn(best, point, d, c) && TrueAt(g, tip, bases, best, d);
      assert best[d] != -1 && best[d] <= i + 1;
    } else {
      assert RankedBase(bases, best, point, bestIndex, i);
    }
  }

  /** A popped commit that is not the branch point has the earliest base that reaches it. */
  lemma {:induction false} RankedPop(g: Graph, tip: Commit, bases: seq<Commit>, best: map<Commit, int>,
                                     done: set<Commit>, queue: set<Commit>, point: set<Commit>, bestIndex: int,
                                     c: Commit)
    requires Valid(g) && Strict(g) && Walking(g, tip, bases, best, done, queue, point, bestIndex)
    requires Separated(g, tip, bases, best, done) && Ranked(g, bases, best, done, point, bestIndex)
    requires Highest(g, queue, c) && c !in point
    ensures RankedDone(g, bases, best, done, c)
  {
    forall i | 0 <= i < |bases| && Reach(g, bases[i], c) ensures best[c] <= i + 1 {
      FrontRanked(g, tip, bases, best, done, queue, point, bestIndex, c, i);
    }
  }

  /** Labelling the parent with `v`: what was accounted for still is. */
  ghost predicate Reranks(best: map<Commit, int>, point: set<Commit>, bestIndex: int, p: Commit, v: int,
                          point': set<Commit>, bestIndex': int) {
    && (forall u :: RankedAt(best, point, bestIndex, p, u) ==> RankedAt(best[p := v], point', bestIndex', p, u))
    && (forall q :: q != p ==> (q in point <==> q in point'))
    && (bestIndex' == bestIndex || forall q :: q in point' ==> q == p)
  }

  lemma {:induction false} RankedStep(g: Graph, bases: seq<Commit>, best: map<Commit, int>, done: set<Commit>,
                                      point: set<Commit>, bestIndex: int, c: Commit, p: Commit, v: int,
                                      point': set<Commit>, bestIndex': int)
    requires Ranked(g, bases, best, done, point, bestIndex) && c in g.parents
    requires g.parents[c] == [p] && c in best && p !in done && p != c
    requires Reranks(best, point, bestIndex, p, v, point', bestIndex')
    requires best[c] > 0 ==> RankedAt(best[p := v], point', bestIndex', p, best[c])
    requires RankedDone(g, bases, best, done, c)
    ensures Ranked(g, bases, best[p := v], done + {c}, point', bestIndex')
  {
    var best' := best[p := v];
    forall i | 0 <= i < |bases| ensures RankedBase(bases, best', point', bestIndex', i) {
      assert RankedBase(bases, best, point, bestIndex, i);
    }
    forall d, q | d in done + {c} && d in best' && best'[d] > 0 && d in g.parents && q in g.parents[d]
      ensures RankedAt(best', point', bestIndex', q, best'[d])
    {
      if d != c { assert RankedAt(best, point, bestIndex, q, best[d]); }
    }
  }

  lemma {:induction false} RankedRoot(g: Graph, bases: seq<Commit>, best: map<Commit, int>, done: set<Commit>,
                                      point: set<Commit>, bestIndex: int, c: Commit)
    requires Ranked(g, bases, best, done, point, bestIndex) && c in g.parents && g.parents[c] == []
    requires RankedDone(g, bases, best, done, c)
    ensures Ranked(g, bases, best, done + {c}, point, bestIndex)
  {
  }

  lemma {:induction false} RerankBranch(best: map<Commit, int>, point: set<Commit>, bestIndex: int, c: Commit,
                                        p: Commit, positive: int, bestIndex': int)
    requires c in best && p in best && c != p && (best[c] == -1) != (best[p] == -1) && point <= {p}
    requires positive == if best[c] < 0 then best[p] else best[c]
    requires bestIndex' == if bestIndex < 0 || positive < bestIndex then positive else bestIndex
    requires if point == {} then bestIndex == -1 else bestIndex >= 1
    requires p in point ==> best[p] == -1
    ensures Reranks(best, point, bestIndex, p, -1, {p}, bestIndex')
    ensures best[c] > 0 ==> RankedAt(best[p := -1], {p}, bestIndex', p, best[c])
  {
  }

  /** Labelling the parent of a popped commit. */
  method LabelParent(g: Graph, tip: Commit, bases: seq<Commit>, best: map<Commit, int>, queue: set<Commit>,
                     point: set<Commit>, bestIndex: int, c: Commit, ghost done: set<Commit>)
    returns (best': map<Commit, int>, queue': set<Commit>, point': set<Commit>, bestIndex': int)
    requires Valid(g) && Strict(g) && SingleParents(g) && Walking(g, tip, bases, best, done, queue, point, bestIndex)
    requires Highest(g, queue, c) && c !in point && c in g.parents && g.parents[c] != []
    requires Separated(g, tip, bases, best, done + {c}) && Ranked(g, bases, best, done, point, bestIndex)
    requires RankedDone(g, bases, best, done, c)
    ensures Walking(g, tip, bases, best', done + {c}, queue', point', bestIndex')
    ensures Separated(g, tip, bases, best', done + {c}) && Ranked(g, bases, best', done + {c}, point', bestIndex')
  {
    var p := g.parents[c][0];
    assert g.parents[c] == [p] && p in g.parents[c];
    LayeredStep(g, best, done, queue, c, p, 0);
    queue', point', bestIndex' := queue - {c} + {p}, point, bestIndex;
    if p !in best {
      LabelNew(g, tip, bases, best, done, queue, point, bestIndex, c, p);
      best' := best[p := best[c]];
    } else if best[p] > 0 && best[c] > 0 {
      var v := if best[c] < best[p] then best[c] else best[p];
      LabelLess(g, tip, bases, best, done, queue, point, bestIndex, c, p, v);
      best' := best[p := v];
    } else {
      var positive := if best[c] < 0 then best[p] else best[c];
      if bestIndex < 0 || positive < bestIndex {
        bestIndex' := positive;
      }
      LabelBranch(g, tip, bases, best, done, queue, point, bestIndex, c, p, positive, bestIndex');
      best', point' := best[p := -1], {p};
    }
  }

  /** What holds of a commit about to be done, and of those done before. */
  ghost predicate RankedDone(g: Graph, bases: seq<Commit>, best: map<Commit, int>, done: set<Commit>, c: Commit) {
    forall x, i {:trigger Reach(g, bases[i], x)} ::
      (x in done || x == c) && x in best && 0 <= i < |bases| && Reach(g, bases[i], x) ==> best[x] <= i + 1
  }

  lemma {:induction false} LabelNew(g: Graph, tip: Commit, bases: seq<Commit>, best: map<Commit, int>,
                                    done: set<Commit>, queue: set<Commit>, point: set<Commit>, bestIndex: int,
                                    c: Commit, p: Commit)
    requires Valid(g) && Strict(g) && Walking(g, tip, bases, best, done, queue, point, bestIndex)
    requires Highest(g, queue, c) && c !in point && c in g.parents
    requires g.parents[c] == [p] && p !in best && p !in done && p != c
    requires Separated(g, tip, bases, best, done + {c}) && Ranked(g, bases, best, done, point, bestIndex)
    requires RankedDone(g, bases, best, done, c)
    ensures Walking(g, tip, bases, best[p := best[c]], done + {c}, queue - {c} + {p}, point, bestIndex)
    ensures Separated(g, tip, bases, best[p := best[c]], done + {c})
    ensures Ranked(g, bases, best[p := best[c]], done + {c}, point, bestIndex)
  {
    StepNew(g, tip, bases, best, done, queue, point, bestIndex, c, p);
    SeparatedKept(g, tip, bases, best, done, c, p, best[c]);
    RankedStep(g, bases, best, done, point, bestIndex, c, p, best[c], point, bestIndex);
  }

  lemma {:induction false} LabelLess(g: Graph, tip: Commit, bases: seq<Commit>, best: map<Commit, int>,
                                     done: set<Commit>, queue: set<Commit>, point: set<Commit>, bestIndex: int,
                                     c: Commit, p: Commit, v: int)
    requires Valid(g) && Strict(g) && Walking(g, tip, bases, best, done, queue, point, bestIndex)
    requires Highest(g, queue, c) && c !in point && c in g.parents
    requires g.parents[c] == [p] && p in best && p !in done && p != c
    requires best[c] > 0 && best[p] > 0 && v == if best[c] < best[p] then best[c] else best[p]
    requires Separated(g, tip, bases, best, done + {c}) && Ranked(g, bases, best, done, point, bestIndex)
    requires RankedDone(g, bases, best, done, c)
    ensures Walking(g, tip, bases, best[p := v], done + {c}, queue - {c} + {p}, point, bestIndex)
    ensures Separated(g, tip, bases, best[p := v], done + {c})
    ensures Ranked(g, bases, best[p := v], done + {c}, point, bestIndex)
  {
    StepMinimise(g, tip, bases, best, done, queue, point, bestIndex, c, p, v);
    SeparatedKept(g, tip, bases, best, done, c, p, v);
    RankedStep(g, bases, best, done, point, bestIndex, c, p, v, point, bestIndex);
  }

  lemma {:induction false} LabelBranch(g: Graph, tip: Commit, bases: seq<Commit>, best: map<Commit, int>,
                                       done: set<Commit>, queue: set<Commit>, point: set<Commit>, bestIndex: int,
                                       c: Commit, p: Commit, positive: int, bestIndex': int)
    requires Valid(g) && Strict(g) && Walking(g, tip, bases, best, done, queue, point, bestIndex)
    requires Highest(g, queue, c) && c !in point && c in g.parents
    requires g.parents[c] == [p] && p in queue && p !in done && p != c
    requires !(best[c] > 0 && best[p] > 0) && positive == if best[c] < 0 then best[p] else best[c]
    requires bestIndex' == if bestIndex < 0 || positive < bestIndex then positive else bestIndex
    requires Separated(g, tip, bases, best, done + {c}) && Ranked(g, bases, best, done, point, bestIndex)
    requires RankedDone(g, bases, best, done, c)
    ensures Walking(g, tip, bases, best[p := -1], done + {c}, queue - {c} + {p}, {p}, bestIndex')
    ensures Separated(g, tip, bases, best[p := -1], done + {c})
    ensures Ranked(g, bases, best[p := -1], done + {c}, {p}, bestIndex')
  {
    StepBranch(g, tip, bases, best, done, queue, point, bestIndex, c, p, positive);
    SeparatedKept(g, tip, bases, best, done, c, p, -1);
    assert TrueAt(g, tip, bases, best, c) && TrueAt(g, tip, bases, best, p);
    OneSidePositive(best, queue, point, c, p);
    RerankBranch(best, point, bestIndex, c, p, positive, bestIndex');
    RankedStep(g, bases, best, done, point, bestIndex, c, p, -1, {p}, bestIndex');
  }

  /** The labels after the first `i` bases: each has its earliest index. */
  ghost predicate Labelled(tip: Commit, bases: seq<Commit>, i: nat, best: map<Commit, int>, queue: set<Commit>) {
    && i <= |bases| && best.Keys == queue && tip in best && best[tip] == -1
    && (forall c :: c in best && c != tip ==> 1 <= best[c] <= i && bases[best[c] - 1] == c)
    && (forall j {:trigger LabelledAt(tip, bases, best, j)} :: 0 <= j < i ==> LabelledAt(tip, bases, best, j))
  }

  ghost predicate LabelledAt(tip: Commit, bases: seq<Commit>, best: map<Commit, int>, j: nat) {
    j < |bases| && bases[j] in best && bases[j] != tip && 0 < best[bases[j]] <= j + 1
  }

  lemma {:induction false} LabelledMore(tip: Commit, bases: seq<Commit>, i: nat, best: map<Commit, int>,
                                        queue: set<Commit>)
    requires Labelled(tip, bases, i, best, queue) && i < |bases| && bases[i] != tip
    ensures bases[i] in best ==> Labelled(tip, bases, i + 1, best, queue)
    ensures bases[i] !in best ==> Labelled(tip, bases, i + 1, best[bases[i] := i + 1], queue + {bases[i]})
  {
    var c := bases[i];
    var best' := if c in best then best else best[c := i + 1];
    forall j | 0 <= j < i + 1 ensures LabelledAt(tip, bases, best', j) {
      assert j < i ==> LabelledAt(tip, bases, best, j);
    }
  }

  /** Labels and queue at the start; a base equal to the tip ends the search at once. */
  method Start(tip: Commit, bases: seq<Commit>) returns (best: map<Commit, int>, queue: set<Commit>, hit: int)
    ensures hit < 0 ==> Labelled(tip, bases, |bases|, best, queue)
    ensures hit >= 0 ==> hit < |bases| && bases[hit] == tip && forall i :: 0 <= i < hit ==> bases[i] != tip
  {
    best, queue, hit := map[tip := -1], {tip}, -1;
    for i := 0 to |bases|
      invariant Labelled(tip, bases, i, best, queue)
    {
      var c := bases[i];
      if c in best && best[c] == -1 {
        hit := i;
        forall j | 0 <= j < i ensures bases[j] != tip { assert LabelledAt(tip, bases, best, j); }
        return;
      }
      LabelledMore(tip, bases, i, best, queue);
      if c !in best {
        best := best[c := i + 1];
        queue := queue + {c};
      }
    }
  }

  lemma {:induction false} InitiallyWalking(g: Graph, tip: Commit, bases: seq<Commit>, best: map<Commit, int>,
                                            queue: set<Commit>)
    requires Valid(g) && tip in g.parents && forall b :: b in bases ==> b in g.parents
    requires Labelled(tip, bases, |bases|, best, queue)
    ensures Walking(g, tip, bases, best, {}, queue, {}, -1) && Separated(g, tip, bases, best, {})
    ensures Ranked(g, bases, best, {}, {}, -1) && tip !in bases
  {
    ReachSelf(g, tip);
    forall i | 0 <= i < |bases| ensures RankedBase(bases, best, {}, -1, i) && bases[i] != tip && best[bases[i]] != -1 {
      assert LabelledAt(tip, bases, best, i);
    }
    forall c | c in best ensures TrueAt(g, tip, bases, best, c) { if c != tip { ReachSelf(g, c); } }
  }

  /** The outcome of the walk in terms of first-parent histories. */
  ghost predicate Answer(g: Graph, tip: Commit, bases: seq<Commit>, index: int) {
    if index < 0 then
      index == -1 && forall i :: 0 <= i < |bases| ==> History(g, tip) !! History(g, bases[i])
    else
      && index < |bases| && History(g, tip) * History(g, bases[index]) != {}
      && (forall i :: 0 <= i < |bases| ==> Missed(g, tip, bases[index]) <= Missed(g, tip, bases[i]))
      && (Earliest(g, tip, bases, index) <==> !Shadowed(g, tip, bases))
  }

  /** How many commits of the tip's history the base's history misses. */
  ghost function Missed(g: Graph, tip: Commit, base: Commit): nat { |History(g, tip) - History(g, base)| }

  /** No earlier base does as well. */
  ghost predicate Earliest(g: Graph, tip: Commit, bases: seq<Commit>, index: nat)
    requires index < |bases|
  {
    forall i :: 0 <= i < index ==> Missed(g, tip, bases[index]) < Missed(g, tip, bases[i])
  }

  /** The tip is a base itself, and an earlier base has it in its history. */
  ghost predicate Shadowed(g: Graph, tip: Commit, bases: seq<Commit>) {
    exists i, k :: 0 <= i < k < |bases| && ShadowedBy(g, tip, bases, i, k)
  }

  ghost predicate ShadowedBy(g: Graph, tip: Commit, bases: seq<Commit>, i: nat, k: nat) {
    i < k < |bases| && bases[k] == tip && (forall j :: 0 <= j < k ==> bases[j] != tip) && Reach(g, bases[i], tip)
  }


  /** Below the branch point the histories of tip and base are the same. */
  lemma {:induction false} SharedHistory(g: Graph, tip: Commit, bases: seq<Commit>, best: map<Commit, int>,
                                         done: set<Commit>, queue: set<Commit>, point: set<Commit>, bestIndex: int,
                                         a: Commit, i: nat)
    requires Valid(g) && Strict(g) && SingleParents(g) && Walking(g, tip, bases, best, done, queue, point, bestIndex)
    requires Separated(g, tip, bases, best, done) && Highest(g, queue, a) && point == {a} && i < |bases|
    ensures History(g, tip) * History(g, bases[i]) <= History(g, a) <= History(g, tip)
    ensures a in History(g, tip) && (Reach(g, bases[i], a) ==> History(g, a) <= History(g, bases[i]))
  {
    assert a in point && TrueAt(g, tip, bases, best, a);
    ReachInGraph(g, tip, a);
    forall x | x in History(g, tip) && x in History(g, bases[i]) ensures x in History(g, a) {
      SharedBelowPoint(g, tip, bases, best, done, queue, point, bestIndex, a, i, x);
    }
    forall x | x in History(g, a) ensures x in History(g, tip) { ReachTrans(g, tip, a, x); }
    if Reach(g, bases[i], a) {
      forall x | x in History(g, a) ensures x in History(g, bases[i]) { ReachTrans(g, bases[i], a, x); }
    }
  }

  /** A base that reaches the branch point misses least, and one that does not misses more. */
  lemma {:induction false} MissedLeast(h: set<Commit>, ha: set<Commit>, hb: set<Commit>, hi: set<Commit>, a: Commit,
                                       reaches: bool)
    requires h * hb <= ha <= h && ha <= hb && h * hi <= ha && a in ha && (if reaches then ha <= hi else a !in hi)
    ensures if reaches then |h - hb| == |h - hi| else |h - hb| < |h - hi|
  {
    assert h - hb == h - ha;
    if reaches {
      assert h - hi == h - ha;
    } else {
      assert h - ha <= h - hi && a in h - hi && a !in h - ha;
      StrictSubset(h - ha, h - hi, a);
    }
  }

  lemma {:induction false} PointAnswers(g: Graph, tip: Commit, bases: seq<Commit>, best: map<Commit, int>,
                                        done: set<Commit>, queue: set<Commit>, point: set<Commit>, bestIndex: int,
                                        a: Commit)
    requires Valid(g) && Strict(g) && SingleParents(g) && Walking(g, tip, bases, best, done, queue, point, bestIndex)
    requires Separated(g, tip, bases, best, done) && Highest(g, queue, a) && a in point && tip !in bases
    requires Ranked(g, bases, best, done, point, bestIndex)
    ensures Answer(g, tip, bases, bestIndex - 1)
  {
    assert point == {a};
    var index := bestIndex - 1;
    assert Reach(g, bases[index], a);
    SharedHistory(g, tip, bases, best, done, queue, point, bestIndex, a, index);
    ReachSelf(g, a);
    assert a in History(g, tip) * History(g, bases[index]);
    forall i | 0 <= i < |bases| ensures Missed(g, tip, bases[index]) <= Missed(g, tip, bases[i])
      ensures i < index ==> Missed(g, tip, bases[index]) < Missed(g, tip, bases[i])
    {
      PointBeats(g, tip, bases, best, done, queue, point, bestIndex, a, i);
    }
    assert !Shadowed(g, tip, bases);
  }

  lemma {:induction false} PointBeats(g: Graph, tip: Commit, bases: seq<Commit>, best: map<Commit, int>,
                                      done: set<Commit>, queue: set<Commit>, point: set<Commit>, bestIndex: int,
                                      a: Commit, i: nat)
    requires Valid(g) && Strict(g) && SingleParents(g) && Walking(g, tip, bases, best, done, queue, point, bestIndex)
    requires Separated(g, tip, bases, best, done) && Highest(g, queue, a) && point == {a} && i < |bases|
    requires Ranked(g, bases, best, done, point, bestIndex)
    ensures 1 <= bestIndex <= |bases| && Missed(g, tip, bases[bestIndex - 1]) <= Missed(g, tip, bases[i])
    ensures i < bestIndex - 1 ==> Missed(g, tip, bases[bestIndex - 1]) < Missed(g, tip, bases[i])
  {
    assert a in point;
    ReachSelf(g, a);
    SharedHistory(g, tip, bases, best, done, queue, point, bestIndex, a, bestIndex - 1);
    SharedHistory(g, tip, bases, best, done, queue, point, bestIndex, a, i);
    MissedLeast(History(g, tip), History(g, a), History(g, bases[bestIndex - 1]), History(g, bases[i]), a,
                Reach(g, bases[i], a));
    if Reach(g, bases[i], a) { FrontRanked(g, tip, bases, best, done, queue, point, bestIndex, a, i); }
  }

  lemma {:induction false} DryAnswers(g: Graph, tip: Commit, bases: seq<Commit>, best: map<Commit, int>,
                                      done: set<Commit>, point: set<Commit>, bestIndex: int)
    requires Valid(g) && Walking(g, tip, bases, best, done, {}, point, bestIndex)
    requires Separated(g, tip, bases, best, done)
    ensures Answer(g, tip, bases, -1) && bestIndex == -1
  {
    forall i, x | 0 <= i < |bases| && x in History(g, tip) ensures x !in History(g, bases[i]) {
      NothingShared(g, tip, bases, best, done, point, bestIndex, i, x);
    }
    if a :| a in point {}
  }

  lemma {:induction false} TipIsBase(g: Graph, tip: Commit, bases: seq<Commit>, i: nat)
    requires tip in g.parents && i < |bases| && bases[i] == tip && forall j :: 0 <= j < i ==> bases[j] != tip
    ensures Answer(g, tip, bases, i)
  {
    ReachSelf(g, tip);
    assert tip in History(g, tip) * History(g, bases[i]);
    assert History(g, tip) - History(g, bases[i]) == {};
    forall j | 0 <= j < |bases| ensures Missed(g, tip, bases[j]) == 0 <==> Reach(g, bases[j], tip) {
      MissedNothing(g, tip, bases[j]);
    }
    if Shadowed(g, tip, bases) {
      var j, k :| 0 <= j < k < |bases| && ShadowedBy(g, tip, bases, j, k);
      assert k == i;
    } else {
      forall j | 0 <= j < i ensures Missed(g, tip, bases[i]) < Missed(g, tip, bases[j]) {
        assert !ShadowedBy(g, tip, bases, j, i);
      }
    }
  }

  lemma {:induction false} MissedNothing(g: Graph, tip: Commit, base: Commit)
    requires tip in g.parents
    ensures Missed(g, tip, base) == 0 <==> Reach(g, base, tip)
  {
    ReachSelf(g, tip);
    if Reach(g, base, tip) {
      forall x | x in History(g, tip) ensures x in History(g, base) { ReachTrans(g, base, tip, x); }
      assert History(g, tip) - History(g, base) == {};
    } else {
      assert tip in History(g, tip) - History(g, base);
    }
  }

  /** The body of the loop for a popped commit that is not the branch point. */
  method VisitPopped(g: Graph, tip: Commit, bases: seq<Commit>, best: map<Commit, int>, queue: set<Commit>,
                     point: set<Commit>, bestIndex: int, c: Commit, ghost done: set<Commit>)
    returns (best': map<Commit, int>, queue': set<Commit>, point': set<Commit>, bestIndex': int)
    requires Valid(g) && Strict(g) && SingleParents(g) && Walking(g, tip, bases, best, done, queue, point, bestIndex)
    requires Separated(g, tip, bases, best, done) && Highest(g, queue, c)
    requires c !in point && Ranked(g, bases, best, done, point, bestIndex)
    ensures Walking(g, tip, bases, best', done + {c}, queue', point', bestIndex')
    ensures Separated(g, tip, bases, best', done + {c}) && Ranked(g, bases, best', done + {c}, point', bestIndex')
    ensures |done| < |done + {c}| <= |g.parents|
  {
    PoppedSeparated(g, tip, bases, best, done, queue, point, bestIndex, c);
    RankedPop(g, tip, bases, best, done, queue, point, bestIndex, c);
    if g.parents[c] == [] {
      RankedRoot(g, bases, best, done, point, bestIndex, c);
      StepRoot(g, tip, bases, best, done, queue, point, bestIndex, c);
      best', queue', point', bestIndex' := best, queue - {c}, point, bestIndex;
    } else {
      best', queue', point', bestIndex' := LabelParent(g, tip, bases, best, queue, point, bestIndex, c, done);
    }
    DoneBounded(g, best, done, queue, c);
  }

  lemma {:induction false} DoneBounded(g: Graph, best: map<Commit, int>, done: set<Commit>, queue: set<Commit>,
                                       c: Commit)
    requires Layered(g, best, done, queue) && c in queue
    ensures |done| < |done + {c}| <= |g.parents|
  {
    QueuedNotDone(g, best, done, queue, c);
    Cardinality(done + {c}, g.parents.Keys);
  }

  /** What the loop ends with: nothing queued, or the branch point popped. */
  ghost predicate Ended(g: Graph, tip: Commit, bases: seq<Commit>, best: map<Commit, int>, done: set<Commit>,
                        queue: set<Commit>, point: set<Commit>, bestIndex: int, c: Commit, index: int) {
    && Walking(g, tip, bases, best, done, queue, point, bestIndex) && Separated(g, tip, bases, best, done)
    && Ranked(g, bases, best, done, point, bestIndex)
    && (if queue == {} then index == -1 else Highest(g, queue, c) && c in point && index == bestIndex - 1)
  }

  method Explore(g: Graph, tip: Commit, bases: seq<Commit>, best0: map<Commit, int>, queue0: set<Commit>)
    returns (index: int, ghost best: map<Commit, int>, ghost done: set<Commit>, ghost queue: set<Commit>,
      ghost point: set<Commit>,
             ghost bestIndex: int, ghost last: Commit)
    requires Valid(g) && Strict(g) && SingleParents(g)
    requires Walking(g, tip, bases, best0, {}, queue0, {}, -1)
    requires Separated(g, tip, bases, best0, {}) && Ranked(g, bases, best0, {}, {}, -1)
    ensures Ended(g, tip, bases, best, done, queue, point, bestIndex, last, index)
  {
    var b, q, pt: set<Commit>, bi := best0, queue0, {}, -1;
    done, index, last := {}, -1, tip;
    while q != {}
      invariant Walking(g, tip, bases, b, done, q, pt, bi)
      invariant Separated(g, tip, bases, b, done) && Ranked(g, bases, b, done, pt, bi)
      decreases |g.parents| - |done|
    {
      var c := PrioQueueGet(g, multiset(q), true);
      if c in pt {
        index, last := bi - 1, c;
        break;
      }
      b, q, pt, bi := VisitPopped(g, tip, bases, b, q, pt, bi, c, done);
      done := done + {c};
    }
    best, queue, point, bestIndex := b, q, pt, bi;
  }

  method Walk(g: Graph, tip: Commit, bases: seq<Commit>) returns (index: int)
    requires Valid(g) && Strict(g) && SingleParents(g) && tip in g.parents && forall b :: b in bases ==> b in g.parents
    ensures Answer(g, tip, bases, index)
  {
    var best, queue, hit := Start(tip, bases);
    if hit >= 0 {
      TipIsBase(g, tip, bases, hit);
      return hit;
    }
    InitiallyWalking(g, tip, bases, best, queue);
    ghost var b, d, q, pt, bi, c;
    index, b, d, q, pt, bi, c := Explore(g, tip, bases, best, queue);
    EndedAnswers(g, tip, bases, b, d, q, pt, bi, c, index);
  }

  lemma {:induction false} EndedAnswers(g: Graph, tip: Commit, bases: seq<Commit>, best: map<Commit, int>,
                                        done: set<Commit>, queue: set<Commit>, point: set<Commit>, bestIndex: int,
                                        c: Commit, index: int)
    requires Valid(g) && Strict(g) && SingleParents(g)
    requires Ended(g, tip, bases, best, done, queue, point, bestIndex, c, index)
    requires tip !in bases
    ensures Answer(g, tip, bases, index)
  {
    if queue == {} {
      DryAnswers(g, tip, bases, best, done, point, bestIndex);
    } else {
      PointAnswers(g, tip, bases, best, done, queue, point, bestIndex, c);
    }
  }

  /** get_branch_base_for_tip: -1 exactly if no base shares first-parent history with the tip, and
      otherwise a base whose history misses the fewest commits of the tip's. It is the earliest such
      base exactly if the tip is not a base behind another one that has it in its history. */
  method GetBranchBaseForTip(g: Graph, tip: Commit, bases: seq<Commit>) returns (index: int)
    requires Valid(g) && Strict(g) && tip in g.parents && forall b :: b in bases ==> b in g.parents
    ensures Answer(FirstParents(g), tip, bases, index)
  {
    if bases == [] {
      return -1;
    }
    FirstParentsValid(g);
    index := Walk(FirstParents(g), tip, bases);
  }

  /** Two commits, the first being the parent of the second. */
  function Pair(): Graph {
    Graph(map[Commit(0) := [], Commit(1) := [Commit(0)]], map[Commit(0) := 0, Commit(1) := 1])
  }

  lemma {:induction false} PairFacts()
    ensures Valid(Pair()) && Strict(Pair()) && Shadowed(FirstParents(Pair()), Commit(0), [Commit(1), Commit(0)])
  {
    var g := Pair();
    forall c, p | c in g.parents && p in g.parents[c] ensures !Reach(g, p, c) {
      assert p == Commit(0) && c == Commit(1);
      if Reach(g, p, c) { var _ := ReachFirst(g, p, c); }
    }
    var fp := FirstParents(g);
    FirstParentsValid(g);
    assert Commit(1) in fp.parents && fp.parents[Commit(1)] == [Commit(0)];
    ReachSelf(fp, Commit(1));
    ReachParent(fp, Commit(1), Commit(1), Commit(0));
    assert ShadowedBy(fp, Commit(0), [Commit(1), Commit(0)], 0, 1);
  }

  /** With the tip as the second base, the first one ties and is passed over. */
  method TiePassedOver() returns (index: int)
    ensures index == 1
    ensures Missed(FirstParents(Pair()), Commit(0), Commit(1)) == Missed(FirstParents(Pair()), Commit(0), Commit(0))
  {
    var g, bases := Pair(), [Commit(1), Commit(0)];
    PairFacts();
    index := GetBranchBaseForTip(g, Commit(0), bases);
    TieAnswer(FirstParents(g), bases, index);
  }

  lemma {:induction false} TieAnswer(g: Graph, bases: seq<Commit>, index: int)
    requires bases == [Commit(1), Commit(0)] && Commit(0) in g.parents
    requires Shadowed(g, Commit(0), bases) && Answer(g, Commit(0), bases, index)
    ensures index == 1 && Missed(g, Commit(0), Commit(1)) == Missed(g, Commit(0), Commit(0))
  {
    ReachSelf(g, Commit(0));
    assert Commit(0) in History(g, Commit(0)) && bases[1] == Commit(0) && bases[0] == Commit(1);
  }
}
