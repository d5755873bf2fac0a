/** Painting down to the merge bases (paint_down_to_common).

Commits carry flag bits; a walk in priority order pushes PARENT1 and PARENT2 from the
starting commits towards their ancestors and STALE below every common ancestor found.
The walk stops as soon as only STALE commits are queued, or below a minimum generation. */
module Painting {
  import opened CommitGraph
  import opened Marks

  /** Commits reachable from `one` and from some commit of `twos`. */
  ghost function CommonAncestors(g: Graph, one: Commit, twos: set<Commit>): set<Commit> {
    set c | c in g.parents && Reach(g, one, c) && ReachAny(g, twos, c)
  }

  /** Members that are not ancestors of another member. */
  ghost function Independent(g: Graph, s: set<Commit>): set<Commit> {
    set c | c in s && forall d :: d in s && d != c ==> !Reach(g, d, c)
  }

  ghost function MergeBases(g: Graph, one: Commit, twos: set<Commit>): set<Commit> {
    Independent(g, CommonAncestors(g, one, twos))
  }

  /** The flag bits of every commit, the queue and the list of found commits. */
  datatype Paint = Paint(parent1: set<Commit>, parent2: set<Commit>, stale: set<Commit>,
                         queue: multiset<Commit>, found: seq<Commit>)

  /** `c` is an ancestor of a parent of a common ancestor, so it is not a merge base. */
  ghost predicate BelowCommon(g: Graph, one: Commit, twos: set<Commit>, c: Commit) {
    exists y, p :: y in CommonAncestors(g, one, twos) && p in g.parents[y] && Reach(g, p, c)
  }

  ghost predicate AllReached(g: Graph, twos: set<Commit>, s: set<Commit>) {
    forall c :: c in s ==> ReachAny(g, twos, c)
  }

  ghost predicate AllBelowCommon(g: Graph, one: Commit, twos: set<Commit>, s: set<Commit>) {
    forall c :: c in s ==> BelowCommon(g, one, twos, c)
  }

  /** Every flag tells the truth. */
  ghost predicate Sound(g: Graph, one: Commit, twos: set<Commit>, s: Paint) {
    && AllReached(g, {one}, s.parent1)
    && AllReached(g, twos, s.parent2)
    && AllBelowCommon(g, one, twos, s.stale)
  }

  /** Bookkeeping between flags, queue and list. */
  ghost predicate Consistent(s: Paint) {
    && s.stale <= s.parent1 && s.stale <= s.parent2
    && (forall c :: c in s.queue ==> c in s.parent1 || c in s.parent2)
    && (forall c :: c in s.found ==> c in s.parent1 && c in s.parent2)
    && Distinct(s.found)
  }

  /** A commit that left the queue has handed on what it must hand on. */
  ghost predicate HandedOn(g: Graph, s: Paint, c: Commit, p: Commit) {
    && (c in s.parent1 ==> p in s.parent1)
    && (c in s.parent2 ==> p in s.parent2)
    && (c in s.parent1 && c in s.parent2 ==> p in s.stale)
  }

  ghost predicate Propagated(g: Graph, s: Paint)
  {
    && (forall c, p {:trigger p in g.parents[c]} :: c in g.parents && p in g.parents[c] && c !in s.queue ==>
       HandedOn(g, s, c, p))
    && (forall c :: c in s.parent1 && c in s.parent2 && c !in s.stale && c !in s.queue ==> c in s.found)
  }

  ghost predicate Invariant(g: Graph, one: Commit, twos: set<Commit>, s: Paint) {
    && one in s.parent1
    && twos <= s.parent2
    && Consistent(s)
    && Sound(g, one, twos, s)
    && Propagated(g, s)
  }

  /** What is true when the walk stops: everything still queued is STALE or below the
      minimum generation. */
  ghost predicate Exhausted(g: Graph, s: Paint, minGeneration: nat) {
    || (forall c :: c in s.queue ==> c in s.stale)
    || (forall c :: c in s.queue && c in g.generation ==> g.generation[c] < minGeneration)
  }

  /** One step of the walk: `c` leaves the queue and its parents receive its flags. */
  ghost predicate Step(g: Graph, s: Paint, c: Commit, t: Paint) {
    && c in g.parents && c in s.queue
    && s.parent1 <= t.parent1 && s.parent2 <= t.parent2 && s.stale <= t.stale
    && (forall x :: x in t.parent1 && x !in s.parent1 ==> x in g.parents[c] && c in s.parent1 && x in t.queue)
    && (forall x :: x in t.parent2 && x !in s.parent2 ==> x in g.parents[c] && c in s.parent2 && x in t.queue)
    && (forall x :: x in t.stale && x !in s.stale ==>
       x in g.parents[c] && c in s.parent1 && c in s.parent2 && x in t.queue)
    && (forall x :: x in t.stale && x !in s.stale ==> x in t.parent1 && x in t.parent2)
    && (forall p :: p in g.parents[c] ==> HandedOn(g, t, c, p))
    && s.queue - multiset{c} <= t.queue
    && (forall x :: x in t.queue ==> x in s.queue || x in g.parents[c])
    && (forall x :: x in t.queue ==> x in t.parent1 || x in t.parent2)
    && (if c in s.parent1 && c in s.parent2 && c !in s.stale && c !in s.found
        then t.found == s.found + [c] else t.found == s.found)
  }

  /** Handing a flag from `c` to its parents keeps the flag truthful. */
  lemma {:induction false} GrowReached(g: Graph, from: set<Commit>, s: set<Commit>, c: Commit, t: set<Commit>)
    requires Valid(g) && c in g.parents && AllReached(g, from, s)
    requires forall x :: x in t && x !in s ==> c in s && x in g.parents[c]
    ensures AllReached(g, from, t)
  {
    forall x | x in t && x !in s ensures ReachAny(g, from, x) {
      var f :| f in from && Reach(g, f, c);
      ReachParent(g, f, c, x);
    }
  }

  lemma {:induction false} GrowStale(g: Graph, one: Commit, twos: set<Commit>, s: set<Commit>, c: Commit,
                                     t: set<Commit>)
    requires Valid(g) && c in g.parents && AllBelowCommon(g, one, twos, s)
    requires forall x :: x in t && x !in s ==> x in g.parents[c]
    requires t != s ==> ReachAny(g, {one}, c) && ReachAny(g, twos, c)
    ensures AllBelowCommon(g, one, twos, t)
  {
    forall x | x in t && x !in s ensures BelowCommon(g, one, twos, x) {
      assert Reach(g, one, c);
      assert c in CommonAncestors(g, one, twos);
      ReachSelf(g, x);
    }
  }

  lemma {:induction false} StepSound(g: Graph, one: Commit, twos: set<Commit>, s: Paint, c: Commit, t: Paint)
    requires Valid(g) && Sound(g, one, twos, s) && Step(g, s, c, t)
    ensures Sound(g, one, twos, t)
  {
    GrowReached(g, {one}, s.parent1, c, t.parent1);
    GrowReached(g, twos, s.parent2, c, t.parent2);
    if t.stale != s.stale {
      var x :| x in t.stale && x !in s.stale;
    }
    GrowStale(g, one, twos, s.stale, c, t.stale);
  }

  lemma {:induction false} StepConsistent(g: Graph, s: Paint, c: Commit, t: Paint)
    requires Consistent(s) && Step(g, s, c, t)
    ensures Consistent(t)
  {
  }

  lemma {:induction false} StepPropagated(g: Graph, s: Paint, c: Commit, t: Paint)
    requires Propagated(g, s) && Step(g, s, c, t)
    ensures Propagated(g, t)
  {
    forall x | x !in t.queue && x != c ensures x !in s.queue {
      assert (s.queue - multiset{c})[x] == s.queue[x];
    }
    forall x, p | x in g.parents && p in g.parents[x] && x !in t.queue
      ensures HandedOn(g, t, x, p)
    {
      if x != c {
        assert HandedOn(g, s, x, p);
      }
    }
  }

  /** Painting is kept right by every step, whatever the queue's order. */
  lemma {:induction false} StepKeepsInvariant(g: Graph, one: Commit, twos: set<Commit>, s: Paint, c: Commit, t: Paint)
    requires Valid(g) && Invariant(g, one, twos, s) && Step(g, s, c, t)
    ensures Invariant(g, one, twos, t)
  {
    StepSound(g, one, twos, s, c, t);
    StepConsistent(g, s, c, t);
    StepPropagated(g, s, c, t);
  }

  /** Where a colour has not got to, some queued commit on the way still has to hand it on. */
  lemma {:induction false} Unfinished(g: Graph, s: Paint, flag: set<Commit>, from: Commit, to: Commit)
    returns (c: Commit)
    requires Valid(g) && Propagated(g, s) && (flag == s.parent1 || flag == s.parent2)
    requires from in flag && to !in flag && Reach(g, from, to)
    ensures c in flag && c in s.queue && c != to && Reach(g, c, to)
  {
    var p;
    c, p := Frontier(g, flag, from, to);
    assert !HandedOn(g, s, c, p);
    ReachVia(g, c, p, to);
  }

  lemma {:induction false} BelowCommonCannotReachOne(g: Graph, one: Commit, twos: set<Commit>, c: Commit)
    requires Valid(g) && BelowCommon(g, one, twos, c)
    ensures !Reach(g, c, one)
  {
    var y, q :| y in CommonAncestors(g, one, twos) && q in g.parents[y] && Reach(g, q, c);
    if Reach(g, c, one) {
      ReachTrans(g, q, c, one);
      ReachTrans(g, q, one, y);
    }
  }

  /** Whether `one` is reachable from `twos` can be read off its PARENT2 flag: neither STALE
      commits nor commits below the minimum generation can hide it. */
  lemma {:induction false} OnePainted(g: Graph, one: Commit, twos: set<Commit>, s: Paint, minGeneration: nat)
    requires Valid(g) && Sound(g, one, twos, s) && Propagated(g, s) && twos <= s.parent2
    requires Exhausted(g, s, minGeneration)
    requires one in g.parents && minGeneration <= g.generation[one]
    requires minGeneration != 0 ==> Monotone(g)
    ensures one in s.parent2 <==> ReachAny(g, twos, one)
  {
    if one !in s.parent2 && ReachAny(g, twos, one) {
      var t :| t in twos && Reach(g, t, one);
      var c := Unfinished(g, s, s.parent2, t, one);
      ReachInGraph(g, c, one);
      if c in s.stale {
        BelowCommonCannotReachOne(g, one, twos, c);
      } else {
        GenerationDescends(g, c, one);
      }
    }
  }

  lemma {:induction false} MergeBaseNotBelowCommon(g: Graph, one: Commit, twos: set<Commit>, m: Commit)
    requires Valid(g) && m in MergeBases(g, one, twos)
    ensures !BelowCommon(g, one, twos, m)
  {
    if BelowCommon(g, one, twos, m) {
      var y, p :| y in CommonAncestors(g, one, twos) && p in g.parents[y] && Reach(g, p, m);
      ReachVia(g, y, p, m);
    }
  }

  /** A colour gets to every merge base although STALE commits stay in the queue. */
  lemma {:induction false} MergeBasePainted(g: Graph, one: Commit, twos: set<Commit>, s: Paint, m: Commit,
                                            flag: set<Commit>, from: Commit)
    requires Valid(g) && Propagated(g, s)
    requires forall c :: c in s.queue ==> c in s.stale
    requires forall c :: c in s.stale ==> c in CommonAncestors(g, one, twos)
    requires m in MergeBases(g, one, twos)
    requires flag == s.parent1 || flag == s.parent2
    requires from in flag && Reach(g, from, m)
    ensures m in flag
  {
    if m !in flag {
      var _ := Unfinished(g, s, flag, from, m);
    }
  }

  lemma {:induction false} FlaggedCommon(g: Graph, one: Commit, twos: set<Commit>, s: Paint, c: Commit)
    requires Sound(g, one, twos, s) && c in s.parent1 && c in s.parent2
    ensures c in CommonAncestors(g, one, twos)
  {
    ReachInGraph(g, one, c);
  }

  /** The STALE early exit never loses a merge base. */
  lemma {:induction false} MergeBasesFound(g: Graph, one: Commit, twos: set<Commit>, s: Paint, m: Commit)
    requires Valid(g) && Invariant(g, one, twos, s) && m in MergeBases(g, one, twos)
    requires forall c :: c in s.queue ==> c in s.stale
    ensures m in s.found && m !in s.stale
  {
    forall c | c in s.stale ensures c in CommonAncestors(g, one, twos) {
      FlaggedCommon(g, one, twos, s, c);
    }
    MergeBasePainted(g, one, twos, s, m, s.parent1, one);
    var t :| t in twos && Reach(g, t, m);
    MergeBasePainted(g, one, twos, s, m, s.parent2, t);
    MergeBaseNotBelowCommon(g, one, twos, m);
  }

  function View(m: Flags, queue: multiset<Commit>, found: seq<Commit>): Paint
    reads m
  {
    Paint(m.parent1, m.parent2, m.stale, queue, found)
  }

  /** `p` already carries every flag that is to be handed to it. */
  predicate Carries(s: Paint, p: Commit, f1: bool, f2: bool, fs: bool) {
    (f1 ==> p in s.parent1) && (f2 ==> p in s.parent2) && (fs ==> p in s.stale)
  }

  /** Hand flags to one commit, queueing it if it lacked one of them. */
  function Hand(s: Paint, p: Commit, f1: bool, f2: bool, fs: bool): Paint {
    if Carries(s, p, f1, f2, fs) then s
    else s.(parent1 := if f1 then s.parent1 + {p} else s.parent1,
            parent2 := if f2 then s.parent2 + {p} else s.parent2,
            stale := if fs then s.stale + {p} else s.stale,
            queue := s.queue + multiset{p})
  }

  function HandAll(s: Paint, parents: seq<Commit>, f1: bool, f2: bool, fs: bool): Paint {
    if parents == [] then s
    else Hand(HandAll(s, parents[..|parents| - 1], f1, f2, fs), parents[|parents| - 1], f1, f2, fs)
  }

  /** One flag after handing it (if `f`) to `parents`: whoever gained it is queued. */
  ghost predicate Grew(s: set<Commit>, parents: seq<Commit>, f: bool, queue: multiset<Commit>, t: set<Commit>) {
    && s <= t
    && (forall x :: x in t && x !in s ==> f && x in parents && x in queue)
    && (forall p :: p in parents && f ==> p in t)
  }

  /** What handing flags to a list of parents does to the painting. */
  ghost predicate HandedTo(s: Paint, parents: seq<Commit>, f1: bool, f2: bool, fs: bool, t: Paint) {
    && Grew(s.parent1, parents, f1, t.queue, t.parent1)
    && Grew(s.parent2, parents, f2, t.queue, t.parent2)
    && Grew(s.stale, parents, fs, t.queue, t.stale)
    && s.queue <= t.queue
    && (forall x :: x in t.queue && x !in s.queue ==> x in parents)
    && t.found == s.found
  }

  /** A commit is queued only together with a new flag. */
  ghost predicate Progress(s: Paint, t: Paint) {
    t.queue != s.queue ==> s.parent1 < t.parent1 || s.parent2 < t.parent2 || s.stale < t.stale
  }

  lemma {:induction false} GrowOne(s: set<Commit>, parents: seq<Commit>, f: bool, queue: multiset<Commit>,
                                   t: set<Commit>, p: Commit)
    requires Grew(s, parents, f, queue, t)
    ensures Grew(s, parents + [p], f, queue + multiset{p}, if f then t + {p} else t)
    ensures (f ==> p in t) ==> Grew(s, parents + [p], f, queue, t)
  {
  }

  lemma {:induction false} HandOne(s: Paint, parents: seq<Commit>, f1: bool, f2: bool, fs: bool, t: Paint, p: Commit)
    requires HandedTo(s, parents, f1, f2, fs, t)
    ensures HandedTo(s, parents + [p], f1, f2, fs, Hand(t, p, f1, f2, fs))
  {
    GrowOne(s.parent1, parents, f1, t.queue, t.parent1, p);
    GrowOne(s.parent2, parents, f2, t.queue, t.parent2, p);
    GrowOne(s.stale, parents, fs, t.queue, t.stale, p);
  }

  lemma {:induction false} HandOneProgress(s: Paint, t: Paint, f1: bool, f2: bool, fs: bool, p: Commit)
    requires s.parent1 <= t.parent1 && s.parent2 <= t.parent2 && s.stale <= t.stale && Progress(s, t)
    ensures Progress(s, Hand(t, p, f1, f2, fs))
  {
    var u := Hand(t, p, f1, f2, fs);
    if u != t {
      if f1 && p !in t.parent1 { assert p in u.parent1 && p !in s.parent1; }
      else if f2 && p !in t.parent2 { assert p in u.parent2 && p !in s.parent2; }
      else { assert p in u.stale && p !in s.stale; }
    }
  }

  lemma {:induction false} HandAllHands(s: Paint, parents: seq<Commit>, f1: bool, f2: bool, fs: bool)
    ensures HandedTo(s, parents, f1, f2, fs, HandAll(s, parents, f1, f2, fs))
    ensures Progress(s, HandAll(s, parents, f1, f2, fs))
  {
    if parents != [] {
      var n := |parents| - 1;
      HandAllHands(s, parents[..n], f1, f2, fs);
      HandOne(s, parents[..n], f1, f2, fs, HandAll(s, parents[..n], f1, f2, fs), parents[n]);
      HandOneProgress(s, HandAll(s, parents[..n], f1, f2, fs), f1, f2, fs, parents[n]);
      assert parents[..n] + [parents[n]] == parents;
    }
  }

  /** Handing the flags of `c` (with STALE below a common ancestor) to its parents. */
  method PushParents(parents: seq<Commit>, m: Flags, queue: multiset<Commit>, f1: bool, f2: bool, fs: bool,
                     ghost found: seq<Commit>)
    returns (queue': multiset<Commit>)
    modifies m`parent1, m`parent2, m`stale
    ensures View(m, queue', found) == HandAll(old(View(m, queue, found)), parents, f1, f2, fs)
  {
    queue' := queue;
    for k := 0 to |parents|
      invariant View(m, queue', found) == HandAll(old(View(m, queue, found)), parents[..k], f1, f2, fs)
    {
      var p := parents[k];
      assert parents[..k + 1][..k] == parents[..k];
      if (f1 ==> p in m.parent1) && (f2 ==> p in m.parent2) && (fs ==> p in m.stale) {
        continue;
      }
      if f1 { m.parent1 := m.parent1 + {p}; }
      if f2 { m.parent2 := m.parent2 + {p}; }
      if fs { m.stale := m.stale + {p}; }
      queue' := queue' + multiset{p};
    }
    assert parents[..|parents|] == parents;
  }

  /** What leaves the queue: one occurrence of `c`, listed if it is a new common ancestor. */
  function Taken(s: Paint, c: Commit): Paint {
    s.(queue := s.queue - multiset{c},
       found := if c in s.parent1 && c in s.parent2 && c !in s.stale && c !in s.found then s.found + [c] else s.found)
  }

  /** The painting after `c` has been taken from the queue and has handed on its flags. */
  function Visited(g: Graph, s: Paint, c: Commit): Paint
    requires c in g.parents
  {
    HandAll(Taken(s, c), g.parents[c], c in s.parent1, c in s.parent2, c in s.parent1 && c in s.parent2)
  }

  lemma {:induction false} HandedIsStep(g: Graph, s: Paint, c: Commit, t: Paint)
    requires Consistent(s) && c in g.parents && c in s.queue
    requires HandedTo(Taken(s, c), g.parents[c], c in s.parent1, c in s.parent2, c in s.parent1 && c in s.parent2, t)
    ensures Step(g, s, c, t)
  {
  }

  lemma {:induction false} VisitedIsStep(g: Graph, s: Paint, c: Commit)
    requires Consistent(s) && c in g.parents && c in s.queue
    ensures Step(g, s, c, Visited(g, s, c))
    ensures Progress(Taken(s, c), Visited(g, s, c))
  {
    HandAllHands(Taken(s, c), g.parents[c], c in s.parent1, c in s.parent2, c in s.parent1 && c in s.parent2);
    HandedIsStep(g, s, c, Visited(g, s, c));
  }

  ghost function Flagged(s: Paint): set<Commit> {
    s.parent1 + s.parent2
  }

  lemma {:induction false} StepRooted(g: Graph, starts: set<Commit>, s: Paint, c: Commit, t: Paint)
    requires Rooted(g, starts, Flagged(s)) && Step(g, s, c, t)
    ensures Rooted(g, starts, Flagged(t))
  {
    forall x | x in Flagged(t) && x !in starts
      ensures HasMarkedChild(g, Flagged(t), x)
    {
      if x in Flagged(s) {
        assert HasMarkedChild(g, Flagged(s), x);
        var d :| d in Flagged(s) && d in g.parents && x in g.parents[d];
        assert d in Flagged(t);
      } else {
        assert c in Flagged(t);
      }
    }
  }

  /** How many flag bits are still unset: the walk's termination measure. */
  ghost function Unset(g: Graph, s: Paint): int {
    3 * |g.parents| - |s.parent1| - |s.parent2| - |s.stale|
  }

  lemma {:induction false} UnsetBounded(g: Graph, s: Paint)
    requires s.parent1 <= g.parents.Keys && s.parent2 <= g.parents.Keys && s.stale <= g.parents.Keys
    ensures Unset(g, s) >= 0
  {
    Cardinality(s.parent1, g.parents.Keys);
    Cardinality(s.parent2, g.parents.Keys);
    Cardinality(s.stale, g.parents.Keys);
  }

  lemma {:induction false} UnsetShrinks(g: Graph, s: Paint, t: Paint)
    requires s.parent1 <= t.parent1 && s.parent2 <= t.parent2 && s.stale <= t.stale
    ensures Unset(g, t) <= Unset(g, s)
    ensures s.parent1 < t.parent1 || s.parent2 < t.parent2 || s.stale < t.stale ==> Unset(g, t) < Unset(g, s)
  {
    Cardinality(s.parent1, t.parent1);
    Cardinality(s.parent2, t.parent2);
    Cardinality(s.stale, t.stale);
    if s.parent1 < t.parent1 { var x :| x in t.parent1 && x !in s.parent1; StrictSubset(s.parent1, t.parent1, x); }
    if s.parent2 < t.parent2 { var x :| x in t.parent2 && x !in s.parent2; StrictSubset(s.parent2, t.parent2, x); }
    if s.stale < t.stale { var x :| x in t.stale && x !in s.stale; StrictSubset(s.stale, t.stale, x); }
  }

  lemma {:induction false} FlaggedInGraph(g: Graph, one: Commit, twos: set<Commit>, s: Paint)
    requires Sound(g, one, twos, s) && Consistent(s)
    ensures s.parent1 <= g.parents.Keys && s.parent2 <= g.parents.Keys && s.stale <= g.parents.Keys
    ensures forall c :: c in s.queue ==> c in g.parents
  {
    forall c | c in s.parent1 ensures c in g.parents { ReachInGraph(g, one, c); }
    forall c | c in s.parent2 ensures c in g.parents {
      var f :| f in twos && Reach(g, f, c);
      ReachInGraph(g, f, c);
    }
  }

  /** What holds all through the walk. */
  ghost predicate Walking(g: Graph, one: Commit, twos: set<Commit>, minGeneration: nat, lastGeneration: nat, s: Paint) {
    && Invariant(g, one, twos, s)
    && Rooted(g, {one} + twos, Flagged(s))
    && (minGeneration != 0 ==> forall c :: c in s.queue && c in g.generation ==> g.generation[c] <= lastGeneration)
  }

  lemma {:induction false} SelfReached(g: Graph, s: set<Commit>)
    requires s <= g.parents.Keys
    ensures AllReached(g, s, s)
  {
    forall c | c in s ensures ReachAny(g, s, c) { ReachSelf(g, c); }
  }

  lemma {:induction false} InitiallyPropagated(g: Graph, s: Paint)
    requires forall c :: c in s.parent1 || c in s.parent2 ==> c in s.queue
    ensures Propagated(g, s)
  {
  }

  lemma {:induction false} GenerationsBounded(g: Graph)
    requires Valid(g) && Monotone(g)
    ensures forall c :: c in g.generation ==> g.generation[c] <= GENERATION_NUMBER_INFINITY
  {
    forall c | c in g.generation ensures g.generation[c] <= GENERATION_NUMBER_INFINITY {
      assert c in g.parents.Keys;
    }
  }

  lemma {:induction false} InitiallyWalking(g: Graph, one: Commit, twos: set<Commit>, minGeneration: nat, s: Paint)
    requires Valid(g) && one in g.parents && twos <= g.parents.Keys
    requires minGeneration != 0 ==> Monotone(g)
    requires s.parent1 == {one} && s.parent2 == twos && s.stale == {} && s.found == []
    requires forall c :: c in s.queue <==> c == one || c in twos
    ensures Walking(g, one, twos, minGeneration, GENERATION_NUMBER_INFINITY, s)
  {
    SelfReached(g, {one});
    SelfReached(g, twos);
    InitiallyPropagated(g, s);
    AllPendingRooted(g, {one} + twos, Flagged(s));
    if minGeneration != 0 { GenerationsBounded(g); }
  }

  /** Every step keeps the walk's invariant, in any order that respects the comparator, and
      either sets a new flag bit or shortens the queue. */
  lemma {:induction false} VisitKeepsWalking(g: Graph, one: Commit, twos: set<Commit>, minGeneration: nat,
                                             lastGeneration: nat, s: Paint, c: Commit)
    requires Valid(g) && Walking(g, one, twos, minGeneration, lastGeneration, s)
    requires minGeneration != 0 ==> Monotone(g)
    requires c in s.queue && c in g.parents
    requires minGeneration != 0 ==> forall d :: d in s.queue && d in g.generation ==> g.generation[d] <= g.generation[c]
    ensures Walking(g, one, twos, minGeneration, g.generation[c], Visited(g, s, c))
    ensures 0 <= Unset(g, Visited(g, s, c)) <= Unset(g, s)
    ensures Unset(g, Visited(g, s, c)) == Unset(g, s) ==> |Visited(g, s, c).queue| < |s.queue|
  {
    var t := Visited(g, s, c);
    VisitedIsStep(g, s, c);
    StepKeepsInvariant(g, one, twos, s, c, t);
    StepRooted(g, {one} + twos, s, c, t);
    UnsetShrinks(g, Taken(s, c), t);
    FlaggedInGraph(g, one, twos, t);
    UnsetBounded(g, t);
  }

  /** What a finished painting tells its callers. */
  ghost predicate Painted(g: Graph, one: Commit, twos: set<Commit>, minGeneration: nat, s: Paint) {
    && Invariant(g, one, twos, s) && Exhausted(g, s, minGeneration)
    && Rooted(g, {one} + twos, Flagged(s))
  }

  /** The body of the painting loop for the commit taken from the queue. */
  method Visit(g: Graph, c: Commit, m: Flags, queue: multiset<Commit>, list: seq<Commit>)
    returns (queue': multiset<Commit>, list': seq<Commit>)
    requires c in g.parents && m.result == Elements(list)
    requires Consistent(View(m, queue, list))
    modifies m
    ensures View(m, queue', list') == Visited(g, old(View(m, queue, list)), c)
    ensures m.result == Elements(list')
  {
    queue', list' := queue - multiset{c}, list;
    var f1, f2, fs := c in m.parent1, c in m.parent2, c in m.stale;
    if f1 && f2 && !fs {
      if c !in m.result {
        m.result := m.result + {c};
        list' := list + [c];
      }
      fs := true;
    }
    queue' := PushParents(g.parents[c], m, queue', f1, f2, fs, list');
  }

  method StartPainting(one: Commit, twos: seq<Commit>, m: Flags) returns (queue: multiset<Commit>)
    requires m.Clean()
    modifies m`parent1, m`parent2
    ensures m.parent1 == {one} && m.parent2 == Elements(twos)
    ensures forall c :: c in queue <==> c == one || c in twos
  {
    m.parent1 := m.parent1 + {one};
    queue := multiset{one};
    for i := 0 to |twos|
      invariant m.parent1 == {one} && m.parent2 == Elements(twos[..i])
      invariant forall c :: c in queue <==> c == one || c in twos[..i]
    {
      m.parent2 := m.parent2 + {twos[i]};
      queue := queue + multiset{twos[i]};
      assert twos[..i + 1] == twos[..i] + [twos[i]];
    }
    assert twos[..|twos|] == twos;
  }

  method PaintDownToCommon(g: Graph, one: Commit, twos: seq<Commit>, minGeneration: nat, m: Flags)
    returns (list: seq<Commit>, ghost last: Paint)
    requires Valid(g) && one in g.parents && forall t :: t in twos ==> t in g.parents
    requires minGeneration != 0 ==> Monotone(g)
    requires m.Clean()
    modifies m
    ensures m.result == if twos == [] then {} else Elements(list)
    ensures twos == [] ==> list == [one] && m.parent1 == {one} && m.parent2 == {} && m.stale == {}
    ensures twos != [] ==> last == View(m, last.queue, list) && Painted(g, one, Elements(twos), minGeneration, last)
  {
    var queue := StartPainting(one, twos, m);
    last := View(m, queue, []);
    if twos == [] {
      return [one], last;
    }
    list := [];
    var lastGeneration: nat := GENERATION_NUMBER_INFINITY;
    ghost var starts := Elements(twos);
    InitiallyWalking(g, one, starts, minGeneration, last);
    while exists c :: c in queue && c !in m.stale
      invariant last == View(m, queue, list) && m.result == Elements(list)
      invariant Walking(g, one, starts, minGeneration, lastGeneration, last)
      decreases Unset(g, last), |queue|
    {
      FlaggedInGraph(g, one, starts, last);
      var c := PrioQueueGet(g, queue, minGeneration != 0);
      var generation := g.generation[c];
      // BUG("bad generation skip") is unreachable
      assert !(minGeneration != 0 && generation > lastGeneration);
      VisitKeepsWalking(g, one, starts, minGeneration, lastGeneration, last, c);
      lastGeneration := generation;
      if generation < minGeneration {
        break;
      }
      queue, list := Visit(g, c, m, queue, list);
      last := View(m, queue, list);
    }
  }
}
