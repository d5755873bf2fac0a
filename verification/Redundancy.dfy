/** Dropping commits that are ancestors of other commits of a list (remove_redundant). */
module Redundancy {
  import opened CommitGraph
  import opened Marks
  import opened Painting

  /** The members of `list` that belong to `s`, in order. */
  function Keep(list: seq<Commit>, s: set<Commit>): seq<Commit> {
    if list == [] then []
    else
      var init := Keep(list[..|list| - 1], s);
      var c := list[|list| - 1];
      if c in s then init + [c] else init
  }

  lemma {:induction false} KeepElements(list: seq<Commit>, s: set<Commit>)
    ensures forall c :: c in Keep(list, s) <==> c in list && c in s
  {
    if list != [] {
      var n := |list| - 1;
      KeepElements(list[..n], s);
      assert list == list[..n] + [list[n]];
    }
  }

  lemma {:induction false} KeepDistinct(list: seq<Commit>, s: set<Commit>)
    requires Distinct(list)
    ensures Distinct(Keep(list, s))
  {
    if list != [] {
      var n := |list| - 1;
      KeepDistinct(list[..n], s);
      KeepElements(list[..n], s);
      assert list[n] !in list[..n];
    }
  }

  lemma {:induction false} KeepSame(list: seq<Commit>, s: set<Commit>, t: set<Commit>)
    requires forall c :: c in list ==> (c in s <==> c in t)
    ensures Keep(list, s) == Keep(list, t)
  {
    if list != [] {
      var n := |list| - 1;
      assert forall c :: c in list[..n] ==> c in list;
      KeepSame(list[..n], s, t);
    }
  }

  /** A member reached by another one is also reached by an independent one. */
  lemma {:induction false} ReachedByIndependent(g: Graph, s: set<Commit>, x: Commit) returns (m: Commit)
    requires Valid(g) && s <= g.parents.Keys && x in s && x !in Independent(g, s)
    ensures m in Independent(g, s) && m != x && Reach(g, m, x)
  {
    var d :| d in s && d != x && Reach(g, d, x);
    m := TopAbove(g, s, d);
    ReachTrans(g, m, d, x);
  }

  /** Compaction of the survivors to the front of the array. */
  method Compact(a: array<Commit>, keep: set<Commit>) returns (count: nat)
    modifies a
    ensures count <= a.Length
    ensures a[..count] == Keep(old(a[..]), keep)
  {
    count := 0;
    ghost var was := a[..];
    for i := 0 to a.Length
      invariant count <= i
      invariant a[..count] == Keep(was[..i], keep)
      invariant a[i..] == was[i..]
    {
      assert was[..i + 1][..i] == was[..i];
      assert a[i] == a[i..][0];
      if a[i] in keep {
        assert a[i + 1..] == was[i + 1..] by { assert a[i..][1..] == a[i + 1..]; }
        a[count] := a[i];
        count := count + 1;
      }
      assert a[i + 1..] == was[i + 1..] by { assert was[i..][1..] == was[i + 1..]; }
    }
    assert was[..a.Length] == was;
  }

  lemma {:induction false} BelowOne(g: Graph, one: Commit, s: set<Commit>, c: Commit)
    requires AllReached(g, {one}, s) && c in s
    ensures Reach(g, one, c)
  {
  }

  /** Every flag of a painting can be cleared again from its starting commits. */
  lemma {:induction false} PaintedCanBeCleared(g: Graph, one: Commit, twos: set<Commit>, s: Paint, marked: set<Commit>)
    requires Sound(g, one, twos, s) && Consistent(s) && Rooted(g, {one} + twos, Flagged(s))
    requires marked == s.parent1 + s.parent2 + s.stale + Elements(s.found)
    ensures marked <= g.parents.Keys && Rooted(g, {one} + twos, marked)
  {
    FlaggedInGraph(g, one, twos, s);
    assert marked == Flagged(s);
  }

  /** Painting summed up: PARENT2 on `one` is exact, PARENT1 is truthful, and every flag can
      be cleared from the starting commits. */
  method PaintAndRead(g: Graph, one: Commit, twos: seq<Commit>, minGeneration: nat, m: Flags)
    returns (reached: bool, below: set<Commit>)
    requires Valid(g) && one in g.parents && forall t :: t in twos ==> t in g.parents
    requires minGeneration <= g.generation[one] && (minGeneration != 0 ==> Monotone(g))
    requires m.Clean()
    modifies m
    ensures reached <==> ReachAny(g, Elements(twos), one)
    ensures AllReached(g, {one}, below)
    ensures m.Marked() <= g.parents.Keys && Rooted(g, {one} + Elements(twos), m.Marked())
  {
    var list, last := PaintDownToCommon(g, one, twos, minGeneration, m);
    reached, below := one in m.parent2, m.parent1;
    if twos != [] {
      OnePainted(g, one, Elements(twos), last, minGeneration);
      PaintedCanBeCleared(g, one, Elements(twos), last, m.Marked());
    } else {
      ReachSelf(g, one);
    }
  }

  /** Paint, read PARENT2 off `one` and PARENT1 off everything, and clear the flags. */
  method PaintReadClear(g: Graph, one: Commit, twos: seq<Commit>, minGeneration: nat, m: Flags)
    returns (reached: bool, below: set<Commit>)
    requires Valid(g) && one in g.parents && forall t :: t in twos ==> t in g.parents
    requires minGeneration <= g.generation[one] && (minGeneration != 0 ==> Monotone(g))
    requires m.Clean()
    modifies m
    ensures m.Clean()
    ensures reached <==> ReachAny(g, Elements(twos), one)
    ensures forall c :: c in below ==> Reach(g, one, c)
  {
    reached, below := PaintAndRead(g, one, twos, minGeneration, m);
    assert Elements([one] + twos) == {one} + Elements(twos);
    ClearAllFlags(g, [one] + twos, m);
    forall c | c in below ensures Reach(g, one, c) { BelowOne(g, one, below, c); }
  }

  /** The other candidates still standing, their positions and the least generation. */
  method OtherCandidates(g: Graph, list: seq<Commit>, redundant: seq<bool>, i: nat)
    returns (work: seq<Commit>, index: seq<nat>, minGeneration: nat)
    requires |redundant| == |list| && i < |list|
    requires forall c :: c in list ==> c in g.generation
    ensures |work| == |index|
    ensures forall k :: 0 <= k < |work| ==> index[k] < |list| && index[k] != i && work[k] == list[index[k]]
    ensures forall j :: 0 <= j < |list| && j != i && !redundant[j] ==> list[j] in work
    ensures minGeneration <= g.generation[list[i]]
  {
    work, index, minGeneration := [], [], g.generation[list[i]];
    for j := 0 to |list|
      invariant |work| == |index|
      invariant forall k :: 0 <= k < |work| ==> index[k] < |list| && index[k] != i && work[k] == list[index[k]]
      invariant forall k :: 0 <= k < j && k != i && !redundant[k] ==> list[k] in work
      invariant minGeneration <= g.generation[list[i]]
    {
      if i == j || redundant[j] {
        continue;
      }
      index := index + [j];
      work := work + [list[j]];
      if g.generation[list[j]] < minGeneration {
        minGeneration := g.generation[list[j]];
      }
    }
  }

  /** Entries marked redundant are not independent; of the first `i` entries the others are. */
  ghost predicate Sifted(g: Graph, list: seq<Commit>, redundant: seq<bool>, i: nat)
    requires |redundant| == |list|
  {
    && (forall j :: 0 <= j < |list| && redundant[j] ==> list[j] !in Independent(g, Elements(list)))
    && (forall j :: 0 <= j < |list| && j < i && !redundant[j] ==> list[j] in Independent(g, Elements(list)))
  }

  /** An entry is independent if no candidate still standing reaches it: entries already
      marked redundant need not be looked at again. */
  lemma {:induction false} StandingSuffice(g: Graph, list: seq<Commit>, redundant: seq<bool>, i: nat, work: set<Commit>)
    requires Valid(g) && |redundant| == |list| && i < |list| && Elements(list) <= g.parents.Keys
    requires Sifted(g, list, redundant, i)
    requires forall j :: 0 <= j < |list| && j != i && !redundant[j] ==> list[j] in work
    requires !ReachAny(g, work, list[i])
    ensures list[i] in Independent(g, Elements(list))
  {
    if list[i] !in Independent(g, Elements(list)) {
      var _ := ReachedByIndependent(g, Elements(list), list[i]);
    }
  }

  lemma {:induction false} NotIndependent(g: Graph, s: set<Commit>, d: Commit, x: Commit)
    requires d in s && d != x && Reach(g, d, x)
    ensures x !in Independent(g, s)
  {
  }

  /** remove_redundant_no_gen: paint once from every entry not yet known to be redundant. */
  method RemoveRedundantNoGen(g: Graph, a: array<Commit>, m: Flags) returns (count: nat)
    requires Valid(g) && Monotone(g) && m.Clean()
    requires Distinct(a[..]) && forall c :: c in a[..] ==> c in g.parents
    modifies a, m
    ensures count <= a.Length && m.Clean()
    ensures a[..count] == Keep(old(a[..]), Independent(g, Elements(old(a[..]))))
  {
    var list := a[..];
    var redundant := seq(|list|, _ => false);
    for i := 0 to |list|
      invariant a[..] == list && m.Clean()
      invariant |redundant| == |list| && Sifted(g, list, redundant, i)
    {
      if redundant[i] {
        continue;
      }
      var work, index, minGeneration := OtherCandidates(g, list, redundant, i);
      var reached, below := PaintReadClear(g, list[i], work, minGeneration, m);
      redundant := MarkRedundant(g, list, redundant, i, work, index, reached, below);
    }
    ghost var independent := Independent(g, Elements(list));
    var keep := set i | 0 <= i < |list| && !redundant[i] :: list[i];
    KeepSame(list, keep, independent);
    count := Compact(a, keep);
  }

  /** Reading the flags of one painting into the redundancy table. */
  method MarkRedundant(g: Graph, list: seq<Commit>, redundant: seq<bool>, i: nat, work: seq<Commit>, index: seq<nat>,
                       reached: bool, below: set<Commit>)
    returns (redundant': seq<bool>)
    requires Valid(g) && Distinct(list) && forall c :: c in list ==> c in g.parents
    requires |redundant| == |list| && i < |list| && Sifted(g, list, redundant, i)
    requires |work| == |index|
    requires forall k :: 0 <= k < |work| ==> index[k] < |list| && index[k] != i && work[k] == list[index[k]]
    requires forall j :: 0 <= j < |list| && j != i && !redundant[j] ==> list[j] in work
    requires reached <==> ReachAny(g, Elements(work), list[i])
    requires forall c :: c in below ==> Reach(g, list[i], c)
    ensures |redundant'| == |list| && Sifted(g, list, redundant', i + 1)
  {
    redundant' := redundant;
    if reached {
      ghost var d :| d in Elements(work) && Reach(g, d, list[i]);
      NotIndependent(g, Elements(list), d, list[i]);
      redundant' := redundant'[i := true];
    } else {
      StandingSuffice(g, list, redundant, i, Elements(work));
    }
    for j := 0 to |work|
      invariant |redundant'| == |list| && Sifted(g, list, redundant', i + 1)
    {
      if work[j] in below {
        NotIndependent(g, Elements(list), list[i], list[index[j]]);
        redundant' := redundant'[index[j] := true];
      }
    }
  }

  // remove_redundant_with_gen

  /** `c` is an ancestor of a parent of an input. */
  ghost predicate BelowInput(g: Graph, inputs: set<Commit>, c: Commit) {
    exists b, p :: b in inputs && b in g.parents && p in g.parents[b] && Reach(g, p, c)
  }

  ghost function AllBelowInput(g: Graph, inputs: set<Commit>): set<Commit> {
    set c | c in g.parents && BelowInput(g, inputs, c)
  }

  ghost predicate ParentClosed(g: Graph, s: set<Commit>) {
    s <= g.parents.Keys && forall c, p {:trigger p in g.parents[c]} ::
      c in s && c in g.parents && p in g.parents[c] ==> p in s
  }

  lemma {:induction false} AllBelowInputClosed(g: Graph, inputs: set<Commit>)
    requires Valid(g)
    ensures ParentClosed(g, AllBelowInput(g, inputs))
    ensures forall b, p :: b in inputs && b in g.parents && p in g.parents[b] ==> p in AllBelowInput(g, inputs)
  {
    forall c, p | c in AllBelowInput(g, inputs) && p in g.parents[c] ensures p in AllBelowInput(g, inputs) {
      var b, q :| b in inputs && b in g.parents && q in g.parents[b] && Reach(g, q, c);
      ReachParent(g, q, c, p);
    }
    forall b, p | b in inputs && b in g.parents && p in g.parents[b] ensures p in AllBelowInput(g, inputs) {
      ReachSelf(g, p);
    }
  }

  /** `sorted` lists the inputs by generation; the first `pos` of them are STALE, and an input
      that lost its RESULT bit is STALE. */
  ghost predicate Filtering(inputs: set<Commit>, below: set<Commit>, sorted: seq<Commit>, stale: set<Commit>,
                            result: set<Commit>, pos: nat) {
    && stale <= below
    && result <= inputs && (forall c :: c in inputs ==> c in result || c in stale)
    && pos < |sorted| && (forall k :: 0 <= k < pos ==> sorted[k] in stale)
    && (forall c :: c in sorted <==> c in inputs)
  }

  /** STALE commits off the stack have made their parents STALE, unless cut off. */
  ghost predicate Expanded(g: Graph, stale: set<Commit>, minGeneration: nat, stack: seq<Commit>) {
    forall c {:trigger c in stale} :: c in stale && c !in stack && c in g.parents && c in g.generation ==>
      g.generation[c] < minGeneration || forall p :: p in g.parents[c] ==> p in stale
  }

  lemma {:induction false} StaleNotIndependent(g: Graph, inputs: set<Commit>, x: Commit)
    requires Valid(g) && x in inputs && BelowInput(g, inputs, x)
    ensures x !in Independent(g, inputs)
  {
    var b, p :| b in inputs && b in g.parents && p in g.parents[b] && Reach(g, p, x);
    ReachVia(g, b, p, x);
  }

  /** The early exit at one survivor: only an independent input can be left. */
  lemma {:induction false} OneSurvivor(g: Graph, inputs: set<Commit>, sorted: seq<Commit>, stale: set<Commit>,
                                       result: set<Commit>, pos: nat, x: Commit)
    requires Valid(g) && inputs <= g.parents.Keys
    requires Filtering(inputs, AllBelowInput(g, inputs), sorted, stale, result, pos)
    requires |result| <= 1 && x in inputs && x !in Independent(g, inputs)
    ensures x in stale
  {
    var top := ReachedByIndependent(g, inputs, x);
    if top in stale { StaleNotIndependent(g, inputs, top); }
    if x in result {
      assert {top, x} <= result;
      Cardinality({top, x}, result);
    }
  }

  /** The complete walk: the moving minimum generation cuts off only inputs already STALE. */
  lemma {:induction false} WalkComplete(g: Graph, inputs: set<Commit>, sorted: seq<Commit>, stale: set<Commit>,
                                        result: set<Commit>, pos: nat, x: Commit)
    requires Valid(g) && Monotone(g) && inputs <= g.parents.Keys
    requires Filtering(inputs, AllBelowInput(g, inputs), sorted, stale, result, pos)
    requires Ascending(g, sorted) && Expanded(g, stale, g.generation[sorted[pos]], [])
    requires forall b, p :: b in inputs && p in g.parents[b] ==> p in stale
    requires x in inputs && x !in Independent(g, inputs)
    ensures x in stale
  {
    var d :| d in inputs && d != x && Reach(g, d, x);
    var p := ReachFirst(g, d, x);
    if x !in stale {
      var c, q := Frontier(g, stale, p, x);
      ReachVia(g, c, q, x);
      GenerationDescends(g, c, x);
    }
  }

  method FirstNotStale(parents: seq<Commit>, stale: set<Commit>) returns (k: nat)
    ensures k <= |parents| && forall j :: 0 <= j < k ==> parents[j] in stale
    ensures k < |parents| ==> parents[k] !in stale
  {
    k := 0;
    while k < |parents| && parents[k] in stale
      invariant k <= |parents| && forall j :: 0 <= j < k ==> parents[j] in stale
    {
      k := k + 1;
    }
  }

  method AdvanceMinimum(sorted: seq<Commit>, stale: set<Commit>, pos: nat) returns (pos': nat)
    requires pos < |sorted| && forall k :: 0 <= k < pos ==> sorted[k] in stale
    ensures pos <= pos' < |sorted| && forall k :: 0 <= k < pos' ==> sorted[k] in stale
  {
    pos' := pos;
    while pos' < |sorted| - 1 && sorted[pos'] in stale
      invariant pos <= pos' < |sorted| && forall k :: 0 <= k < pos' ==> sorted[k] in stale
    {
      pos' := pos' + 1;
    }
  }

  lemma {:induction false} RootedGrows(g: Graph, roots: set<Commit>, stale: set<Commit>, p: Commit)
    requires Rooted(g, roots, stale)
    requires p in roots || HasMarkedChild(g, stale, p)
    ensures Rooted(g, roots, stale + {p})
  {
    forall x | x in stale + {p} && x !in roots
      ensures HasMarkedChild(g, stale + {p}, x)
    {
      assert HasMarkedChild(g, stale, x);
      var c :| c in stale && c in g.parents && x in g.parents[c];
      assert c in stale + {p};
    }
  }

  /** The invariant of the depth-first walk. */
  ghost predicate Pushing(g: Graph, inputs: set<Commit>, below: set<Commit>, roots: set<Commit>, sorted: seq<Commit>,
                          stale: set<Commit>, result: set<Commit>, pos: nat, stack: seq<Commit>)
  {
    && Filtering(inputs, below, sorted, stale, result, pos)
    && sorted[pos] in g.generation
    && Expanded(g, stale, g.generation[sorted[pos]], stack)
    && Rooted(g, roots, stale)
    && (forall i :: 0 <= i < |stack| ==> stack[i] in stale)
  }

  lemma {:induction false} PushingDrop(g: Graph, inputs: set<Commit>, below: set<Commit>, roots: set<Commit>,
                                       sorted: seq<Commit>, stale: set<Commit>, result: set<Commit>, pos: nat,
                                       stack: seq<Commit>, c: Commit)
    requires Pushing(g, inputs, below, roots, sorted, stale, result, pos, stack) && c in stale && c in result
    ensures Pushing(g, inputs, below, roots, sorted, stale, result - {c}, pos, stack) && |result - {c}| == |result| - 1
  {
  }

  lemma {:induction false} PushingAdvance(g: Graph, inputs: set<Commit>, below: set<Commit>, roots: set<Commit>,
                                          sorted: seq<Commit>, stale: set<Commit>, result: set<Commit>, pos: nat,
                                          stack: seq<Commit>, pos': nat)
    requires Pushing(g, inputs, below, roots, sorted, stale, result, pos, stack)
    requires (forall c :: c in sorted ==> c in g.generation) && Ascending(g, sorted)
    requires pos <= pos' < |sorted| && forall k :: 0 <= k < pos' ==> sorted[k] in stale
    ensures Pushing(g, inputs, below, roots, sorted, stale, result, pos', stack)
  {
  }

  lemma {:induction false} PushingPop(g: Graph, inputs: set<Commit>, below: set<Commit>, roots: set<Commit>,
                                      sorted: seq<Commit>, stale: set<Commit>, result: set<Commit>, pos: nat,
                                      stack: seq<Commit>)
    requires Pushing(g, inputs, below, roots, sorted, stale, result, pos, stack)
    requires stack != [] && stack[0] in g.parents && stack[0] in g.generation
    requires g.generation[stack[0]] < g.generation[sorted[pos]] || forall p :: p in g.parents[stack[0]] ==> p in stale
    ensures Pushing(g, inputs, below, roots, sorted, stale, result, pos, stack[1..])
  {
    assert stack == [stack[0]] + stack[1..];
  }

  lemma {:induction false} PushingPush(g: Graph, inputs: set<Commit>, below: set<Commit>, roots: set<Commit>,
                                       sorted: seq<Commit>, stale: set<Commit>, result: set<Commit>, pos: nat,
                                       stack: seq<Commit>, p: Commit)
    requires Pushing(g, inputs, below, roots, sorted, stale, result, pos, stack)
    requires p in below && (p in roots || HasMarkedChild(g, stale, p))
    ensures Pushing(g, inputs, below, roots, sorted, stale + {p}, result, pos, [p] + stack)
    ensures |stale + {p}| <= |below| && (p !in stale ==> |stale + {p}| == |stale| + 1)
  {
    RootedGrows(g, roots, stale, p);
    Cardinality(stale + {p}, below);
  }

  /** Depth-first push of the STALE bit from `start` down to the minimum generation. */
  method PushStale(g: Graph, start: Commit, ghost inputs: set<Commit>, ghost below: set<Commit>,
                   ghost roots: set<Commit>, sorted: seq<Commit>, m: Flags, pos: nat, count: nat)
    returns (pos': nat, count': nat)
    requires ParentClosed(g, below) && below <= g.generation.Keys
    requires (forall c :: c in sorted ==> c in g.generation) && Ascending(g, sorted)
    requires Pushing(g, inputs, below, roots, sorted, m.stale, m.result, pos, [])
    requires start in roots && start in below && count > 1 && count >= |m.result|
    modifies m`stale, m`result
    ensures Filtering(inputs, below, sorted, m.stale, m.result, pos') && Rooted(g, roots, m.stale)
    ensures old(m.stale) <= m.stale && start in m.stale
    ensures count' >= |m.result|
    ensures count' > 1 ==> Pushing(g, inputs, below, roots, sorted, m.stale, m.result, pos', [])
  {
    pos', count' := pos, count;
    PushingPush(g, inputs, below, roots, sorted, m.stale, m.result, pos, [], start);
    var stack := [start];
    m.stale := m.stale + {start};
    while stack != []
      invariant Pushing(g, inputs, below, roots, sorted, m.stale, m.result, pos', stack)
      invariant old(m.stale) <= m.stale && start in m.stale
      invariant count' > 1 && count' >= |m.result| && |m.stale| <= |below|
      decreases |below| - |m.stale|, |stack|
    {
      var c := stack[0];
      if c in m.result {
        PushingDrop(g, inputs, below, roots, sorted, m.stale, m.result, pos', stack, c);
        m.result := m.result - {c};
        count' := count' - 1;
        if count' <= 1 {
          break;
        }
        if c == sorted[pos'] {
          ghost var was := pos';
          pos' := AdvanceMinimum(sorted, m.stale, pos');
          PushingAdvance(g, inputs, below, roots, sorted, m.stale, m.result, was, stack, pos');
        }
      }
      if g.generation[c] < g.generation[sorted[pos']] {
        PushingPop(g, inputs, below, roots, sorted, m.stale, m.result, pos', stack);
        stack := stack[1..];
        continue;
      }
      var k := FirstNotStale(g.parents[c], m.stale);
      if k < |g.parents[c]| {
        var p := g.parents[c][k];
        assert p in g.parents[c] && HasMarkedChild(g, m.stale, p);
        PushingPush(g, inputs, below, roots, sorted, m.stale, m.result, pos', stack, p);
        m.stale := m.stale + {p};
        stack := [p] + stack;
      } else {
        PushingPop(g, inputs, below, roots, sorted, m.stale, m.result, pos', stack);
        stack := stack[1..];
      }
    }
  }

  /** The parents of the inputs, each once. STALE serves to spot repetitions and is then removed
      again. */
  method CollectWalkStart(g: Graph, list: seq<Commit>, m: Flags) returns (walkStart: seq<Commit>)
    requires Valid(g) && m.Clean() && forall c :: c in list ==> c in g.parents
    modifies m`stale, m`result
    ensures m.stale == {} && m.result == Elements(list)
    ensures forall p :: p in walkStart ==> p in g.parents && exists b :: b in list && p in g.parents[b]
    ensures forall b, p {:trigger p in g.parents[b]} :: b in list && p in g.parents[b] ==> p in walkStart
  {
    walkStart := [];
    for i := 0 to |list|
      invariant m.result == Elements(list[..i])
      invariant forall p :: p in m.stale <==> p in walkStart
      invariant forall p :: p in walkStart ==> p in g.parents && exists b :: b in list && p in g.parents[b]
      invariant forall j, p {:trigger p in g.parents[list[j]]} :: 0 <= j < i && p in g.parents[list[j]] ==>
                p in walkStart
    {
      m.result := m.result + {list[i]};
      assert list[..i + 1] == list[..i] + [list[i]];
      var parents := g.parents[list[i]];
      ghost var before := walkStart;
      for k := 0 to |parents|
        invariant forall p :: p in m.stale <==> p in walkStart
        invariant m.result == Elements(list[..i + 1])
        invariant forall p :: p in before ==> p in walkStart
        invariant forall p :: p in walkStart ==> p in g.parents && exists b :: b in list && p in g.parents[b]
        invariant forall j :: 0 <= j < k ==> parents[j] in walkStart
      {
        var p := parents[k];
        assert p in g.parents[list[i]];
        if p !in m.stale {
          m.stale := m.stale + {p};
          walkStart := walkStart + [p];
        }
      }
    }
    assert list[..|list|] == list;
    for i := 0 to |walkStart|
      invariant m.result == Elements(list)
      invariant forall p :: p in m.stale ==> p in walkStart[i..]
    {
      assert walkStart[i..] == [walkStart[i]] + walkStart[i + 1..];
      m.stale := m.stale - {walkStart[i]};
    }
  }

  /** Pushing STALE from all of `order`, highest generation first, until one input is left. */
  method PushAllStale(g: Graph, order: seq<Commit>, sorted: seq<Commit>, cnt: nat, m: Flags,
                      ghost inputs: set<Commit>, ghost below: set<Commit>, ghost roots: set<Commit>)
    returns (pos: nat)
    requires ParentClosed(g, below) && below <= g.generation.Keys
    requires (forall c :: c in sorted ==> c in g.generation) && Ascending(g, sorted)
    requires forall i :: 0 <= i < |order| ==> order[i] in below && order[i] in roots
    requires Pushing(g, inputs, below, roots, sorted, m.stale, m.result, 0, []) && cnt >= |m.result|
    modifies m`stale, m`result
    ensures Filtering(inputs, below, sorted, m.stale, m.result, pos) && Rooted(g, roots, m.stale)
    ensures |m.result| <= 1 ||
            (Expanded(g, m.stale, g.generation[sorted[pos]], []) && forall i :: 0 <= i < |order| ==>
              order[i] in m.stale)
  {
    var count := cnt;
    pos := 0;
    var i := |order|;
    while i > 0 && count > 1
      invariant 0 <= i <= |order|
      invariant count >= |m.result| && Filtering(inputs, below, sorted, m.stale, m.result, pos)
      invariant Rooted(g, roots, m.stale)
      invariant count > 1 ==> Pushing(g, inputs, below, roots, sorted, m.stale, m.result, pos, [])
      invariant forall k :: i <= k < |order| ==> order[k] in m.stale
    {
      pos, count := PushStale(g, order[i - 1], inputs, below, roots, sorted, m, pos, count);
      i := i - 1;
    }
  }

  lemma {:induction false} ElementsCount(list: seq<Commit>)
    ensures |Elements(list)| <= |list|
  {
    if list != [] {
      var n := |list| - 1;
      ElementsCount(list[..n]);
      assert list == list[..n] + [list[n]];
      assert Elements(list) == Elements(list[..n]) + {list[n]};
    }
  }

  /** Exactly the inputs that are not independent become STALE. */
  method MarkStaleInputs(g: Graph, list: seq<Commit>, walkStart: seq<Commit>, m: Flags)
    requires Valid(g) && Monotone(g) && list != [] && forall c :: c in list ==> c in g.parents
    requires m.stale == {} && m.result == Elements(list)
    requires forall p :: p in walkStart ==> p in g.parents && exists b :: b in list && p in g.parents[b]
    requires forall b, p {:trigger p in g.parents[b]} :: b in list && p in g.parents[b] ==> p in walkStart
    modifies m`stale, m`result
    ensures forall c :: c in list ==> (c in m.stale <==> c !in Independent(g, Elements(list)))
    ensures m.stale <= g.parents.Keys && Rooted(g, Elements(walkStart), m.stale)
  {
    var sorted := SortByGeneration(g, list);
    var order := SortByGeneration(g, walkStart);
    ghost var inputs, roots := Elements(list), Elements(walkStart);
    ghost var below := AllBelowInput(g, inputs);
    AllBelowInputClosed(g, inputs);
    forall i | 0 <= i < |order| ensures order[i] in below && order[i] in roots {
      assert order[i] in order;
    }
    AllPendingRooted(g, roots, {});
    ElementsCount(list);
    var pos := PushAllStale(g, order, sorted, |list|, m, inputs, below, roots);
    StaleExactly(g, inputs, sorted, order, m.stale, m.result, pos);
  }

  lemma {:induction false} StaleExactly(g: Graph, inputs: set<Commit>, sorted: seq<Commit>, order: seq<Commit>,
                                        stale: set<Commit>, result: set<Commit>, pos: nat)
    requires Valid(g) && Monotone(g) && inputs <= g.parents.Keys
    requires Filtering(inputs, AllBelowInput(g, inputs), sorted, stale, result, pos) && Ascending(g, sorted)
    requires forall b, p {:trigger p in g.parents[b]} :: b in inputs && p in g.parents[b] ==> p in order
    requires |result| <= 1 || (Expanded(g, stale, g.generation[sorted[pos]], []) && forall p :: p in order ==>
             p in stale)
    ensures forall c :: c in inputs ==> (c in stale <==> c !in Independent(g, inputs))
  {
    forall c | c in inputs ensures c in stale <==> c !in Independent(g, inputs) {
      if c in stale {
        StaleNotIndependent(g, inputs, c);
      } else if c !in Independent(g, inputs) {
        if |result| <= 1 {
          OneSurvivor(g, inputs, sorted, stale, result, pos, c);
        } else {
          WalkComplete(g, inputs, sorted, stale, result, pos, c);
        }
      }
    }
  }

  /** remove_redundant_with_gen: one depth-first walk bounded by generation numbers. */
  method RemoveRedundantWithGen(g: Graph, a: array<Commit>, m: Flags) returns (count: nat)
    requires Valid(g) && Monotone(g) && m.Clean()
    requires a.Length > 0 && forall c :: c in a[..] ==> c in g.parents
    modifies a, m
    ensures count <= a.Length && m.Clean()
    ensures a[..count] == Keep(old(a[..]), Independent(g, Elements(old(a[..]))))
  {
    var list := a[..];
    var walkStart := CollectWalkStart(g, list, m);
    MarkStaleInputs(g, list, walkStart, m);
    m.result := {};
    var keep := set c | c in list && c !in m.stale;
    KeepSame(list, keep, Independent(g, Elements(list)));
    count := Compact(a, keep);
    var left := ClearCommitMarks(g, walkStart, m.stale);
    m.stale := m.stale * left;
  }

  /** remove_redundant: the choice between the two filters does not show in the result. */
  method RemoveRedundant(g: Graph, a: array<Commit>, m: Flags, generationNumbersEnabled: bool) returns (count: nat)
    requires Valid(g) && Monotone(g) && m.Clean()
    requires Distinct(a[..]) && forall c :: c in a[..] ==> c in g.parents
    modifies a, m
    ensures count <= a.Length && m.Clean()
    ensures a[..count] == Keep(old(a[..]), Independent(g, Elements(old(a[..]))))
  {
    if generationNumbersEnabled {
      for i := 0 to a.Length
        invariant a[..] == old(a[..]) && m.Clean()
      {
        assert a[i] in a[..];
        if g.generation[a[i]] < GENERATION_NUMBER_INFINITY {
          count := RemoveRedundantWithGen(g, a, m);
          return;
        }
      }
    }
    count := RemoveRedundantNoGen(g, a, m);
  }
}
