/** Reachability questions answered by bounded walks, all equal to plain reachability. */
module Queries {
  import opened CommitGraph
  import opened Marks
  import opened Redundancy
  import opened ContainsCache
  import opened CanAllReach

  /** All commits reachable from `from`. */
  ghost function Reachable(g: Graph, from: set<Commit>): set<Commit> {
    set c | c in g.parents && ReachAny(g, from, c)
  }

  lemma {:induction false} ReachableClosed(g: Graph, from: set<Commit>)
    requires Valid(g) && from <= g.parents.Keys
    ensures ParentClosed(g, Reachable(g, from)) && from <= Reachable(g, from)
  {
    forall c | c in from ensures c in Reachable(g, from) { ReachSelf(g, c); }
    forall c, p | c in Reachable(g, from) && p in g.parents[c] ensures p in Reachable(g, from) {
      var f :| f in from && Reach(g, f, c);
      ReachParent(g, f, c, p);
    }
  }

  /** Visited commits off the queue have had all their parents visited, save those below the
      minimum generation. */
  ghost predicate Explored(g: Graph, visited: set<Commit>, minGeneration: nat, pending: set<Commit>) {
    forall c, p {:trigger p in g.parents[c]} ::
      c in visited && c !in pending && c in g.parents && p in g.parents[c] && p in g.generation ==>
        p in visited || g.generation[p] < minGeneration
  }

  /** A finished walk has visited every reachable commit of at least the minimum generation. */
  lemma {:induction false} ExploredAll(g: Graph, from: set<Commit>, visited: set<Commit>, minGeneration: nat, t: Commit)
    requires Valid(g) && Monotone(g) && from <= visited && Explored(g, visited, minGeneration, {})
    requires ReachAny(g, from, t) && t in g.parents && minGeneration <= g.generation[t]
    ensures t in visited
  {
    var f :| f in from && Reach(g, f, t);
    if t !in visited {
      var c, p := Frontier(g, visited, f, t);
      GenerationDescends(g, p, t);
    }
  }

  /** repo_in_merge_bases_many: whether some reference commit reaches `commit`. */
  method InMergeBasesMany(g: Graph, commit: Commit, reference: seq<Commit>, m: Flags) returns (yes: bool)
    requires Valid(g) && Monotone(g) && commit in g.parents && forall r :: r in reference ==> r in g.parents
    requires m.Clean()
    modifies m
    ensures m.Clean()
    ensures yes <==> ReachAny(g, Elements(reference), commit)
  {
    var maxGeneration := 0;
    for i := 0 to |reference|
      invariant forall j :: 0 <= j < i ==> g.generation[reference[j]] <= maxGeneration
    {
      if g.generation[reference[i]] > maxGeneration {
        maxGeneration := g.generation[reference[i]];
      }
    }
    if g.generation[commit] > maxGeneration {
      if ReachAny(g, Elements(reference), commit) {
        ghost var r :| r in Elements(reference) && Reach(g, r, commit);
        GenerationDescends(g, r, commit);
      }
      return false;
    }
    var below;
    yes, below := PaintReadClear(g, commit, reference, g.generation[commit], m);
  }

  /** Visiting the parents of one commit: those not seen before are visited and queued. */
  method VisitParents(g: Graph, parents: seq<Commit>, minGeneration: nat, visited: set<Commit>, queue: set<Commit>)
    returns (visited': set<Commit>, queue': set<Commit>)
    requires forall p :: p in parents ==> p in g.generation
    ensures forall x :: x in visited' <==> x in visited || (x in parents && minGeneration <= g.generation[x])
    ensures forall x :: x in queue' <==> x in queue || (x in visited' && x !in visited)
  {
    visited', queue' := visited, queue;
    for k := 0 to |parents|
      invariant forall x :: x in visited' <==> x in visited || (x in parents[..k] && minGeneration <= g.generation[x])
      invariant forall x :: x in queue' <==> x in queue || (x in visited' && x !in visited)
    {
      var p := parents[k];
      assert parents[..k + 1] == parents[..k] + [p];
      if g.generation[p] < minGeneration || p in visited' {
        continue;
      }
      visited' := visited' + {p};
      queue' := queue' + {p};
    }
    assert parents[..|parents|] == parents;
  }

  // get_reachable_subset

  /** State of the walk: what is still looked for, what was visited, what was found. */
  ghost predicate Searching(g: Graph, from: seq<Commit>, to: seq<Commit>, reach: set<Commit>, minGeneration: nat,
                            wanted: set<Commit>, visited: set<Commit>, queue: set<Commit>, found: seq<Commit>) {
    && visited <= reach && queue <= visited
    && (forall c :: c in from ==> c in visited)
    && (forall c :: c in wanted <==> c in to && c !in found)
    && (forall c :: c in found ==> c in to && c in visited)
    && (forall c :: c in visited && c !in queue ==> c !in wanted)
    && Explored(g, visited, minGeneration, queue)
    && Distinct(found)
  }

  lemma {:induction false} SearchStep(g: Graph, from: seq<Commit>, to: seq<Commit>, reach: set<Commit>,
                                      minGeneration: nat, wanted: set<Commit>, visited: set<Commit>,
                                      queue: set<Commit>, found: seq<Commit>, c: Commit, visited': set<Commit>,
                                      queue': set<Commit>)
    requires Searching(g, from, to, reach, minGeneration, wanted, visited, queue, found)
    requires c in queue && c in g.parents && ParentClosed(g, reach) && reach <= g.generation.Keys
    requires forall x {:trigger x in visited'} :: x in visited' <==>
        x in visited || (x in g.parents[c] && x in g.generation && minGeneration <= g.generation[x])
    requires forall x :: x in queue' <==> (x in queue && x != c) || (x in visited' && x !in visited)
    ensures Searching(g, from, to, reach, minGeneration, wanted - {c}, visited', queue',
                      if c in wanted then [c] + found else found)
    ensures |visited| <= |visited'| <= |reach| && (visited' == visited ==> |queue'| < |queue|)
    ensures visited' != visited ==> |visited| < |visited'|
  {
    assert c in visited;
    forall x | x in visited' ensures x in reach {
      if x !in visited { assert x in g.parents[c]; }
    }
    Cardinality(visited, visited');
    Cardinality(visited', reach);
    if visited' == visited {
      StrictSubset(queue', queue, c);
    } else {
      var x :| x in visited' && x !in visited;
      StrictSubset(visited, visited', x);
    }
  }

  lemma {:induction false} SearchExact(g: Graph, from: seq<Commit>, to: seq<Commit>, minGeneration: nat,
                                       wanted: set<Commit>, visited: set<Commit>, queue: set<Commit>,
                                       found: seq<Commit>, c: Commit)
    requires Valid(g) && Monotone(g) && forall t :: t in to ==> t in g.parents && minGeneration <= g.generation[t]
    requires Searching(g, from, to, Reachable(g, Elements(from)), minGeneration, wanted, visited, queue, found)
    requires wanted == {} || queue == {}
    ensures c in found <==> c in to && ReachAny(g, Elements(from), c)
  {
    if c in to && ReachAny(g, Elements(from), c) && c !in found {
      ExploredAll(g, Elements(from), visited, minGeneration, c);
    }
  }

  method MinGeneration(g: Graph, list: seq<Commit>) returns (least: nat)
    requires forall c :: c in list ==> c in g.generation
    ensures forall c :: c in list ==> least <= g.generation[c]
  {
    least := GENERATION_NUMBER_INFINITY;
    for i := 0 to |list|
      invariant forall j :: 0 <= j < i ==> least <= g.generation[list[j]]
    {
      if g.generation[list[i]] < least {
        least := g.generation[list[i]];
      }
    }
  }

  method Search(g: Graph, from: seq<Commit>, to: seq<Commit>, minGeneration: nat, ghost reach: set<Commit>)
    returns (found: seq<Commit>, ghost wanted: set<Commit>, ghost visited: set<Commit>, ghost queue: set<Commit>)
    requires ParentClosed(g, reach) && reach <= g.generation.Keys && forall c :: c in from ==> c in reach
    ensures Searching(g, from, to, reach, minGeneration, wanted, visited, queue, found)
    ensures wanted == {} || queue == {}
  {
    var want, seen, todo := Elements(to), Elements(from), Elements(from);
    var numToFind := |want|;
    found := [];
    while numToFind > 0 && todo != {}
      invariant Searching(g, from, to, reach, minGeneration, want, seen, todo, found)
      invariant numToFind == |want|
      decreases |reach| - |seen|, |todo|
    {
      var c :| c in todo;
      var found' := found;
      if c in want {
        found' := [c] + found;
        numToFind := numToFind - 1;
      }
      assert forall p :: p in g.parents[c] ==> p in reach;
      var seen', todo' := VisitParents(g, g.parents[c], minGeneration, seen, todo - {c});
      SearchStep(g, from, to, reach, minGeneration, want, seen, todo, found, c, seen', todo');
      want, seen, todo, found := want - {c}, seen', todo', found';
    }
    wanted, visited, queue := want, seen, todo;
  }

  /** get_reachable_subset: exactly the commits of `to` reachable from `from`, each once. */
  method GetReachableSubset(g: Graph, from: seq<Commit>, to: seq<Commit>) returns (found: seq<Commit>)
    requires Valid(g) && Monotone(g)
    requires forall c :: c in from ==> c in g.parents
    requires forall c :: c in to ==> c in g.parents
    ensures forall c :: c in found <==> c in to && ReachAny(g, Elements(from), c)
    ensures Distinct(found)
  {
    var minGeneration := MinGeneration(g, to);
    ReachableClosed(g, Elements(from));
    ghost var wanted, visited, queue;
    found, wanted, visited, queue := Search(g, from, to, minGeneration, Reachable(g, Elements(from)));
    forall c ensures c in found <==> c in to && ReachAny(g, Elements(from), c) {
      SearchExact(g, from, to, minGeneration, wanted, visited, queue, found, c);
    }
  }

  /** repo_is_descendant_of: both branches answer the same question, with or without
      generation numbers. */
  method IsDescendantOf(g: Graph, commit: Commit, withCommit: seq<Commit>, generationNumbersEnabled: bool, m: Flags)
    returns (yes: bool)
    requires Valid(g) && Monotone(g) && commit in g.parents && forall w :: w in withCommit ==> w in g.parents
    requires m.Clean()
    modifies m
    ensures m.Clean()
    ensures yes <==> withCommit == [] || commit in Containing(g, Elements(withCommit))
  {
    if withCommit == [] {
      return true;
    }
    if generationNumbersEnabled {
      yes := CanAllFromReach(g, [commit], withCommit, m);
      return;
    }
    for i := 0 to |withCommit|
      invariant m.Clean()
      invariant forall j :: 0 <= j < i ==> !ReachAny(g, Elements([commit]), withCommit[j])
    {
      var one := InMergeBasesMany(g, withCommit[i], [commit], m);
      if one {
        NoneContained(g, commit, withCommit);
        return true;
      }
    }
    NoneContained(g, commit, withCommit);
    return false;
  }

  lemma {:induction false} NoneContained(g: Graph, commit: Commit, withCommit: seq<Commit>)
    requires commit in g.parents
    ensures commit in Containing(g, Elements(withCommit)) <==>
            exists i :: 0 <= i < |withCommit| && ReachAny(g, Elements([commit]), withCommit[i])
  {
    assert commit in Elements([commit]);
    forall i | 0 <= i < |withCommit| ensures withCommit[i] in Elements(withCommit) {}
  }

  // tips_reachable_from_bases

  /** `sorted` are the tips by generation; all before `least` are marked. A tip that was visited
      and is off the stack is marked. */
  ghost predicate Marking(g: Graph, bases: seq<Commit>, reach: set<Commit>, sorted: seq<Commit>, least: nat,
                          marked: set<Commit>, seen: set<Commit>, stack: seq<Commit>)
  {
    && seen <= reach && marked <= reach && (forall c :: c in bases ==> c in reach)
    && least < |sorted| && (forall k :: 0 <= k < least ==> sorted[k] in marked)
    && (forall c :: c in stack ==> c in seen || c in bases)
    && (forall c :: (c in seen || c in bases) && c in sorted && c !in stack ==> c in marked)
    && sorted[least] in g.generation && Exhausting(g, bases, seen, g.generation[sorted[least]], stack)
  }

  ghost predicate Exhausting(g: Graph, bases: seq<Commit>, seen: set<Commit>, minGeneration: nat, stack: seq<Commit>) {
    forall c, p {:trigger p in g.parents[c]} ::
      (c in seen || c in bases) && c !in stack && c in g.parents && p in g.parents[c] && p in g.generation ==>
        p in seen || g.generation[p] < minGeneration
  }

  method NextUnmarked(sorted: seq<Commit>, marked: set<Commit>, from: nat) returns (k: nat)
    requires from <= |sorted| && forall i :: 0 <= i < from ==> sorted[i] in marked
    ensures from <= k <= |sorted| && forall i :: 0 <= i < k ==> sorted[i] in marked
  {
    k := from;
    while k < |sorted| && sorted[k] in marked
      invariant from <= k <= |sorted| && forall i :: 0 <= i < k ==> sorted[i] in marked
    {
      k := k + 1;
    }
  }

  /** Does the commit match any tip? Finding the least unfound tip raises the bound. */
  method MatchTips(g: Graph, c: Commit, sorted: seq<Commit>, least: nat, marked: set<Commit>)
    returns (least': nat, marked': set<Commit>, done: bool)
    requires c in g.generation && (forall t :: t in sorted ==> t in g.generation) && Ascending(g, sorted)
    requires least < |sorted| && forall k :: 0 <= k < least ==> sorted[k] in marked
    ensures forall x :: x in marked' <==> x in marked || (x == c && c in sorted)
    ensures done ==> forall k :: 0 <= k < |sorted| ==> sorted[k] in marked'
    ensures !done ==> least <= least' < |sorted| && forall k :: 0 <= k < least' ==> sorted[k] in marked'
  {
    least', marked', done := least, marked, false;
    var j := least;
    while j < |sorted| && g.generation[sorted[j]] <= g.generation[c]
      invariant least <= j <= |sorted|
      invariant least <= least' < |sorted| && forall k :: 0 <= k < least' ==> sorted[k] in marked'
      invariant forall x :: x in marked' <==> x in marked || (x == c && c in sorted[..j])
    {
      assert sorted[..j + 1] == sorted[..j] + [sorted[j]];
      if sorted[j] == c {
        marked' := marked' + {c};
        if j == least' {
          var k := NextUnmarked(sorted, marked', j + 1);
          if k >= |sorted| {
            return least', marked', true;
          }
          least' := k;
        }
      }
      j := j + 1;
    }
    if c in sorted {
      ghost var i :| 0 <= i < |sorted| && sorted[i] == c;
      assert i < least || c in sorted[..j];
    }
  }

  method FirstUnexplored(g: Graph, parents: seq<Commit>, seen: set<Commit>, minGeneration: nat) returns (k: nat)
    requires forall p :: p in parents ==> p in g.generation
    ensures k <= |parents|
    ensures forall j :: 0 <= j < k ==> parents[j] in seen || g.generation[parents[j]] < minGeneration
    ensures k < |parents| ==> parents[k] !in seen && minGeneration <= g.generation[parents[k]]
  {
    k := 0;
    while k < |parents| && (parents[k] in seen || g.generation[parents[k]] < minGeneration)
      invariant k <= |parents|
      invariant forall j :: 0 <= j < k ==> parents[j] in seen || g.generation[parents[j]] < minGeneration
    {
      k := k + 1;
    }
  }

  lemma {:induction false} MarkingMatched(g: Graph, bases: seq<Commit>, reach: set<Commit>, sorted: seq<Commit>,
                                          least: nat, marked: set<Commit>, seen: set<Commit>, stack: seq<Commit>,
                                          least': nat, marked': set<Commit>)
    requires Marking(g, bases, reach, sorted, least, marked, seen, stack) && stack != []
    requires (forall t :: t in sorted ==> t in g.generation) && Ascending(g, sorted)
    requires forall x :: x in marked' <==> x in marked || (x == stack[0] && stack[0] in sorted)
    requires least <= least' < |sorted| && forall k :: 0 <= k < least' ==> sorted[k] in marked'
    ensures Marking(g, bases, reach, sorted, least', marked', seen, stack)
  {
    assert stack[0] in stack;
    assert sorted[least'] in sorted;
  }

  lemma {:induction false} MarkingPop(g: Graph, bases: seq<Commit>, reach: set<Commit>, sorted: seq<Commit>,
                                      least: nat, marked: set<Commit>, seen: set<Commit>, stack: seq<Commit>)
    requires Marking(g, bases, reach, sorted, least, marked, seen, stack) && stack != []
    requires stack[0] in g.parents && (stack[0] in sorted ==> stack[0] in marked)
    requires forall p :: p in g.parents[stack[0]] && p in g.generation ==>
             p in seen || g.generation[p] < g.generation[sorted[least]]
    ensures Marking(g, bases, reach, sorted, least, marked, seen, stack[1..])
  {
    assert stack == [stack[0]] + stack[1..];
  }

  lemma {:induction false} MarkingPush(g: Graph, bases: seq<Commit>, reach: set<Commit>, sorted: seq<Commit>,
                                       least: nat, marked: set<Commit>, seen: set<Commit>, stack: seq<Commit>,
                                       p: Commit)
    requires Marking(g, bases, reach, sorted, least, marked, seen, stack) && p in reach && p !in seen
    ensures Marking(g, bases, reach, sorted, least, marked, seen + {p}, [p] + stack)
    ensures |seen + {p}| == |seen| + 1 && |seen + {p}| <= |reach|
  {
    Cardinality(seen + {p}, reach);
  }

  method MarkTips(g: Graph, bases: seq<Commit>, sorted: seq<Commit>, ghost reach: set<Commit>)
    returns (marked: set<Commit>, ghost least: nat, ghost seen: set<Commit>)
    requires ParentClosed(g, reach) && reach <= g.generation.Keys && forall c :: c in bases ==> c in reach
    requires sorted != [] && (forall t :: t in sorted ==> t in g.generation) && Ascending(g, sorted)
    ensures marked <= reach
    ensures (forall k :: 0 <= k < |sorted| ==> sorted[k] in marked)
            || Marking(g, bases, reach, sorted, least, marked, seen, [])
  {
    marked := {};
    var min, explored: set<Commit>, stack := 0, {}, bases;
    while stack != []
      invariant Marking(g, bases, reach, sorted, min, marked, explored, stack)
      decreases |reach| - |explored|, |stack|
    {
      var c := stack[0];
      assert c in stack && c in reach;
      var min', marked', done := MatchTips(g, c, sorted, min, marked);
      if done {
        marked, least, seen := marked', min', explored;
        return;
      }
      MarkingMatched(g, bases, reach, sorted, min, marked, explored, stack, min', marked');
      min, marked := min', marked';
      assert forall p :: p in g.parents[c] ==> p in reach;
      var k := FirstUnexplored(g, g.parents[c], explored, g.generation[sorted[min]]);
      if k < |g.parents[c]| {
        var p := g.parents[c][k];
        assert p in g.parents[c];
        MarkingPush(g, bases, reach, sorted, min, marked, explored, stack, p);
        explored, stack := explored + {p}, [p] + stack;
      } else {
        MarkingPop(g, bases, reach, sorted, min, marked, explored, stack);
        stack := stack[1..];
      }
    }
    least, seen := min, explored;
  }

  lemma {:induction false} TipMarked(g: Graph, bases: seq<Commit>, sorted: seq<Commit>, least: nat,
                                     marked: set<Commit>, seen: set<Commit>, t: Commit)
    requires Valid(g) && Monotone(g) && (forall c :: c in sorted ==> c in g.parents) && Ascending(g, sorted)
    requires Marking(g, bases, Reachable(g, Elements(bases)), sorted, least, marked, seen, [])
    requires t in sorted && ReachAny(g, Elements(bases), t)
    ensures t in marked
  {
    var i :| 0 <= i < |sorted| && sorted[i] == t;
    var visited := seen + Elements(bases);
    if g.generation[sorted[least]] <= g.generation[t] {
      assert Explored(g, visited, g.generation[sorted[least]], {});
      ExploredAll(g, Elements(bases), visited, g.generation[sorted[least]], t);
    }
  }

  /** tips_reachable_from_bases: marks exactly the tips reachable from the bases. */
  method TipsReachableFromBases(g: Graph, bases: seq<Commit>, tips: seq<Commit>) returns (marked: set<Commit>)
    requires Valid(g) && Monotone(g)
    requires forall c :: c in bases ==> c in g.parents
    requires forall c :: c in tips ==> c in g.parents
    ensures forall t :: t in tips ==> (t in marked <==> ReachAny(g, Elements(bases), t))
  {
    if bases == [] || tips == [] {
      return {};
    }
    var sorted := SortByGeneration(g, tips);
    ReachableClosed(g, Elements(bases));
    ghost var least, seen;
    marked, least, seen := MarkTips(g, bases, sorted, Reachable(g, Elements(bases)));
    forall t | t in tips ensures t in marked <==> ReachAny(g, Elements(bases), t) {
      assert t in sorted;
      if ReachAny(g, Elements(bases), t) && t !in marked {
        TipMarked(g, bases, sorted, least, marked, seen, t);
      }
    }
  }
}
