/** "Can all of these reach one of those" (can_all_from_reach without the date cut-off). */
module CanAllReach {
  import opened CommitGraph
  import opened Marks
  import opened ContainsCache

  /** Looking through the parents of `c`: those flagged make `c` a RESULT; the first parent not
      yet seen (and not below the minimum generation) is the one to go on with. */
  method ScanParents(g: Graph, c: Commit, minGeneration: nat, with: set<Commit>, seen: set<Commit>, result: set<Commit>)
    returns (k: nat, seen': set<Commit>, hit: bool)
    requires c in g.parents && forall p :: p in g.parents[c] ==> p in g.generation
    ensures k <= |g.parents[c]|
    ensures forall j :: 0 <= j < k ==> g.parents[c][j] in seen || g.generation[g.parents[c][j]] < minGeneration
    ensures k < |g.parents[c]| ==> g.parents[c][k] !in seen && minGeneration <= g.generation[g.parents[c][k]]
    ensures forall x :: x in seen' <==>
        x in seen || (x in g.parents[c][..k] && g.generation[x] < minGeneration)
          || (k < |g.parents[c]| && x == g.parents[c][k])
    ensures hit ==> exists p :: p in g.parents[c] && (p in with || p in result)
    ensures forall j :: 0 <= j < k && (g.parents[c][j] in with || g.parents[c][j] in result) ==> hit
  {
    var parents := g.parents[c];
    seen', hit, k := seen, false, 0;
    while k < |parents|
      invariant k <= |parents|
      invariant forall j :: 0 <= j < k ==> parents[j] in seen || g.generation[parents[j]] < minGeneration
      invariant forall x :: x in seen' <==> x in seen || (x in parents[..k] && g.generation[x] < minGeneration)
      invariant hit ==> exists p :: p in parents && (p in with || p in result)
      invariant forall j :: 0 <= j < k && (parents[j] in with || parents[j] in result) ==> hit
    {
      var p := parents[k];
      if p in with || p in result {
        hit := true;
      }
      assert parents[..k + 1] == parents[..k] + [p];
      if p !in seen' {
        seen' := seen' + {p};
        if g.generation[p] >= minGeneration {
          return;
        }
      }
      k := k + 1;
    }
  }

  /** Between two steps: RESULT is only on containing commits, and a commit that was seen, is off
      the stack and carries no flag contains nothing. The stack is a path, top last. */
  ghost predicate Diving(g: Graph, start: Commit, with: set<Commit>, yes: set<Commit>, seen: set<Commit>,
                         result: set<Commit>, stack: seq<Commit>) {
    && result <= yes && result <= seen <= g.parents.Keys && start in seen
    && (forall c :: c in stack ==> c in seen)
    && (stack != [] ==> IsPath(g, stack))
    && (forall c :: c in seen && c !in stack && c !in result && c !in with ==> c !in yes)
  }

  /** What is new in `t` are parents of commits in `s`. */
  ghost predicate ParentsOf(g: Graph, s: set<Commit>, t: set<Commit>) {
    forall x {:trigger HasMarkedChild(g, s, x)} :: x in t && x !in s ==> HasMarkedChild(g, s, x)
  }

  /** Marking parents of marked commits keeps the marks hanging together. */
  lemma {:induction false} RootedMore(g: Graph, pending: set<Commit>, s: set<Commit>, t: set<Commit>)
    requires Rooted(g, pending, s) && s <= t && ParentsOf(g, s, t)
    ensures Rooted(g, pending, t)
  {
    forall x | x in t && x !in pending ensures HasMarkedChild(g, t, x) {
      assert HasMarkedChild(g, s, x);
      var c :| c in s && c in g.parents && x in g.parents[c];
      assert c in t;
    }
  }

  /** A flagged top is popped and hands RESULT to the commit below it. */
  method PopFlagged(g: Graph, start: Commit, with: set<Commit>, seen: set<Commit>, result: set<Commit>,
                    stack: seq<Commit>, ghost want: seq<Commit>, ghost cutoff: nat, ghost yes: set<Commit>)
    returns (result': set<Commit>, stack': seq<Commit>)
    requires Characterised(g, want, cutoff, yes) && Diving(g, start, with, yes, seen, result, stack)
    requires with <= yes && stack != [] && (stack[|stack| - 1] in with || stack[|stack| - 1] in result)
    ensures Diving(g, start, with, yes, seen, result', stack')
    ensures |stack'| < |stack|
  {
    var n := |stack| - 1;
    stack', result' := stack[..n], result;
    assert stack == stack' + [stack[n]];
    if n > 0 {
      assert LinkAt(g, stack, n - 1);
      SubPath(g, stack, 0, n);
      assert stack[0..n] == stack';
      result' := result + {stack[n - 1]};
    }
  }

  /** The top of a path is not among the parents seen before it. */
  lemma {:induction false} ParentOffStack(g: Graph, stack: seq<Commit>, p: Commit)
    requires Valid(g) && stack != [] && IsPath(g, stack)
    requires stack[|stack| - 1] in g.parents && p in g.parents[stack[|stack| - 1]]
    ensures p !in stack && IsPath(g, stack + [p])
  {
    PathGrows(g, stack, p);
  }

  /** Scanning the parents of an unflagged top, then pushing one of them or popping the top. */
  method ScanTop(g: Graph, start: Commit, minGeneration: nat, with: set<Commit>, seen: set<Commit>,
                 result: set<Commit>, stack: seq<Commit>, ghost want: seq<Commit>, ghost yes: set<Commit>)
    returns (seen': set<Commit>, result': set<Commit>, stack': seq<Commit>)
    requires Valid(g) && Characterised(g, want, minGeneration, yes) && Diving(g, start, with, yes, seen, result, stack)
    requires with == Elements(want) && stack != []
    requires stack[|stack| - 1] !in with && stack[|stack| - 1] !in result
    ensures Diving(g, start, with, yes, seen', result', stack')
    ensures seen <= seen' && (|stack'| < |stack| || seen < seen')
    ensures ParentsOf(g, seen, seen')
  {
    var n := |stack| - 1;
    var c := stack[n];
    assert c in stack;
    var k, after, hit := ScanParents(g, c, minGeneration, with, seen, result);
    seen', result' := after, if hit then result + {c} else result;
    assert hit ==> c in yes;
    forall x | x in seen' && x !in seen ensures HasMarkedChild(g, seen, x) {
      assert x in g.parents[c] && c in seen;
    }
    forall p | p in g.parents[c] ensures p !in stack { ParentOffStack(g, stack, p); }
    if k < |g.parents[c]| {
      var p := g.parents[c][k];
      assert p in g.parents[c];
      ParentOffStack(g, stack, p);
      stack' := stack + [p];
    } else {
      stack' := stack[..n];
      assert stack == stack' + [c];
      if n > 0 {
        SubPath(g, stack, 0, n);
        assert stack[0..n] == stack';
      }
    }
  }

  /** Depth-first search from one commit. */
  method DiveFrom(g: Graph, start: Commit, minGeneration: nat, with: set<Commit>, seen: set<Commit>,
                  result: set<Commit>, ghost want: seq<Commit>, ghost yes: set<Commit>, ghost pending: set<Commit>)
    returns (seen': set<Commit>, result': set<Commit>)
    requires Valid(g) && Characterised(g, want, minGeneration, yes) && with == Elements(want) && start in g.parents
    requires result <= yes && result <= seen <= g.parents.Keys && start in pending && Rooted(g, pending, seen)
    requires forall c :: c in seen && c !in result && c !in with ==> c !in yes
    ensures result' <= yes && result' <= seen' <= g.parents.Keys && Rooted(g, pending, seen')
    ensures forall c :: c in seen' && c !in result' && c !in with ==> c !in yes
    ensures start in yes <==> start in with || start in result'
  {
    seen', result' := seen + {start}, result;
    StartRooted(g, pending, seen, start);
    var stack := [start];
    while stack != []
      invariant Diving(g, start, with, yes, seen', result', stack) && Rooted(g, pending, seen')
      decreases |g.parents.Keys - seen'|, |stack|
    {
      var top := stack[|stack| - 1];
      if top in with || top in result' {
        result', stack := PopFlagged(g, start, with, seen', result', stack, want, minGeneration, yes);
      } else {
        ghost var before := seen';
        seen', result', stack := ScanTop(g, start, minGeneration, with, seen', result', stack, want, yes);
        FewerLeft(g.parents.Keys, before, seen');
        RootedMore(g, pending, before, seen');
      }
    }
  }

  lemma {:induction false} StartRooted(g: Graph, pending: set<Commit>, seen: set<Commit>, start: Commit)
    requires Rooted(g, pending, seen) && start in pending
    ensures Rooted(g, pending, seen + {start})
  {
    forall x | x in seen + {start} && x !in pending ensures HasMarkedChild(g, seen + {start}, x) {
      assert HasMarkedChild(g, seen, x);
      var c :| c in seen && c in g.parents && x in g.parents[c];
      assert c in seen + {start};
    }
  }

  lemma {:induction false} FewerLeft(all: set<Commit>, s: set<Commit>, t: set<Commit>)
    requires s <= t <= all
    ensures |all - t| <= |all - s| && (s < t ==> |all - t| < |all - s|)
  {
    Cardinality(all - t, all - s);
    if s < t {
      var x :| x in t && x !in s;
      StrictSubset(all - t, all - s, x);
    }
  }

  /** can_all_from_reach: every commit of `from` reaches some commit of `to`; no flag stays behind. */
  method CanAllFromReach(g: Graph, from: seq<Commit>, to: seq<Commit>, m: Flags) returns (all: bool)
    requires Valid(g) && Monotone(g) && m.Clean()
    requires forall c :: c in from ==> c in g.parents
    requires forall c :: c in to ==> c in g.parents
    modifies m
    ensures all <==> forall c :: c in from ==> c in Containing(g, Elements(to))
    ensures m.Clean()
  {
    var minGeneration: nat := GENERATION_NUMBER_INFINITY;
    for i := 0 to |from|
      invariant forall j :: 0 <= j < i ==> minGeneration <= g.generation[from[j]]
    {
      if g.generation[from[i]] < minGeneration { minGeneration := g.generation[from[i]]; }
    }
    for i := 0 to |to|
      invariant forall j :: 0 <= j < i ==> minGeneration <= g.generation[to[j]]
    {
      if g.generation[to[i]] < minGeneration { minGeneration := g.generation[to[i]]; }
    }
    m.parent2 := Elements(to);
    ContainingCharacterised(g, to, minGeneration);
    all := WithFlag(g, from, minGeneration, to, Containing(g, Elements(to)), m);
    var left := ClearCommitMarks(g, to, m.parent2);
    m.parent2 := left;
    AllPendingRooted(g, Elements(to), Elements(to));
  }

  /** can_all_from_reach_with_flag: PARENT2 says where to arrive, PARENT1 and RESULT are set on the way
      and cleared at the end. */
  method WithFlag(g: Graph, from: seq<Commit>, minGeneration: nat, ghost to: seq<Commit>, ghost yes: set<Commit>,
                  m: Flags)
    returns (all: bool)
    requires Valid(g) && Characterised(g, to, minGeneration, yes) && m.parent2 == Elements(to)
    requires m.parent1 == {} && m.result == {} && (forall c :: c in from ==> c in g.parents)
    modifies m
    ensures all <==> forall c :: c in from ==> c in yes
    ensures m.parent1 == {} && m.result == {} && m.parent2 == old(m.parent2) && m.stale == old(m.stale)
  {
    var list := SortByGeneration(g, from);
    all := DiveFromAll(g, list, minGeneration, to, yes, m);
    var left := ClearCommitMarks(g, list, m.parent1 + m.result);
    m.parent1, m.result := m.parent1 * left, m.result * left;
  }

  /** The loop over the commits of `from`, up to the first that does not arrive. */
  method DiveFromAll(g: Graph, list: seq<Commit>, minGeneration: nat, ghost to: seq<Commit>, ghost yes: set<Commit>,
                     m: Flags)
    returns (all: bool)
    requires Valid(g) && Characterised(g, to, minGeneration, yes) && m.parent2 == Elements(to)
    requires m.parent1 == {} && m.result == {} && (forall c :: c in list ==> c in g.parents)
    modifies m
    ensures all <==> forall c :: c in list ==> c in yes
    ensures m.parent2 == old(m.parent2) && m.stale == old(m.stale)
    ensures m.result <= m.parent1 <= g.parents.Keys && Rooted(g, Elements(list), m.parent1 + m.result)
  {
    for i := 0 to |list|
      invariant m.parent2 == old(m.parent2) && m.stale == old(m.stale)
      invariant m.result <= yes && m.result <= m.parent1 <= g.parents.Keys && Rooted(g, Elements(list), m.parent1)
      invariant forall c :: c in m.parent1 && c !in m.result && c !in m.parent2 ==> c !in yes
      invariant forall j :: 0 <= j < i ==> list[j] in yes
    {
      assert list[i] in list;
      m.parent1, m.result :=
        DiveFrom(g, list[i], minGeneration, m.parent2, m.parent1, m.result, to, yes, Elements(list));
      if !(list[i] in m.parent2 || list[i] in m.result) {
        assert m.parent1 + m.result == m.parent1;
        return false;
      }
    }
    assert m.parent1 + m.result == m.parent1;
    all := true;
  }
}
