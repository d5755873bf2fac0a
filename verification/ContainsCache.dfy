/** The memoised "does this commit contain one of those" test (contains_tag_algo). */
module ContainsCache {
  import opened CommitGraph
  import opened Marks

  datatype Answer = Yes | No | Unknown

  /** The commits from which some commit of `want` can be reached. */
  ghost function Containing(g: Graph, want: set<Commit>): set<Commit> {
    set c | c in g.parents && exists w {:trigger w in want, Reach(g, c, w)} :: w in want && Reach(g, c, w)
  }

  /** The facts about `Containing` on which the walk rests. */
  ghost predicate Characterised(g: Graph, want: seq<Commit>, cutoff: nat, yes: set<Commit>) {
    && yes <= g.parents.Keys && g.generation.Keys == g.parents.Keys
    && (forall w :: w in want ==> w in yes)
    && (forall c, p {:trigger p in g.parents[c]} :: c in g.parents && p in g.parents[c] ==>
       p in g.parents && (p in yes ==> c in yes))
    && (forall c :: c in yes && c !in want ==> HasParentIn(g, c, yes))
    && (forall c :: c in yes ==> cutoff <= g.generation[c])
  }

  ghost predicate HasParentIn(g: Graph, c: Commit, yes: set<Commit>)
    requires c in g.parents
  {
    exists k :: 0 <= k < |g.parents[c]| && g.parents[c][k] in yes
  }

  lemma {:induction false} ContainingCharacterised(g: Graph, want: seq<Commit>, cutoff: nat)
    requires Valid(g) && Monotone(g)
    requires forall w :: w in want ==> w in g.parents && cutoff <= g.generation[w]
    ensures Characterised(g, want, cutoff, Containing(g, Elements(want)))
  {
    var wants := Elements(want);
    var yes := Containing(g, wants);
    forall w | w in want ensures w in yes {
      ReachSelf(g, w);
      assert w in wants;
    }
    forall c, p | c in g.parents && p in g.parents[c] && p in yes ensures c in yes {
      var w :| w in wants && Reach(g, p, w);
      ReachVia(g, c, p, w);
    }
    forall c | c in yes ensures cutoff <= g.generation[c] && (c !in want ==> HasParentIn(g, c, yes)) {
      var w :| w in wants && Reach(g, c, w);
      GenerationDescends(g, c, w);
      if c !in want {
        var p := ReachFirst(g, c, w);
        assert p in yes;
      }
    }
  }

  /** Every cached answer is true. */
  ghost predicate Truthful(cache: map<Commit, bool>, yes: set<Commit>) {
    forall c :: c in cache ==> (cache[c] <==> c in yes)
  }

  /** contains_test */
  method ContainsTest(g: Graph, c: Commit, want: seq<Commit>, cache: map<Commit, bool>, cutoff: nat,
                      ghost yes: set<Commit>)
    returns (answer: Answer, cache': map<Commit, bool>)
    requires Characterised(g, want, cutoff, yes) && Truthful(cache, yes) && c in g.parents
    ensures Truthful(cache', yes)
    ensures answer == Yes ==> c in yes && cache' == cache[c := true]
    ensures answer == No ==> c !in yes && cache' == cache
    ensures answer == Unknown ==> cache' == cache && c !in cache && c !in want
  {
    cache' := cache;
    if c in cache {
      answer := if cache[c] then Yes else No;
      assert cache[c] ==> cache[c := true] == cache;
    } else if c in want {
      cache' := cache[c := true];
      answer := Yes;
    } else if g.generation[c] < cutoff {
      answer := No;
    } else {
      answer := Unknown;
    }
  }

  /** A stack entry: a commit and how many of its parents are known not to contain. */
  datatype Entry = Entry(commit: Commit, next: nat)

  ghost function Commits(stack: seq<Entry>): seq<Commit> {
    seq(|stack|, i requires 0 <= i < |stack| => stack[i].commit)
  }

  ghost predicate Undecided(g: Graph, want: seq<Commit>, cache: map<Commit, bool>, yes: set<Commit>, e: Entry) {
    && e.commit in g.parents && e.commit !in cache && e.commit !in want
    && e.next <= |g.parents[e.commit]|
    && (forall k :: 0 <= k < e.next ==> g.parents[e.commit][k] !in yes)
  }

  /** The stack is a path of undecided commits. */
  ghost predicate OnStack(g: Graph, candidate: Commit, want: seq<Commit>, cache: map<Commit, bool>, yes: set<Commit>,
                          stack: seq<Entry>) {
    && (forall i :: 0 <= i < |stack| ==> Undecided(g, want, cache, yes, stack[i]))
    && (|stack| > 0 ==> IsPath(g, Commits(stack)) && stack[0].commit == candidate)
    && (stack == [] ==> candidate in cache)
  }

  /** A path never comes back to a commit it has been through. */
  lemma {:induction false} PathGrows(g: Graph, path: seq<Commit>, p: Commit)
    requires Valid(g) && IsPath(g, path) && path[|path| - 1] in g.parents && p in g.parents[path[|path| - 1]]
    ensures IsPath(g, path + [p]) && p !in path
  {
    var n := |path|;
    forall i | 0 <= i < n ensures LinkAt(g, path + [p], i) {
      if i < n - 1 { assert LinkAt(g, path, i); }
    }
    if i :| 0 <= i < n && path[i] == p {
      SubPath(g, path, i, n);
      assert Connects(g, path[i..n], p, path[n - 1]);
    }
  }

  lemma {:induction false} PathDistinct(g: Graph, path: seq<Commit>)
    requires Valid(g) && IsPath(g, path)
    ensures Distinct(path) && Elements(path) <= g.parents.Keys
  {
    var n := |path| - 1;
    if n > 0 {
      assert LinkAt(g, path, n - 1);
      SubPath(g, path, 0, n);
      PathDistinct(g, path[0..n]);
      PathGrows(g, path[0..n], path[n]);
      assert path == path[0..n] + [path[n]];
    }
  }

  lemma {:induction false} DistinctCount(list: seq<Commit>)
    requires Distinct(list)
    ensures |Elements(list)| == |list|
  {
    if list != [] {
      var n := |list| - 1;
      DistinctCount(list[..n]);
      assert Elements(list) == Elements(list[..n]) + {list[n]};
      assert list[n] !in Elements(list[..n]);
    }
  }

  lemma {:induction false} StackBounded(g: Graph, stack: seq<Entry>)
    requires Valid(g) && (|stack| > 0 ==> IsPath(g, Commits(stack)))
    ensures |stack| <= |g.parents|
    ensures Distinct(Commits(stack))
  {
    if |stack| > 0 {
      PathDistinct(g, Commits(stack));
      DistinctCount(Commits(stack));
      Cardinality(Elements(Commits(stack)), g.parents.Keys);
    }
  }

  lemma {:induction false} PopDecided(g: Graph, candidate: Commit, want: seq<Commit>, cache: map<Commit, bool>,
                                      yes: set<Commit>, stack: seq<Entry>, answer: bool)
    requires Valid(g) && stack != [] && OnStack(g, candidate, want, cache, yes, stack)
    ensures OnStack(g, candidate, want, cache[stack[|stack| - 1].commit := answer], yes, stack[..|stack| - 1])
  {
    var n := |stack| - 1;
    StackBounded(g, stack);
    var commits := Commits(stack);
    assert forall i :: 0 <= i < n ==> stack[i].commit == commits[i] && commits[i] != commits[n];
    if n > 0 {
      SubPath(g, Commits(stack), 0, n);
      assert Commits(stack)[0..n] == Commits(stack[..n]);
    }
  }

  lemma {:induction false} PushUndecided(g: Graph, candidate: Commit, want: seq<Commit>, cache: map<Commit, bool>,
                                         yes: set<Commit>, stack: seq<Entry>, p: Commit)
    requires Valid(g) && stack != [] && OnStack(g, candidate, want, cache, yes, stack)
    requires p in g.parents[stack[|stack| - 1].commit] && p !in cache && p !in want
    ensures OnStack(g, candidate, want, cache, yes, stack + [Entry(p, 0)])
    ensures |stack| < |g.parents|
  {
    PathGrows(g, Commits(stack), p);
    assert Commits(stack + [Entry(p, 0)]) == Commits(stack) + [p];
    StackBounded(g, stack + [Entry(p, 0)]);
  }

  /** Everything that holds between two steps of the walk. */
  ghost predicate Walking(g: Graph, candidate: Commit, want: seq<Commit>, start: set<Commit>,
                          cache: map<Commit, bool>, yes: set<Commit>, stack: seq<Entry>) {
    && Truthful(cache, yes) && start <= cache.Keys <= g.parents.Keys
    && OnStack(g, candidate, want, cache, yes, stack)
  }

  /** What is still to be done, for termination. */
  ghost function Todo(g: Graph, cache: map<Commit, bool>): int {
    |g.parents| - |cache.Keys|
  }

  /** The top of the stack is decided and popped. */
  method PopTop(g: Graph, candidate: Commit, want: seq<Commit>, cache: map<Commit, bool>, stack: seq<Entry>,
                answer: bool, ghost start: set<Commit>, ghost yes: set<Commit>)
    returns (cache': map<Commit, bool>, stack': seq<Entry>)
    requires Valid(g) && stack != [] && Walking(g, candidate, want, start, cache, yes, stack)
    requires answer <==> stack[|stack| - 1].commit in yes
    ensures Walking(g, candidate, want, start, cache', yes, stack')
    ensures 0 <= Todo(g, cache') < Todo(g, cache)
  {
    var commit := stack[|stack| - 1].commit;
    PopDecided(g, candidate, want, cache, yes, stack, answer);
    DecideGrows(g, cache, commit, answer);
    cache', stack' := cache[commit := answer], stack[..|stack| - 1];
  }

  /** How many parents of the top of the stack are left. */
  ghost function Left(g: Graph, stack: seq<Entry>): int {
    if stack == [] || stack[|stack| - 1].commit !in g.parents then 0
    else |g.parents[stack[|stack| - 1].commit]| - stack[|stack| - 1].next
  }

  /** A step decides a commit, or deepens the stack, or is done with a parent. */
  ghost predicate Nearer(g: Graph, cache: map<Commit, bool>, stack: seq<Entry>, cache': map<Commit, bool>,
                         stack': seq<Entry>) {
    && 0 <= Todo(g, cache') && |stack'| <= |g.parents|
    && (|| Todo(g, cache') < Todo(g, cache)
        || (Todo(g, cache') == Todo(g, cache) && |stack'| > |stack|)
        || (Todo(g, cache') == Todo(g, cache) && |stack'| == |stack| && 0 <= Left(g, stack') < Left(g, stack)))
  }

  /** A parent says yes, and so does the top of the stack. */
  method PopYes(g: Graph, candidate: Commit, want: seq<Commit>, ghost cache: map<Commit, bool>,
                after: map<Commit, bool>, stack: seq<Entry>, ghost p: Commit, ghost start: set<Commit>,
                ghost yes: set<Commit>)
    returns (cache': map<Commit, bool>, stack': seq<Entry>)
    requires Valid(g) && stack != [] && Walking(g, candidate, want, start, cache, yes, stack)
    requires stack[|stack| - 1].commit in yes
    requires stack[|stack| - 1].commit in g.parents && p in g.parents[stack[|stack| - 1].commit]
    requires p in yes && after == cache[p := true]
    ensures Walking(g, candidate, want, start, cache', yes, stack') && Nearer(g, cache, stack, cache', stack')
  {
    KeepWalking(g, candidate, want, start, cache, after, yes, stack, p);
    cache', stack' := PopTop(g, candidate, want, after, stack, true, start, yes);
    StackBounded(g, stack');
  }

  /** The answer for the next parent of the top of the stack. */
  method TestParent(g: Graph, candidate: Commit, want: seq<Commit>, cache: map<Commit, bool>, cutoff: nat,
                    stack: seq<Entry>, p: Commit, ghost start: set<Commit>, ghost yes: set<Commit>)
    returns (cache': map<Commit, bool>, stack': seq<Entry>)
    requires Valid(g) && Characterised(g, want, cutoff, yes) && stack != []
    requires Walking(g, candidate, want, start, cache, yes, stack)
    requires var e := stack[|stack| - 1]; e.commit in g.parents && e.next < |g.parents[e.commit]|
                                          && p == g.parents[e.commit][e.next]
    ensures Walking(g, candidate, want, start, cache', yes, stack') && Nearer(g, cache, stack, cache', stack')
  {
    var n := |stack| - 1;
    assert p in g.parents[stack[n].commit];
    var answer, after := ContainsTest(g, p, want, cache, cutoff, yes);
    match answer
    case Yes =>
      cache', stack' := PopYes(g, candidate, want, cache, after, stack, p, start, yes);
    case No =>
      cache', stack' := cache, stack[n := Entry(stack[n].commit, stack[n].next + 1)];
      Advanced(g, candidate, want, cache, stack, stack', start, yes);
    case Unknown =>
      cache', stack' := cache, stack + [Entry(p, 0)];
      Pushed(g, candidate, want, cache, stack, stack', p, start, yes);
  }

  lemma {:induction false} Advanced(g: Graph, candidate: Commit, want: seq<Commit>, cache: map<Commit, bool>,
                                    stack: seq<Entry>, stack': seq<Entry>, start: set<Commit>, yes: set<Commit>)
    requires Valid(g) && stack != [] && Walking(g, candidate, want, start, cache, yes, stack)
    requires var e := stack[|stack| - 1];
             && e.commit in g.parents && e.next < |g.parents[e.commit]| && g.parents[e.commit][e.next] !in yes
             && stack' == stack[|stack| - 1 := Entry(e.commit, e.next + 1)]
    ensures Walking(g, candidate, want, start, cache, yes, stack') && Nearer(g, cache, stack, cache, stack')
  {
    StackBounded(g, stack);
    Cardinality(cache.Keys, g.parents.Keys);
    AdvanceParent(g, candidate, want, cache, yes, stack);
  }

  lemma {:induction false} Pushed(g: Graph, candidate: Commit, want: seq<Commit>, cache: map<Commit, bool>,
                                  stack: seq<Entry>, stack': seq<Entry>, p: Commit, start: set<Commit>,
                                  yes: set<Commit>)
    requires Valid(g) && stack != [] && Walking(g, candidate, want, start, cache, yes, stack)
    requires stack' == stack + [Entry(p, 0)]
    requires stack[|stack| - 1].commit in g.parents
    requires p in g.parents[stack[|stack| - 1].commit] && p !in cache && p !in want
    ensures Walking(g, candidate, want, start, cache, yes, stack') && Nearer(g, cache, stack, cache, stack')
  {
    Cardinality(cache.Keys, g.parents.Keys);
    PushUndecided(g, candidate, want, cache, yes, stack, p);
  }

  /** One turn of the walk. */
  method WalkStep(g: Graph, candidate: Commit, want: seq<Commit>, cache: map<Commit, bool>, cutoff: nat,
                  stack: seq<Entry>, ghost start: set<Commit>, ghost yes: set<Commit>)
    returns (cache': map<Commit, bool>, stack': seq<Entry>)
    requires Valid(g) && Characterised(g, want, cutoff, yes) && stack != []
    requires Walking(g, candidate, want, start, cache, yes, stack)
    ensures Walking(g, candidate, want, start, cache', yes, stack') && Nearer(g, cache, stack, cache', stack')
  {
    var n := |stack| - 1;
    var commit, next := stack[n].commit, stack[n].next;
    if next == |g.parents[commit]| {
      NotContaining(g, want, cutoff, cache, yes, stack[n]);
      cache', stack' := PopTop(g, candidate, want, cache, stack, false, start, yes);
      StackBounded(g, stack');
    } else {
      cache', stack' := TestParent(g, candidate, want, cache, cutoff, stack, g.parents[commit][next], start, yes);
    }
  }

  /** The walk itself; `yes` stands for the true answers. */
  method Walk(g: Graph, candidate: Commit, want: seq<Commit>, cache: map<Commit, bool>, cutoff: nat,
              ghost yes: set<Commit>)
    returns (cache': map<Commit, bool>)
    requires Valid(g) && Characterised(g, want, cutoff, yes)
    requires Truthful(cache, yes) && cache.Keys <= g.parents.Keys
    requires candidate in g.parents && candidate !in cache && candidate !in want
    ensures Truthful(cache', yes) && cache.Keys <= cache'.Keys <= g.parents.Keys && candidate in cache'
  {
    cache' := cache;
    ghost var start := cache.Keys;
    var stack := [Entry(candidate, 0)];
    while stack != []
      invariant Walking(g, candidate, want, start, cache', yes, stack)
      decreases Todo(g, cache'), |g.parents| - |stack|, Left(g, stack)
    {
      cache', stack := WalkStep(g, candidate, want, cache', cutoff, stack, start, yes);
    }
  }

  lemma {:induction false} NotContaining(g: Graph, want: seq<Commit>, cutoff: nat, cache: map<Commit, bool>,
                                         yes: set<Commit>, e: Entry)
    requires Characterised(g, want, cutoff, yes) && Undecided(g, want, cache, yes, e) && e.next == |g.parents[e.commit]|
    ensures e.commit !in yes
  {
  }

  lemma {:induction false} KeepWalking(g: Graph, candidate: Commit, want: seq<Commit>, start: set<Commit>,
                                       cache: map<Commit, bool>, after: map<Commit, bool>, yes: set<Commit>,
                                       stack: seq<Entry>, p: Commit)
    requires Valid(g) && stack != [] && Walking(g, candidate, want, start, cache, yes, stack)
    requires p in g.parents && p in g.parents[stack[|stack| - 1].commit] && after == cache[p := true] && p in yes
    ensures Walking(g, candidate, want, start, after, yes, stack)
    ensures Todo(g, after) <= Todo(g, cache)
  {
    KeepStack(g, candidate, want, cache, yes, stack, p);
    Cardinality(cache.Keys, after.Keys);
  }

  lemma {:induction false} DecideGrows(g: Graph, cache: map<Commit, bool>, c: Commit, answer: bool)
    requires cache.Keys <= g.parents.Keys && c in g.parents && c !in cache
    ensures cache.Keys <= cache[c := answer].Keys <= g.parents.Keys
    ensures |cache.Keys| < |cache[c := answer].Keys| <= |g.parents|
  {
    assert c in cache[c := answer].Keys;
    StrictSubset(cache.Keys, cache[c := answer].Keys, c);
    Cardinality(cache[c := answer].Keys, g.parents.Keys);
  }

  /** Caching "yes" for a parent outside the stack leaves the stack undecided. */
  lemma {:induction false} KeepStack(g: Graph, candidate: Commit, want: seq<Commit>, cache: map<Commit, bool>,
                                     yes: set<Commit>, stack: seq<Entry>, p: Commit)
    requires Valid(g) && stack != [] && OnStack(g, candidate, want, cache, yes, stack)
    requires p in g.parents[stack[|stack| - 1].commit]
    ensures OnStack(g, candidate, want, cache[p := true], yes, stack)
  {
    var commits := Commits(stack);
    PathGrows(g, commits, p);
    assert forall i :: 0 <= i < |stack| ==> stack[i].commit == commits[i] && commits[i] != p;
  }

  lemma {:induction false} AdvanceParent(g: Graph, candidate: Commit, want: seq<Commit>, cache: map<Commit, bool>,
                                         yes: set<Commit>, stack: seq<Entry>)
    requires stack != [] && OnStack(g, candidate, want, cache, yes, stack)
    requires var e := stack[|stack| - 1]; e.next < |g.parents[e.commit]| && g.parents[e.commit][e.next] !in yes
    ensures var n := |stack| - 1;
            OnStack(g, candidate, want, cache, yes, stack[n := Entry(stack[n].commit, stack[n].next + 1)])
  {
    var n := |stack| - 1;
    assert Commits(stack[n := Entry(stack[n].commit, stack[n].next + 1)]) == Commits(stack);
  }

  /** contains_tag_algo: the answer is plain reachability, and a cache of true answers for one
      want list stays a cache of true answers, so repeated calls agree. */
  method ContainsTagAlgo(g: Graph, candidate: Commit, want: seq<Commit>, cache: map<Commit, bool>)
    returns (contains: bool, cache': map<Commit, bool>)
    requires Valid(g) && Monotone(g) && candidate in g.parents && forall w :: w in want ==> w in g.parents
    requires cache.Keys <= g.parents.Keys && Truthful(cache, Containing(g, Elements(want)))
    ensures contains <==> candidate in Containing(g, Elements(want))
    ensures cache.Keys <= cache'.Keys <= g.parents.Keys && Truthful(cache', Containing(g, Elements(want)))
  {
    var cutoff: nat := GENERATION_NUMBER_INFINITY;
    for i := 0 to |want|
      invariant forall j :: 0 <= j < i ==> cutoff <= g.generation[want[j]]
    {
      if g.generation[want[i]] < cutoff {
        cutoff := g.generation[want[i]];
      }
    }
    ContainingCharacterised(g, want, cutoff);
    ghost var yes := Containing(g, Elements(want));
    var answer;
    answer, cache' := ContainsTest(g, candidate, want, cache, cutoff, yes);
    if answer == Unknown {
      cache' := Walk(g, candidate, want, cache', cutoff, yes);
      answer, cache' := ContainsTest(g, candidate, want, cache', cutoff, yes);
    }
    contains := answer == Yes;
  }
}
