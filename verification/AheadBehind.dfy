/** Counting commits ahead of and behind a base for many pairs in one walk (ahead_behind). */
module AheadBehind {
  import opened CommitGraph
  import opened Marks

  /** A pair of indices into the list of starting commits. */
  datatype Pair = Pair(tip: nat, base: nat)

  /** The indices of the starting commits from which `c` can be reached. */
  ghost function ReachBits(g: Graph, commits: seq<Commit>, c: Commit): set<nat> {
    set i: nat | i < |commits| && Reach(g, commits[i], c)
  }

  ghost function AllBits(g: Graph, commits: seq<Commit>): map<Commit, set<nat>> {
    map c | c in g.parents :: ReachBits(g, commits, c)
  }

  /** The commits reachable from one commit but not from another. */
  ghost function OnlyReach(g: Graph, from: Commit, without: Commit): set<Commit> {
    set c | c in g.parents && Reach(g, from, c) && !Reach(g, without, c)
  }

  /** Among `done`, the commits with bit `i` and without bit `j`. */
  ghost function With(full: map<Commit, set<nat>>, done: set<Commit>, i: nat, j: nat): set<Commit> {
    set c | c in done && c in full && i in full[c] && j !in full[c]
  }

  ghost predicate Bounded(bits: map<Commit, set<nat>>, n: nat) {
    forall c, i :: c in bits && i in bits[c] ==> i < n
  }

  /** A bitmap of `n` bits with `n` of them set has all of them set. */
  lemma {:induction false} AllSet(s: set<nat>, n: nat, i: nat)
    requires (forall k :: k in s ==> k < n) && |s| == n && i < n
    ensures i in s
  {
    if i !in s { AtMost(s + {i}, n); }
  }

  lemma {:induction false} AtMost(s: set<nat>, n: nat)
    requires forall k :: k in s ==> k < n
    ensures |s| <= n
  {
    if n == 0 {
      assert s == {};
    } else {
      AtMost(s - {n - 1}, n - 1);
    }
  }

  /** The walk's invariant. `full` holds the true bitmaps, `done` the commits already popped. */
  ghost predicate Walking(g: Graph, commits: seq<Commit>, full: map<Commit, set<nat>>, bits: map<Commit, set<nat>>,
                          done: set<Commit>, queue: set<Commit>, stale: set<Commit>) {
    && done !! queue && done <= full.Keys
    && (forall i :: 0 <= i < |commits| ==>
       commits[i] in done || (commits[i] in queue && commits[i] in bits && i in bits[commits[i]]))
    && queue <= bits.Keys <= full.Keys && (forall c :: c in bits ==> bits[c] <= full[c])
    && (forall c, p {:trigger p in g.parents[c]} :: c in done && c in g.parents && p in g.parents[c] ==>
          p in done || (p in queue && p in bits && full[c] <= bits[p]))
    && (forall c, i {:trigger i in full[c]} :: c in stale && c in full && 0 <= i < |commits| ==> i in full[c])
  }

  lemma {:induction false} FullOfAncestor(g: Graph, commits: seq<Commit>, a: Commit, b: Commit)
    requires a in g.parents && b in g.parents && Reach(g, a, b)
    ensures ReachBits(g, commits, a) <= ReachBits(g, commits, b)
  {
    forall i | i in ReachBits(g, commits, a) ensures i in ReachBits(g, commits, b) {
      ReachTrans(g, commits[i], a, b);
    }
  }

  /** Whatever a starting commit reaches and has not been popped lies below a queued commit. */
  lemma {:induction false} QueuedAbove(g: Graph, commits: seq<Commit>, bits: map<Commit, set<nat>>, done: set<Commit>,
                                       queue: set<Commit>, stale: set<Commit>, i: nat, c: Commit)
    returns (q: Commit)
    requires Valid(g) && Walking(g, commits, AllBits(g, commits), bits, done, queue, stale)
    requires i < |commits| && Reach(g, commits[i], c) && c !in done
    ensures q in queue && q in bits && Reach(g, q, c) && i in bits[q]
  {
    var s := commits[i];
    if s in done {
      var d, p := Frontier(g, done, s, c);
      q := p;
      assert i in AllBits(g, commits)[d];
    } else {
      q := s;
      ReachInGraph(g, s, c);
      if s != c { var _ := ReachFirst(g, s, c); }
    }
  }

  /** A commit of maximal generation is popped with its complete bitmap. */
  lemma {:induction false} PoppedComplete(g: Graph, commits: seq<Commit>, bits: map<Commit, set<nat>>,
                                          done: set<Commit>, queue: set<Commit>, stale: set<Commit>, c: Commit)
    requires Valid(g) && Strict(g) && Walking(g, commits, AllBits(g, commits), bits, done, queue, stale)
    requires c in queue && forall d :: d in queue && d in g.generation ==> g.generation[d] <= g.generation[c]
    ensures bits[c] == ReachBits(g, commits, c)
  {
    forall i | i in ReachBits(g, commits, c) ensures i in bits[c] {
      var q := QueuedAbove(g, commits, bits, done, queue, stale, i, c);
      if q != c { GenerationStrictlyDescends(g, q, c); }
    }
  }

  /** When only STALE commits are queued, every commit that tells two bits apart was popped. */
  lemma {:induction false} DifferenceDone(g: Graph, commits: seq<Commit>, bits: map<Commit, set<nat>>,
                                          done: set<Commit>, queue: set<Commit>, stale: set<Commit>, i: nat, j: nat,
                                          c: Commit)
    requires Valid(g) && Walking(g, commits, AllBits(g, commits), bits, done, queue, stale)
    requires forall q :: q in queue ==> q in stale
    requires i < |commits| && j < |commits| && Reach(g, commits[i], c) && !Reach(g, commits[j], c)
    ensures c in done
  {
    if c !in done {
      var q := QueuedAbove(g, commits, bits, done, queue, stale, i, c);
      assert j in AllBits(g, commits)[q];
      ReachTrans(g, commits[j], q, c);
    }
  }

  lemma {:induction false} CountsExact(g: Graph, commits: seq<Commit>, bits: map<Commit, set<nat>>, done: set<Commit>,
                                       queue: set<Commit>, stale: set<Commit>, i: nat, j: nat)
    requires Valid(g) && Walking(g, commits, AllBits(g, commits), bits, done, queue, stale)
    requires forall q :: q in queue ==> q in stale
    requires i < |commits| && j < |commits| && commits[i] in g.parents && commits[j] in g.parents
    ensures With(AllBits(g, commits), done, i, j) == OnlyReach(g, commits[i], commits[j])
  {
    forall c | c in OnlyReach(g, commits[i], commits[j]) ensures c in With(AllBits(g, commits), done, i, j) {
      DifferenceDone(g, commits, bits, done, queue, stale, i, j, c);
    }
  }

  function Get(bits: map<Commit, set<nat>>, c: Commit): set<nat> {
    if c in bits then bits[c] else {}
  }

  /** OR a bitmap into the bitmaps of all parents. */
  function OrAll(bits: map<Commit, set<nat>>, parents: seq<Commit>, mine: set<nat>): map<Commit, set<nat>> {
    if parents == [] then bits
    else
      var most := OrAll(bits, parents[..|parents| - 1], mine);
      var p := parents[|parents| - 1];
      most[p := Get(most, p) + mine]
  }

  lemma {:induction false} OrAllExact(bits: map<Commit, set<nat>>, parents: seq<Commit>, mine: set<nat>, x: Commit)
    ensures x in OrAll(bits, parents, mine) <==> x in bits || x in parents
    ensures Get(OrAll(bits, parents, mine), x) == Get(bits, x) + (if x in parents then mine else {})
  {
    if parents != [] {
      var n := |parents| - 1;
      OrAllExact(bits, parents[..n], mine, x);
      assert parents == parents[..n] + [parents[n]];
    }
  }

  ghost predicate Complete(bits: map<Commit, set<nat>>, c: Commit, n: nat) {
    c in bits && forall i :: 0 <= i < n ==> i in bits[c]
  }

  /** OR the popped bitmap into every parent, mark full parents STALE, queue new parents. */
  method PassBits(parents: seq<Commit>, mine: set<nat>, n: nat, bits: map<Commit, set<nat>>, queue: set<Commit>,
                  queued: set<Commit>, stale: set<Commit>)
    returns (bits': map<Commit, set<nat>>, queue': set<Commit>, queued': set<Commit>, stale': set<Commit>)
    requires Bounded(bits, n) && forall i :: i in mine ==> i < n
    ensures Bounded(bits', n) && bits' == OrAll(bits, parents, mine)
    ensures forall x :: x in queue' <==> x in queue || (x in parents && x !in queued)
    ensures forall x :: x in queued' <==> x in queued || x in parents
    ensures forall x :: x in stale' && x !in stale ==> x in parents && Complete(bits', x, n)
  {
    bits', queue', queued', stale' := bits, queue, queued, stale;
    for k := 0 to |parents|
      invariant Bounded(bits', n) && bits' == OrAll(bits, parents[..k], mine)
      invariant forall x :: x in queue' <==> x in queue || (x in parents[..k] && x !in queued)
      invariant forall x :: x in queued' <==> x in queued || x in parents[..k]
      invariant forall x :: x in stale' && x !in stale ==> x in parents && Complete(bits', x, n)
    {
      var p := parents[k];
      assert parents[..k + 1] == parents[..k] + [p] && parents[..k + 1][..k] == parents[..k];
      var b := Get(bits', p) + mine;
      ghost var was := bits';
      bits' := bits'[p := b];
      assert forall x :: Complete(was, x, n) ==> Complete(bits', x, n);
      if |b| == n {
        forall i | 0 <= i < n ensures i in b { AllSet(b, n, i); }
        assert Complete(bits', p, n);
        stale' := stale' + {p};
      }
      if p !in queued' {
        queue' := queue' + {p};
        queued' := queued' + {p};
      }
    }
    assert parents[..|parents|] == parents;
  }

  /** The bitmaps once `c` has passed on its own and has freed it. */
  ghost predicate Passed(bits: map<Commit, set<nat>>, parents: seq<Commit>, c: Commit, after: map<Commit, set<nat>>)
    requires c in bits
  {
    && (forall x :: x in after ==> x in bits || x in parents)
    && (forall x :: x in bits && x != c ==> x in after && bits[x] <= after[x])
    && (forall x :: x in parents ==> x in after && bits[c] <= after[x])
    && (forall x, i {:trigger i in after[x]} :: x in after && i in after[x] ==>
          (x in bits && i in bits[x]) || (x in parents && i in bits[c]))
  }

  lemma {:induction false} OrAllPasses(bits: map<Commit, set<nat>>, parents: seq<Commit>, c: Commit)
    requires c in bits && c !in parents
    ensures Passed(bits, parents, c, OrAll(bits, parents, bits[c]) - {c})
  {
    var all := OrAll(bits, parents, bits[c]);
    forall x
      ensures x in all <==> x in bits || x in parents
      ensures Get(all, x) == Get(bits, x) + (if x in parents then bits[c] else {})
    {
      OrAllExact(bits, parents, bits[c], x);
    }
    forall x | x in all ensures all[x] == Get(bits, x) + (if x in parents then bits[c] else {}) {
      assert Get(all, x) == all[x];
    }
  }

  /** Popping `c` with its complete bitmap keeps the walk's invariant. */
  lemma {:induction false} PopKeepsWalking(g: Graph, commits: seq<Commit>, full: map<Commit, set<nat>>,
                                           bits: map<Commit, set<nat>>, done: set<Commit>, queue: set<Commit>,
                                           stale: set<Commit>, c: Commit, after: map<Commit, set<nat>>,
                                           queue': set<Commit>, stale': set<Commit>)
    requires c in queue && c in g.parents && Walking(g, commits, full, bits, done, queue, stale)
    requires bits[c] == full[c] && Passed(bits, g.parents[c], c, after)
    requires forall p :: p in g.parents[c] ==> p in full && p != c && full[c] <= full[p]
    requires forall x :: x in queue' <==> (x in queue && x != c) || (x in g.parents[c] && x !in done && x !in queue)
    requires forall x :: x in stale' && x !in stale ==> Complete(after, x, |commits|)
    ensures Walking(g, commits, full, after, done + {c}, queue', stale')
  {
    forall x, i | x in stale' && x in full && 0 <= i < |commits| ensures i in full[x] {
      if x !in stale { assert i in after[x]; }
    }
    forall x | x in after ensures x in full && after[x] <= full[x] {
      forall i | i in after[x] ensures i in full[x] {}
    }
  }

  lemma {:induction false} WithGrows(full: map<Commit, set<nat>>, done: set<Commit>, c: Commit, i: nat, j: nat)
    requires c !in done && c in full
    ensures |With(full, done + {c}, i, j)| == |With(full, done, i, j)| + if i in full[c] && j !in full[c] then 1 else 0
  {
    if i in full[c] && j !in full[c] {
      assert With(full, done + {c}, i, j) == With(full, done, i, j) + {c};
    } else {
      assert With(full, done + {c}, i, j) == With(full, done, i, j);
    }
  }

  /** The counters agree with the commits popped so far. */
  ghost predicate Counted(full: map<Commit, set<nat>>, done: set<Commit>, pairs: seq<Pair>, ahead: seq<nat>,
                          behind: seq<nat>) {
    && |ahead| == |pairs| && |behind| == |pairs|
    && (forall k :: 0 <= k < |pairs| ==> ahead[k] == |With(full, done, pairs[k].tip, pairs[k].base)|)
    && (forall k :: 0 <= k < |pairs| ==> behind[k] == |With(full, done, pairs[k].base, pairs[k].tip)|)
  }

  method CountPopped(mine: set<nat>, pairs: seq<Pair>, ahead: seq<nat>, behind: seq<nat>,
                     ghost full: map<Commit, set<nat>>, ghost done: set<Commit>, ghost c: Commit)
    returns (ahead': seq<nat>, behind': seq<nat>)
    requires Counted(full, done, pairs, ahead, behind) && c !in done && c in full && full[c] == mine
    ensures Counted(full, done + {c}, pairs, ahead', behind')
  {
    ahead', behind' := ahead, behind;
    for k := 0 to |pairs|
      invariant |ahead'| == |pairs| && |behind'| == |pairs|
      invariant forall j :: k <= j < |pairs| ==> ahead'[j] == ahead[j] && behind'[j] == behind[j]
      invariant forall j :: 0 <= j < k ==> ahead'[j] == |With(full, done + {c}, pairs[j].tip, pairs[j].base)|
      invariant forall j :: 0 <= j < k ==> behind'[j] == |With(full, done + {c}, pairs[j].base, pairs[j].tip)|
    {
      WithGrows(full, done, c, pairs[k].tip, pairs[k].base);
      WithGrows(full, done, c, pairs[k].base, pairs[k].tip);
      var fromTip, fromBase := pairs[k].tip in mine, pairs[k].base in mine;
      if fromTip != fromBase {
        if fromBase {
          behind' := behind'[k := behind'[k] + 1];
        } else {
          ahead' := ahead'[k := ahead'[k] + 1];
        }
      }
    }
  }

  method StartBits(commits: seq<Commit>) returns (bits: map<Commit, set<nat>>, queue: set<Commit>)
    ensures queue == Elements(commits) && bits.Keys == queue && Bounded(bits, |commits|)
    ensures forall c, i {:trigger i in bits[c]} :: c in bits && i in bits[c] ==> i < |commits| && commits[i] == c
    ensures forall i :: 0 <= i < |commits| ==> commits[i] in bits && i in bits[commits[i]]
  {
    bits, queue := map[], {};
    for k := 0 to |commits|
      invariant forall x :: x in queue <==> x in commits[..k]
      invariant forall x :: x in bits <==> x in commits[..k]
      invariant forall c, i {:trigger i in bits[c]} :: c in bits && i in bits[c] ==> i < k && commits[i] == c
      invariant forall i :: 0 <= i < k ==> commits[i] in bits && i in bits[commits[i]]
    {
      var c := commits[k];
      assert commits[..k + 1] == commits[..k] + [c];
      bits := bits[c := Get(bits, c) + {k}];
      queue := queue + {c};
    }
    assert commits[..|commits|] == commits;
  }

  /** The facts about the true bitmaps that the walk needs. */
  ghost predicate Bitmaps(g: Graph, commits: seq<Commit>, full: map<Commit, set<nat>>) {
    && full.Keys == g.parents.Keys
    && (forall c, i {:trigger i in full[c]} :: c in full && i in full[c] ==> i < |commits|)
    && (forall c, p {:trigger p in g.parents[c]} :: c in g.parents && p in g.parents[c] ==>
          p in full && p != c && full[c] <= full[p])
    && (forall i :: 0 <= i < |commits| && commits[i] in full ==> i in full[commits[i]])
  }

  lemma {:induction false} AllBitsAreBitmaps(g: Graph, commits: seq<Commit>)
    requires Valid(g)
    ensures Bitmaps(g, commits, AllBits(g, commits))
  {
    forall c, p | c in g.parents && p in g.parents[c]
      ensures p != c && ReachBits(g, commits, c) <= ReachBits(g, commits, p)
    {
      ReachSelf(g, c);
      ReachParent(g, c, c, p);
      FullOfAncestor(g, commits, c, p);
    }
    forall i | 0 <= i < |commits| && commits[i] in g.parents ensures i in ReachBits(g, commits, commits[i]) {
      ReachSelf(g, commits[i]);
    }
  }

  /** ahead_behind: with strictly decreasing generations every pair gets exactly the number of
      commits reachable from one side only, although the walk stops at STALE commits. */
  method AheadBehind(g: Graph, commits: seq<Commit>, pairs: seq<Pair>) returns (ahead: seq<nat>, behind: seq<nat>)
    requires Valid(g) && Strict(g) && forall c :: c in commits ==> c in g.parents
    requires forall k :: 0 <= k < |pairs| ==> pairs[k].tip < |commits| && pairs[k].base < |commits|
    ensures |ahead| == |pairs| && |behind| == |pairs|
    ensures forall k :: 0 <= k < |pairs| ==> ahead[k] == |OnlyReach(g, commits[pairs[k].tip], commits[pairs[k].base])|
    ensures forall k :: 0 <= k < |pairs| ==> behind[k] == |OnlyReach(g, commits[pairs[k].base], commits[pairs[k].tip])|
  {
    ghost var full := AllBits(g, commits);
    AllBitsAreBitmaps(g, commits);
    ghost var bits, done, queue, stale;
    ahead, behind, bits, done, queue, stale := Walk(g, commits, pairs, full);
    forall k | 0 <= k < |pairs|
      ensures ahead[k] == |OnlyReach(g, commits[pairs[k].tip], commits[pairs[k].base])|
      ensures behind[k] == |OnlyReach(g, commits[pairs[k].base], commits[pairs[k].tip])|
    {
      CountsExact(g, commits, bits, done, queue, stale, pairs[k].tip, pairs[k].base);
      CountsExact(g, commits, bits, done, queue, stale, pairs[k].base, pairs[k].tip);
    }
  }

  lemma {:induction false} InitiallyWalking(g: Graph, commits: seq<Commit>, full: map<Commit, set<nat>>,
                                            bits: map<Commit, set<nat>>, queue: set<Commit>)
    requires Bitmaps(g, commits, full) && forall c :: c in commits ==> c in g.parents
    requires queue == Elements(commits) && bits.Keys == queue
    requires forall c, i {:trigger i in bits[c]} :: c in bits && i in bits[c] ==> i < |commits| && commits[i] == c
    requires forall i :: 0 <= i < |commits| ==> commits[i] in bits && i in bits[commits[i]]
    ensures Walking(g, commits, full, bits, {}, queue, {})
  {
    forall c, i | c in bits && i in bits[c] ensures c in full && i in full[c] {
      assert commits[i] in commits;
    }
  }

  lemma {:induction false} InitiallyCounted(full: map<Commit, set<nat>>, pairs: seq<Pair>)
    ensures Counted(full, {}, pairs, seq(|pairs|, _ => 0), seq(|pairs|, _ => 0))
  {
    assert forall k :: 0 <= k < |pairs| ==> With(full, {}, pairs[k].tip, pairs[k].base) == {};
    assert forall k :: 0 <= k < |pairs| ==> With(full, {}, pairs[k].base, pairs[k].tip) == {};
  }

  /** The body of the loop for a commit popped with its complete bitmap. */
  method VisitPopped(g: Graph, commits: seq<Commit>, c: Commit, bits: map<Commit, set<nat>>, queue: set<Commit>,
                     queued: set<Commit>, stale: set<Commit>, ghost full: map<Commit, set<nat>>,
                     ghost done: set<Commit>)
    returns (bits': map<Commit, set<nat>>, queue': set<Commit>, queued': set<Commit>, stale': set<Commit>)
    requires Bitmaps(g, commits, full) && Walking(g, commits, full, bits, done, queue, stale)
    requires Bounded(bits, |commits|)
    requires forall x :: x in queued <==> x in done || x in queue
    requires c in queue && bits[c] == full[c]
    ensures Walking(g, commits, full, bits', done + {c}, queue', stale') && Bounded(bits', |commits|)
    ensures forall x :: x in queued' <==> x in done + {c} || x in queue'
  {
    OrAllPasses(bits, g.parents[c], c);
    var all;
    all, queue', queued', stale' := PassBits(g.parents[c], bits[c], |commits|, bits, queue - {c}, queued, stale);
    bits' := all - {c};
    PopKeepsWalking(g, commits, full, bits, done, queue, stale, c, bits', queue', stale');
  }

  method Walk(g: Graph, commits: seq<Commit>, pairs: seq<Pair>, ghost full: map<Commit, set<nat>>)
    returns (ahead: seq<nat>, behind: seq<nat>, ghost bits: map<Commit, set<nat>>, ghost done: set<Commit>,
             ghost queue: set<Commit>, ghost stale: set<Commit>)
    requires Valid(g) && Strict(g) && full == AllBits(g, commits) && Bitmaps(g, commits, full)
    requires forall c :: c in commits ==> c in g.parents
    ensures Counted(full, done, pairs, ahead, behind)
    ensures Walking(g, commits, full, bits, done, queue, stale) && forall q :: q in queue ==> q in stale
  {
    var b, q := StartBits(commits);
    var flagged, st: set<Commit> := q, {};
    ahead, behind := seq(|pairs|, _ => 0), seq(|pairs|, _ => 0);
    done := {};
    InitiallyWalking(g, commits, full, b, q);
    InitiallyCounted(full, pairs);
    while exists c :: c in q && c !in st
      invariant Walking(g, commits, full, b, done, q, st) && Bounded(b, |commits|)
      invariant Counted(full, done, pairs, ahead, behind)
      invariant forall x :: x in flagged <==> x in done || x in q
      decreases |full| - |done|
    {
      var c := PrioQueueGet(g, multiset(q), true);
      PoppedComplete(g, commits, b, done, q, st, c);
      ahead, behind := CountPopped(b[c], pairs, ahead, behind, full, done, c);
      b, q, flagged, st := VisitPopped(g, commits, c, b, q, flagged, st, full, done);
      Cardinality(done + {c}, full.Keys);
      done := done + {c};
    }
    bits, queue, stale := b, q, st;
  }
}
