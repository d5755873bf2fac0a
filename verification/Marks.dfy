/** Object flags on commits, the priority queue, and clearing of flags (commit.c). */
module Marks {
  import opened CommitGraph

  ghost predicate Distinct(list: seq<Commit>) {
    forall i, j :: 0 <= i < j < |list| ==> list[i] != list[j]
  }

  function Elements(list: seq<Commit>): set<Commit> {
    set c | c in list
  }

  /** The flag bits PARENT1, PARENT2, STALE and RESULT of all commits, each as the set of
      commits that carry it. */
  class Flags {
    var parent1: set<Commit>
    var parent2: set<Commit>
    var stale: set<Commit>
    var result: set<Commit>

    constructor ()
      ensures Clean()
    {
      parent1, parent2, stale, result := {}, {}, {}, {};
    }

    ghost predicate Clean()
      reads this
    {
      parent1 == {} && parent2 == {} && stale == {} && result == {}
    }

    function Marked(): set<Commit>
      reads this
    {
      parent1 + parent2 + stale + result
    }
  }

  /** Taking from the queue promises only what the comparator promises: under the generation
      comparator no queued commit has a higher generation. Dates are never relied upon. */
  method PrioQueueGet(g: Graph, queue: multiset<Commit>, byGeneration: bool) returns (c: Commit)
    requires |queue| > 0
    requires forall d :: d in queue ==> d in g.generation
    ensures c in queue
    ensures byGeneration ==> forall d :: d in queue ==> g.generation[d] <= g.generation[c]
  {
    c :| c in queue;
    var rest := queue[c := 0];
    while |rest| > 0
      invariant c in queue && rest <= queue
      invariant forall d :: d in queue && d !in rest ==> g.generation[d] <= g.generation[c]
      decreases |rest|
    {
      var d :| d in rest;
      if g.generation[c] < g.generation[d] {
        c := d;
      }
      rest := rest[d := 0];
    }
  }

  /** Every member of a finite set lies below a member that no other member reaches. */
  lemma {:induction false} TopAbove(g: Graph, s: set<Commit>, y: Commit) returns (m: Commit)
    requires Valid(g) && y in s && y in g.parents
    ensures m in s && Reach(g, m, y)
    ensures forall d :: d in s && d != m ==> !Reach(g, d, m)
    decreases |set z | z in s && Reach(g, z, y)|
  {
    ReachSelf(g, y);
    if d :| d in s && d != y && Reach(g, d, y) {
      var above := set z | z in s && Reach(g, z, d);
      var here := set z | z in s && Reach(g, z, y);
      forall z | z in above ensures z in here {
        ReachTrans(g, z, d, y);
      }
      assert y in here && y !in above by {
        if Reach(g, y, d) { ReachAntisymmetric(g, y, d); }
      }
      StrictSubset(above, here, y);
      ReachInGraph(g, d, y);
      m := TopAbove(g, s, d);
      ReachTrans(g, m, d, y);
    } else {
      m := y;
    }
  }

  lemma {:induction false} StrictSubset(a: set<Commit>, b: set<Commit>, x: Commit)
    requires a <= b && x in b && x !in a
    ensures |a| < |b|
  {
    Cardinality(a, b - {x});
  }

  lemma {:induction false} Cardinality(a: set<Commit>, b: set<Commit>)
    requires a <= b
    ensures |a| <= |b|
  {
    if x :| x in a {
      Cardinality(a - {x}, b - {x});
    }
  }

  /** Every marked commit is pending or a parent of a marked commit. */
  ghost predicate Rooted(g: Graph, pending: set<Commit>, marked: set<Commit>) {
    forall x {:trigger HasMarkedChild(g, marked, x)} :: x in marked && x !in pending ==> HasMarkedChild(g, marked, x)
  }

  ghost predicate HasMarkedChild(g: Graph, marked: set<Commit>, x: Commit) {
    exists c {:trigger x in g.parents[c]} :: c in marked && c in g.parents && x in g.parents[c]
  }

  lemma {:induction false} AllPendingRooted(g: Graph, pending: set<Commit>, marked: set<Commit>)
    requires marked <= pending
    ensures Rooted(g, pending, marked)
  {
  }

  lemma {:induction false} NothingLeft(g: Graph, marked: set<Commit>)
    requires Valid(g) && marked <= g.parents.Keys && Rooted(g, {}, marked)
    ensures marked == {}
  {
    if y :| y in marked {
      var m := TopAbove(g, marked, y);
      assert HasMarkedChild(g, marked, m);
      var c :| c in marked && c in g.parents && m in g.parents[c];
      ReachSelf(g, m);
      ReachVia(g, c, m, m);
    }
  }

  /** Unmarking a commit keeps the rest rooted once its marked parents are pending. */
  lemma {:induction false} UnmarkKeepsRooted(g: Graph, pending: set<Commit>, marked: set<Commit>, c: Commit,
                                             pending': set<Commit>)
    requires Rooted(g, pending, marked) && c in g.parents
    requires forall x :: x in pending && x != c ==> x in pending'
    requires c in marked ==> forall p :: p in g.parents[c] && p in marked ==> p in pending'
    ensures Rooted(g, pending', marked - {c})
  {
    forall x | x in marked - {c} && x !in pending'
      ensures HasMarkedChild(g, marked - {c}, x)
    {
      assert HasMarkedChild(g, marked, x);
      var d :| d in marked && d in g.parents && x in g.parents[d];
      assert d in marked - {c};
    }
  }

  /** The marked commits of a parent list. */
  function MarkedOf(parents: seq<Commit>, marked: set<Commit>): (r: seq<Commit>)
    ensures forall c :: c in r <==> c in parents && c in marked
  {
    if parents == [] then []
    else
      assert parents == [parents[0]] + parents[1..];
      (if parents[0] in marked then [parents[0]] else []) + MarkedOf(parents[1..], marked)
  }

  /** One commit taken from the list of commits still to be looked at. */
  lemma {:induction false} ClearStep(g: Graph, list: seq<Commit>, extra: set<Commit>, pending: set<Commit>,
                                     left: set<Commit>, more: seq<Commit>)
    returns (pending': set<Commit>)
    requires Valid(g) && list != [] && list[0] in g.parents && Rooted(g, pending, left)
    requires forall x :: x in pending ==> x in list || x in extra
    requires list[0] in left ==> forall p :: p in g.parents[list[0]] && p in left ==> p in more
    ensures Rooted(g, pending', left - {list[0]})
    ensures forall x :: x in pending' ==> x in more + list[1..] || x in extra
  {
    var c := list[0];
    assert list == [c] + list[1..];
    pending' := (set x | x in pending && x != c) + Elements(more);
    UnmarkKeepsRooted(g, pending, left, c, pending');
  }

  /** clear_commit_marks_many over the commits `starts`, for the union of the cleared bits. */
  method ClearCommitMarks(g: Graph, starts: seq<Commit>, marked: set<Commit>) returns (left: set<Commit>)
    requires Valid(g) && marked <= g.parents.Keys
    requires forall c :: c in starts ==> c in g.parents
    ensures left <= marked
    ensures Rooted(g, Elements(starts), marked) ==> left == {}
  {
    left := marked;
    ghost var rooted := Rooted(g, Elements(starts), marked);
    ghost var extra := if rooted then {} else marked;
    ghost var pending := if rooted then Elements(starts) else marked;
    var list := starts;
    while list != []
      invariant left <= marked
      invariant forall c :: c in list ==> c in g.parents
      invariant Rooted(g, pending, left)
      invariant forall x :: x in pending ==> x in list || x in extra
      decreases |left|, |list|
    {
      var c := list[0];
      var more := if c in left then MarkedOf(g.parents[c], left) else [];
      pending := ClearStep(g, list, extra, pending, left, more);
      assert forall x :: x in more + list[1..] ==> x in more || x in list;
      left := left - {c};
      list := more + list[1..];
    }
    if rooted {
      assert pending == {};
      NothingLeft(g, left);
    }
  }

  /** Clearing all four bits, starting from `starts`. */
  method ClearAllFlags(g: Graph, starts: seq<Commit>, m: Flags)
    requires Valid(g) && m.Marked() <= g.parents.Keys
    requires forall c :: c in starts ==> c in g.parents
    modifies m
    ensures Rooted(g, Elements(starts), old(m.Marked())) ==> m.Clean()
  {
    var marked := m.Marked();
    var left := ClearCommitMarks(g, starts, marked);
    m.parent1 := m.parent1 * left;
    m.parent2 := m.parent2 * left;
    m.stale := m.stale * left;
    m.result := m.result * left;
  }

  ghost predicate Ascending(g: Graph, list: seq<Commit>)
    requires forall c :: c in list ==> c in g.generation
  {
    forall i, j :: 0 <= i <= j < |list| ==> g.generation[list[i]] <= g.generation[list[j]]
  }

  /** Insertion before the first commit of higher generation. */
  function InsertByGeneration(g: Graph, sorted: seq<Commit>, c: Commit): (r: seq<Commit>)
    requires c in g.generation && forall d :: d in sorted ==> d in g.generation
    ensures |r| == |sorted| + 1 && forall d :: d in r <==> d == c || d in sorted
  {
    if sorted == [] then [c]
    else if g.generation[c] < g.generation[sorted[0]] then [c] + sorted
    else
      assert sorted == [sorted[0]] + sorted[1..];
      [sorted[0]] + InsertByGeneration(g, sorted[1..], c)
  }

  lemma {:induction false} InsertKeepsAscending(g: Graph, sorted: seq<Commit>, c: Commit)
    requires c in g.generation && (forall d :: d in sorted ==> d in g.generation) && Ascending(g, sorted)
    ensures Ascending(g, InsertByGeneration(g, sorted, c))
  {
    if sorted != [] && g.generation[sorted[0]] <= g.generation[c] {
      var rest := InsertByGeneration(g, sorted[1..], c);
      InsertKeepsAscending(g, sorted[1..], c);
      assert forall d :: d in rest ==> d == c || d in sorted[1..];
      assert forall d :: d in sorted[1..] ==> g.generation[sorted[0]] <= g.generation[d];
    }
  }

  /** QSORT with the generation comparator. */
  method SortByGeneration(g: Graph, list: seq<Commit>) returns (sorted: seq<Commit>)
    requires forall c :: c in list ==> c in g.generation
    ensures |sorted| == |list| && forall c :: c in sorted <==> c in list
    ensures Ascending(g, sorted)
  {
    sorted := [];
    for i := 0 to |list|
      invariant |sorted| == i && forall c :: c in sorted <==> c in list[..i]
      invariant Ascending(g, sorted)
    {
      InsertKeepsAscending(g, sorted, list[i]);
      sorted := InsertByGeneration(g, sorted, list[i]);
      assert list[..i + 1] == list[..i] + [list[i]];
    }
    assert list[..|list|] == list;
  }
}
