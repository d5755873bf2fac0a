/** Merge bases: painting, dropping STALE finds, then dropping redundant ones. */
module MergeBasesQuery {
  import opened CommitGraph
  import opened Marks
  import opened Painting
  import opened Redundancy

  /** `one` among `twos` is its own and only merge base. */
  lemma {:induction false} OneIsOnlyBase(g: Graph, one: Commit, twos: set<Commit>)
    requires Valid(g) && one in g.parents && one in twos
    ensures MergeBases(g, one, twos) == {one}
  {
    var common := CommonAncestors(g, one, twos);
    ReachSelf(g, one);
    assert one in common;
    forall d | d in common && d != one ensures !Reach(g, d, one) && d !in MergeBases(g, one, twos) {
      if Reach(g, d, one) { ReachAntisymmetric(g, d, one); }
    }
  }

  /** Sifting any set between the merge bases and all common ancestors gives the merge bases. */
  lemma {:induction false} SiftedAreMergeBases(g: Graph, one: Commit, twos: set<Commit>, s: set<Commit>)
    requires Valid(g)
    requires MergeBases(g, one, twos) <= s <= CommonAncestors(g, one, twos)
    ensures Independent(g, s) == MergeBases(g, one, twos)
  {
    var common := CommonAncestors(g, one, twos);
    forall c | c in Independent(g, s) ensures c in MergeBases(g, one, twos) {
      var top := TopAbove(g, common, c);
      assert top in MergeBases(g, one, twos);
    }
  }

  lemma {:induction false} SingleIsMergeBase(g: Graph, one: Commit, twos: set<Commit>, s: set<Commit>)
    requires Valid(g) && |s| <= 1
    requires MergeBases(g, one, twos) <= s <= CommonAncestors(g, one, twos)
    ensures s == MergeBases(g, one, twos)
  {
    SiftedAreMergeBases(g, one, twos, s);
    forall c | c in s ensures c in Independent(g, s) {
      if d :| d in s && d != c { Cardinality({c, d}, s); }
    }
  }

  /** What a painting over the whole history leaves: all merge bases, and nothing that is not
      a common ancestor. */
  method PaintedCandidates(g: Graph, one: Commit, twos: seq<Commit>, m: Flags) returns (result: seq<Commit>)
    requires Valid(g) && one in g.parents && forall t :: t in twos ==> t in g.parents
    requires m.Clean()
    modifies m
    ensures Distinct(result)
    ensures twos == [] ==> result == [one]
    ensures twos != [] ==>
              MergeBases(g, one, Elements(twos)) <= Elements(result) <= CommonAncestors(g, one, Elements(twos))
    ensures m.Marked() <= g.parents.Keys && Rooted(g, {one} + Elements(twos), m.Marked())
  {
    var list, last := PaintDownToCommon(g, one, twos, 0, m);
    if twos == [] {
      assert Keep([one], {one}) == [one];
      result := [one];
      AllPendingRooted(g, {one} + Elements(twos), m.Marked());
      return;
    }
    var live := set c | c in list && c !in m.stale;
    result := Keep(list, live);
    KeepElements(list, live);
    KeepDistinct(list, live);
    ghost var starts := Elements(twos);
    PaintedCanBeCleared(g, one, starts, last, m.Marked());
    forall c | c in list ensures c in CommonAncestors(g, one, starts) {
      FlaggedCommon(g, one, starts, last, c);
    }
    AllStaleAtTheEnd(g, one, starts, last);
    forall c | c in MergeBases(g, one, starts) ensures c in result {
      MergeBasesFound(g, one, starts, last, c);
    }
  }

  lemma {:induction false} AllStaleAtTheEnd(g: Graph, one: Commit, twos: set<Commit>, s: Paint)
    requires Valid(g) && Sound(g, one, twos, s) && Consistent(s) && Exhausted(g, s, 0)
    ensures forall c :: c in s.queue ==> c in s.stale
  {
    FlaggedInGraph(g, one, twos, s);
  }

  /** merge_bases_many */
  method MergeBasesMany(g: Graph, one: Commit, twos: seq<Commit>, m: Flags) returns (result: seq<Commit>)
    requires Valid(g) && one in g.parents && forall t :: t in twos ==> t in g.parents
    requires m.Clean()
    modifies m
    ensures Distinct(result)
    ensures twos == [] ==> result == [one]
    ensures twos != [] ==>
              MergeBases(g, one, Elements(twos)) <= Elements(result) <= CommonAncestors(g, one, Elements(twos))
    ensures one in twos ==> result == [one] && m.Clean()
    ensures m.Marked() <= g.parents.Keys && Rooted(g, {one} + Elements(twos), m.Marked())
  {
    for i := 0 to |twos|
      invariant m.Clean() && one !in twos[..i]
    {
      if one == twos[i] {
        OneIsOnlyBase(g, one, Elements(twos));
        ReachSelf(g, one);
        return [one];
      }
      assert twos[..i + 1] == twos[..i] + [twos[i]];
    }
    assert twos[..|twos|] == twos;
    result := PaintedCandidates(g, one, twos, m);
  }

  /** get_merge_bases_many_0: exactly the maximal common ancestors, for every graph, every date
      and every generation assignment that does not increase towards parents. */
  method GetMergeBasesMany(g: Graph, one: Commit, twos: seq<Commit>, cleanup: bool, generationNumbersEnabled: bool,
                           m: Flags)
    returns (result: seq<Commit>)
    requires Valid(g) && Monotone(g) && one in g.parents && forall t :: t in twos ==> t in g.parents
    requires m.Clean()
    modifies m
    ensures Distinct(result)
    ensures twos != [] ==> Elements(result) == MergeBases(g, one, Elements(twos))
    ensures twos == [] ==> result == [one]
    ensures cleanup ==> m.Clean()
  {
    result := MergeBasesMany(g, one, twos, m);
    if one in twos {
      OneIsOnlyBase(g, one, Elements(twos));
      return;
    }
    assert Elements([one] + twos) == {one} + Elements(twos);
    if |result| <= 1 {
      if cleanup {
        ClearAllFlags(g, [one] + twos, m);
      }
      if twos != [] {
        AtMostOne(result);
        SingleIsMergeBase(g, one, Elements(twos), Elements(result));
      }
      return;
    }
    ClearAllFlags(g, [one] + twos, m);
    var rslt := new Commit[|result|](i requires 0 <= i < |result| => result[i]);
    assert rslt[..] == result;
    assert forall c :: c in result ==> c in Elements(result);
    var cnt := RemoveRedundant(g, rslt, m, generationNumbersEnabled);
    SiftedAreMergeBases(g, one, Elements(twos), Elements(result));
    KeepElements(result, Independent(g, Elements(result)));
    KeepDistinct(result, Independent(g, Elements(result)));
    result := rslt[..cnt];
  }

  lemma {:induction false} AtMostOne(list: seq<Commit>)
    requires |list| <= 1
    ensures |Elements(list)| <= 1
  {
    if |list| == 1 { assert Elements(list) == {list[0]}; }
  }
}
