/** Bringing the cache up to date (update_one). */
module CacheTreeUpdate {
  import opened Bytes
  import opened CacheTree
  import opened IndexGroups

  predicate IsNull(oid: Oid) {
    forall i :: 0 <= i < |oid| ==> oid[i] == 0
  }

  ghost predicate NeverNull(h: Hash) {
    forall ls :: !IsNull(h(ls))
  }

  /** The test on the object of a line. */
  predicate NoObject(mode: nat, oid: Oid, odb: set<Oid>, missingOk: bool) {
    IsNull(oid) || (!(mode == S_IFGITLINK || missingOk) && oid !in odb)
  }

  /** An entry whose object is not there. */
  predicate Missing(e: Entry, odb: set<Oid>, missingOk: bool) {
    NoObject(e.mode, e.oid, odb, missingOk)
  }

  /** An entry is missing if its id is null, or its object is not there and it is not the commit of a
      sub-module, mode 160000 octal. */
  lemma {:induction false} MissingMeans(e: Entry, odb: set<Oid>, missingOk: bool)
    ensures Missing(e, odb, missingOk) <==>
            (forall b :: b in e.oid ==> b == 0) || (e.mode != 57344 && !missingOk && e.oid !in odb)
  {
    if forall b :: b in e.oid ==> b == 0 {
      forall i | 0 <= i < |e.oid| ensures e.oid[i] == 0 { assert e.oid[i] in e.oid; }
    }
  }

  datatype Outcome = Count(n: nat) | Failed

  // ---- which entries are looked at ----

  /** A node that is taken as it is: valid, and its object is there. */
  predicate Trusted(t: Tree, odb: set<Oid>) { t.count >= 0 && t.oid in odb }

  function Rest(path: Text): Text
    requires !Plain(path)
  {
    path[IndexOf(path, SLASH) + 1..]
  }

  /** The entry at `path` is below a node that is taken as it is. */
  ghost predicate Covered(t: Tree, path: Text, odb: set<Oid>)
    decreases t
  {
    Trusted(t, odb) || (!Plain(path) && exists k :: 0 <= k < |t.down| && t.down[k].name == Top(path)
                                                    && Covered(t.down[k].tree, Rest(path), odb))
  }

  /** The object of the entry is there, or need not be looked for. */
  ghost predicate ServedAt(t: Tree, e: Entry, odb: set<Oid>, missingOk: bool) {
    !Missing(e, odb, missingOk) || Covered(t, e.path, odb)
  }

  ghost predicate Served(t: Tree, es: seq<Entry>, odb: set<Oid>, missingOk: bool) {
    forall e {:trigger ServedAt(t, e, odb, missingOk)} :: e in es ==> ServedAt(t, e, odb, missingOk)
  }

  lemma {:induction false} CoveredMore(t: Tree, path: Text, odb: set<Oid>, odb': set<Oid>)
    requires Covered(t, path, odb) && odb <= odb'
    ensures Covered(t, path, odb')
    decreases t
  {
    if !Trusted(t, odb) {
      var k :| 0 <= k < |t.down| && t.down[k].name == Top(path) && Covered(t.down[k].tree, Rest(path), odb);
      CoveredMore(t.down[k].tree, Rest(path), odb, odb');
    }
  }

  lemma {:induction false} ServedMore(t: Tree, e: Entry, odb: set<Oid>, odb': set<Oid>, missingOk: bool)
    requires ServedAt(t, e, odb, missingOk) && odb <= odb'
    ensures ServedAt(t, e, odb', missingOk)
  {
    if Covered(t, e.path, odb) { CoveredMore(t, e.path, odb, odb'); }
  }

  /** No node is valid. */
  ghost predicate NothingValid(t: Tree)
    decreases t
  {
    t.count < 0 && forall i :: 0 <= i < |t.down| ==> NothingValid(t.down[i].tree)
  }

  /** Without a valid node every entry is looked at. */
  lemma {:induction false} NothingCovered(t: Tree, path: Text, odb: set<Oid>)
    requires NothingValid(t)
    ensures !Covered(t, path, odb)
    decreases t
  {
    forall k | 0 <= k < |t.down| && !Plain(path) ensures !Covered(t.down[k].tree, Rest(path), odb) {
      NothingCovered(t.down[k].tree, Rest(path), odb);
    }
  }

  /** The sub-tree called `name`; an empty one if there is none yet. */
  ghost predicate SubIs(down: seq<Sub>, name: Text, tree: Tree) {
    Sub(name, tree) in down || (!HasSub(down, name) && tree == EmptyTree())
  }

  /** What the sub-tree for its first directory covers is covered; and if the node is not taken as it
      is, nothing else is. */
  lemma {:induction false} CoveredBySub(t: Tree, path: Text, name: Text, sub: Tree, odb: set<Oid>)
    requires DownSorted(t.down) && !Plain(path) && name == Top(path) && SubIs(t.down, name, sub)
    ensures Covered(sub, Rest(path), odb) ==> Covered(t, path, odb)
    ensures Covered(t, path, odb) && !Trusted(t, odb) ==> Covered(sub, Rest(path), odb)
  {
    if Covered(sub, Rest(path), odb) {
      if Sub(name, sub) !in t.down { NothingCovered(EmptyTree(), Rest(path), odb); }
      var k :| 0 <= k < |t.down| && t.down[k] == Sub(name, sub);
    }
    if Covered(t, path, odb) && !Trusted(t, odb) {
      var k :| 0 <= k < |t.down| && t.down[k].name == Top(path) && Covered(t.down[k].tree, Rest(path), odb);
      assert HasSub(t.down, name);
      OneSub(t.down, k, sub);
    }
  }

  lemma {:induction false} OneSub(down: seq<Sub>, k: nat, tree: Tree)
    requires DownSorted(down) && k < |down| && Sub(down[k].name, tree) in down
    ensures down[k].tree == tree
  {
    var i :| 0 <= i < |down| && down[i] == Sub(down[k].name, tree);
    if i < k { NamesDiffer(down, i, k); }
    if k < i { NamesDiffer(down, k, i); }
  }

  lemma {:induction false} NamesDiffer(down: seq<Sub>, i: nat, j: nat)
    requires DownSorted(down) && i < j < |down|
    ensures down[i].name != down[j].name
  {
    NameBeforeTotal(down[i].name, down[i].name);
    assert NameBefore(down[i].name, down[j].name);
  }

  lemma {:induction false} ServedUp(t: Tree, e: Entry, name: Text, sub: Tree, odb: set<Oid>, missingOk: bool)
    requires DownSorted(t.down) && !Plain(e.path) && name == Top(e.path) && SubIs(t.down, name, sub)
    ensures ServedAt(sub, e.(path := Rest(e.path)), odb, missingOk) ==> ServedAt(t, e, odb, missingOk)
    ensures ServedAt(t, e, odb, missingOk) && !Trusted(t, odb) ==>
            ServedAt(sub, e.(path := Rest(e.path)), odb, missingOk)
  {
    CoveredBySub(t, e.path, name, sub, odb);
  }

  /** The entries of a directory, cut, are the entries below it. */
  lemma {:induction false} CutIsUnder(es: seq<Entry>, j: nat, name: Text)
    requires j < |es| && !Plain(es[j].path) && Top(es[j].path) == name && ProperPath(es[j].path)
    ensures es[j].(path := Rest(es[j].path)) in Under(es, name + [SLASH])
  {
    TopIsPlain(es[j].path);
    InUnder(es, j, name + [SLASH]);
    assert es[j].path[|name + [SLASH]|..] == Rest(es[j].path);
  }

  lemma {:induction false} InUnder(es: seq<Entry>, j: nat, base: Text)
    requires j < |es| && Below(es[j].path, base)
    ensures Cut(es[j], base) in Under(es, base)
  {
    if j > 0 { InUnder(es[1..], j - 1, base); }
  }

  // ---- the sub-trees ----

  /** The scratch fields of the sub-trees after the first `i` entries: a key for every used one,
      with its count. */
  ghost predicate Visits(down: seq<Sub>, es: seq<Entry>, visited: map<Text, nat>, odb: set<Oid>, i: nat) {
    && i <= |es| && Closed(es, i)
    && (forall s :: s in down && s.name in visited ==>
          s.tree.count == visited[s.name] == |Under(es, s.name + [SLASH])| > 0 && s.tree.oid in odb)
    && (forall d :: d in visited ==> HasSub(down, d))
    && (forall j :: 0 <= j < i && !Plain(es[j].path) ==> Top(es[j].path) in visited)
  }

  /** All sub-trees but the one called `name` are the same. */
  ghost predicate OthersSame(down: seq<Sub>, down': seq<Sub>, name: Text) {
    forall s: Sub :: s.name != name ==> (s in down <==> s in down')
  }

  lemma {:induction false} InsertCoherent(h: Hash, t: Tree, es: seq<Entry>, k: nat, name: Text)
    requires Coherent(h, t, es) && k <= |t.down| && Plain(name) && !HasSub(t.down, name) && t.count < 0
    requires DownSorted(t.down[..k] + [Sub(name, EmptyTree())] + t.down[k..])
    ensures Coherent(h, t.(down := t.down[..k] + [Sub(name, EmptyTree())] + t.down[k..]), es)
  {
    var down := t.down[..k] + [Sub(name, EmptyTree())] + t.down[k..];
    EmptyTreeIsCoherent(h, Under(es, name + [SLASH]));
    forall i | 0 <= i < |down|
      ensures Plain(down[i].name) && Coherent(h, down[i].tree, Under(es, down[i].name + [SLASH]))
    {
      if i > k { assert down[i] == t.down[i - 1]; } else if i < k { assert down[i] == t.down[i]; }
    }
  }

  lemma {:induction false} ReplaceCoherent(h: Hash, t: Tree, es: seq<Entry>, k: nat, sub: Tree)
    requires Coherent(h, t, es) && k < |t.down|
    requires Coherent(h, sub, Under(es, t.down[k].name + [SLASH])) && (t.down[k].tree.count >= 0 ==> sub.count >= 0)
    ensures Coherent(h, t.(down := t.down[k := Sub(t.down[k].name, sub)]), es)
  {
    var down := t.down[k := Sub(t.down[k].name, sub)];
    ReplaceNames(t.down, down, k);
    forall i | 0 <= i < |down| ensures Coherent(h, down[i].tree, Under(es, down[i].name + [SLASH])) {
      if i != k { assert down[i] == t.down[i]; }
    }
    if t.count >= 0 { ReplaceRight(h, t, es, down, k); }
  }

  /** The names are as before. */
  lemma {:induction false} ReplaceNames(down: seq<Sub>, down': seq<Sub>, k: nat)
    requires DownSorted(down) && k < |down| == |down'| && (forall i :: 0 <= i < |down| ==> Plain(down[i].name))
    requires down' == down[k := down'[k]] && down'[k].name == down[k].name
    ensures DownSorted(down') && forall i :: 0 <= i < |down'| ==> Plain(down'[i].name)
  {
    assert forall i :: 0 <= i < |down| ==> down'[i].name == down[i].name;
  }

  lemma {:induction false} ReplaceRight(h: Hash, t: Tree, es: seq<Entry>, down: seq<Sub>, k: nat)
    requires Right(h, t, es) && k < |t.down| == |down| && down == t.down[k := down[k]]
    requires down[k].name == t.down[k].name && down[k].tree.count >= 0
    ensures Right(h, t.(down := down), es)
  {
    forall d | HasSub(t.down, d) ensures HasSub(down, d) {
      var i :| 0 <= i < |t.down| && t.down[i].name == d;
      assert down[i].name == d;
    }
  }

  /** The sub-tree `name` exists after this, and nothing else changed. */
  method EnsureSubtree(h: Hash, t: Tree, ghost es: seq<Entry>, name: Text) returns (t': Tree, k: nat)
    requires Coherent(h, t, es) && Plain(name) && (t.count >= 0 ==> HasSub(t.down, name))
    ensures Coherent(h, t', es) && t' == t.(down := t'.down) && OthersSame(t.down, t'.down, name)
    ensures k < |t'.down| && t'.down[k].name == name && SubIs(t.down, name, t'.down[k].tree)
  {
    var down;
    down, k := FindSubtree(t.down, name);
    t' := t.(down := down);
    if !HasSub(t.down, name) {
      InsertCoherent(h, t, es, k, name);
    }
  }

  lemma {:induction false} CutBelow(cache: seq<Entry>, base: Text, es: seq<Entry>, i: nat, dir: Text)
    requires es == Under(cache, base) && dir != [] && i <= |es| <= |cache|
    requires forall k :: 0 <= k < |es| ==> Below(cache[k].path, base) && es[k] == Cut(cache[k], base)
    requires forall k :: 0 <= k < i ==> !HasPrefix(es[k].path, dir)
    ensures Under(cache[i..], base + dir) == Under(es, dir)
  {
    forall k | 0 <= k < i ensures !HasPrefix(cache[k].path, base + dir) {
      PrefixAfterCut(cache[k].path, base, dir);
    }
    UnderSuffix(cache, base + dir, i);
    UnderUnder(cache, base, dir);
  }

  /** Sizes and order that hold of the slice given to update_one. */
  ghost predicate Slice(cache: seq<Entry>, base: Text, bound: nat) {
    && Sorted(cache) && Proper(cache) && Directory(base) && (cache != [] ==> HasPrefix(cache[0].path, base))
    && |base| <= bound && forall i :: 0 <= i < |cache| ==> |cache[i].path| <= bound
  }

  lemma {:induction false} SliceFrom(cache: seq<Entry>, base: Text, bound: nat, i: nat, base': Text)
    requires Slice(cache, base, bound) && i < |cache| && Directory(base') && HasPrefix(cache[i].path, base')
    ensures Slice(cache[i..], base', bound)
  {
    assert cache[i..][0] == cache[i];
  }

  lemma {:induction false} SliceBelow(cache: seq<Entry>, base: Text, bound: nat, es: seq<Entry>, i: nat)
    requires Slice(cache, base, bound) && es == Under(cache, base) && Sorted(es) && Proper(es)
    requires i < |es| && Closed(es, i) && !Plain(es[i].path)
    ensures i < |cache| && Slice(cache[i..], base + TopDir(es[i].path), bound)
    ensures Under(cache[i..], base + TopDir(es[i].path)) == Under(es, TopDir(es[i].path))
  {
    var dir := TopDir(es[i].path);
    var n := GroupAtFront(cache, base);
    var c := DirectoryStep(es, i);
    TopIsPlain(es[i].path);
    CutBelow(cache, base, es, i, dir);
    PrefixAfterCut(cache[i].path, base, dir);
    assert (base + dir)[|base + dir| - 1] == SLASH;
    SliceFrom(cache, base, bound, i, base + dir);
  }

  lemma {:induction false} ReplaceSub(down: seq<Sub>, k: nat, sub: Tree)
    requires DownSorted(down) && k < |down|
    ensures var name, down' := down[k].name, down[k := Sub(down[k].name, sub)];
            && OthersSame(down, down', name) && HasSub(down', name)
            && (forall s :: s in down' && s.name == name ==> s.tree == sub)
  {
    var name, down' := down[k].name, down[k := Sub(down[k].name, sub)];
    NameBeforeTotal(name, name);
    forall s | s in down' && s.name == name ensures s.tree == sub {
      var i :| 0 <= i < |down'| && down'[i] == s;
    }
    assert down'[k].name == name;
    forall s: Sub | s.name != name ensures s in down <==> s in down' {
      if s in down { var i :| 0 <= i < |down| && down[i] == s; assert down'[i] == s; }
      if s in down' { var i :| 0 <= i < |down'| && down'[i] == s; assert down[i] == s; }
    }
  }

  /** Update the sub-tree for the directory entry at `i`. */
  method UpdateSubtree(h: Hash, t: Tree, cache: seq<Entry>, base: Text, i: nat, name: Text, odb: set<Oid>,
                       missingOk: bool, ghost es: seq<Entry>, ghost bound: nat)
    returns (r: Outcome, t': Tree, odb': set<Oid>, ghost was: Tree)
    requires NeverNull(h) && Slice(cache, base, bound) && es == Under(cache, base) && Sorted(es) && Proper(es)
    requires i < |es| <= |cache| && Closed(es, i) && !Plain(es[i].path) && name == Top(es[i].path)
    requires Coherent(h, t, es)
    ensures Coherent(h, t', es) && t' == t.(down := t'.down) && OthersSame(t.down, t'.down, name) && odb <= odb'
    ensures r.Count? ==> HasSub(t'.down, name) && r.n == |Under(es, name + [SLASH])|
    ensures r.Count? ==> forall s :: s in t'.down && s.name == name ==> s.tree.count == r.n && s.tree.oid in odb'
    ensures SubIs(t.down, name, was)
    ensures if r.Count? then Served(was, Under(es, name + [SLASH]), odb', missingOk)
            else !Served(was, Under(es, name + [SLASH]), odb, missingOk)
    decreases bound - |base|, 0
  {
    TopIsPlain(es[i].path);
    SliceBelow(cache, base, bound, es, i);
    assert base + name + [SLASH] == base + TopDir(es[i].path);
    var with, k := EnsureSubtree(h, t, es, name);
    was := with.down[k].tree;
    var sub;
    r, sub, odb' := UpdateOne(h, with.down[k].tree, cache[i..], base + name + [SLASH], odb, missingOk, bound);
    ReplaceCoherent(h, with, es, k, sub);
    ReplaceSub(with.down, k, sub);
    t' := with.(down := with.down[k := Sub(name, sub)]);
  }

  /** discard_unused_subtrees */
  method DiscardUnusedSubtrees(down: seq<Sub>, visited: map<Text, nat>) returns (kept: seq<Sub>)
    requires DownSorted(down)
    ensures DownSorted(kept) && forall s :: s in kept <==> s in down && s.name in visited
  {
    kept := [];
    for src := 0 to |down|
      invariant DownSorted(kept) && forall s :: s in kept <==> s in down[..src] && s.name in visited
      invariant forall i :: 0 <= i < |kept| ==> forall j :: src <= j < |down| ==> NameBefore(kept[i].name, down[j].name)
    {
      assert down[..src + 1] == down[..src] + [down[src]];
      if down[src].name in visited {
        kept := kept + [down[src]];
      }
    }
    assert down[..|down|] == down;
  }

  lemma {:induction false} VisitFile(down: seq<Sub>, es: seq<Entry>, visited: map<Text, nat>, odb: set<Oid>, i: nat)
    requires Visits(down, es, visited, odb, i) && i < |es| && Plain(es[i].path)
    ensures Visits(down, es, visited, odb, i + 1)
  {
    FileStep(es, i);
  }

  lemma {:induction false} VisitDirectory(down: seq<Sub>, down': seq<Sub>, es: seq<Entry>, visited: map<Text, nat>,
                                          odb: set<Oid>, odb': set<Oid>, i: nat, name: Text, c: nat)
    requires Visits(down, es, visited, odb, i) && i < |es| && !Plain(es[i].path) && Sorted(es) && Proper(es)
    requires name == Top(es[i].path) && OthersSame(down, down', name) && HasSub(down', name) && odb <= odb'
    requires c == |Under(es, name + [SLASH])|
    requires forall s :: s in down' && s.name == name ==> s.tree.count == c && s.tree.oid in odb'
    ensures Visits(down', es, visited[name := c], odb', i + c) && c > 0
  {
    ToppedBy(es, i, name, c);
    forall d | d in visited ensures HasSub(down', d) {
      if d != name { SubStays(down, down', name, d); }
    }
  }

  lemma {:induction false} ToppedBy(es: seq<Entry>, i: nat, name: Text, c: nat)
    requires i < |es| && Closed(es, i) && !Plain(es[i].path) && Sorted(es) && Proper(es)
    requires name == Top(es[i].path) && c == |Under(es, name + [SLASH])|
    ensures 0 < c <= |es| - i && Closed(es, i + c)
    ensures forall j :: i <= j < i + c ==> !Plain(es[j].path) && Top(es[j].path) == name
  {
    TopIsPlain(es[i].path);
    var _ := DirectoryStep(es, i);
    forall j | i <= j < i + c ensures !Plain(es[j].path) && Top(es[j].path) == name { TopIsPlain(es[j].path); }
  }

  lemma {:induction false} SubStays(down: seq<Sub>, down': seq<Sub>, name: Text, d: Text)
    requires OthersSame(down, down', name) && HasSub(down, d) && d != name
    ensures HasSub(down', d)
  {
    var k :| 0 <= k < |down| && down[k].name == d;
    assert down[k] in down';
  }

  /** `es` is what comes before the end of this level, with `base` cut off. */
  ghost predicate Level(cache: seq<Entry>, base: Text, es: seq<Entry>) {
    && |es| <= |cache| && (forall k :: 0 <= k < |cache| ==> (Below(cache[k].path, base) <==> k < |es|))
    && forall k :: 0 <= k < |es| ==> es[k] == Cut(cache[k], base)
  }

  /** What holds after `i` entries of the first loop. */
  ghost predicate Going(h: Hash, t: Tree, t': Tree, es: seq<Entry>, i: nat, odb: set<Oid>, odb': set<Oid>,
                        missingOk: bool, visited: map<Text, nat>) {
    && Coherent(h, t', es) && t' == t.(down := t'.down) && odb <= odb' && DownSorted(t.down)
    && Visits(t'.down, es, visited, odb', i) && ServedTo(t, es, i, odb', missingOk)
    && NotYet(t.down, t'.down, visited) && FromBefore(es, i, visited)
  }

  /** The first loop: find the sub-trees and update them. */
  method UpdateSubtrees(h: Hash, t: Tree, cache: seq<Entry>, base: Text, odb: set<Oid>, missingOk: bool,
                        ghost es: seq<Entry>, ghost bound: nat)
    returns (ok: bool, t': Tree, odb': set<Oid>, visited: map<Text, nat>)
    requires NeverNull(h) && Slice(cache, base, bound) && es == Under(cache, base) && Sorted(es) && Proper(es)
    requires Level(cache, base, es)
    requires Coherent(h, t, es) && !Trusted(t, odb)
    ensures Coherent(h, t', es) && t' == t.(down := t'.down) && odb <= odb'
    ensures ok ==> Visits(t'.down, es, visited, odb', |es|) && ServedTo(t, es, |es|, odb', missingOk)
    ensures !ok ==> !Served(t, es, odb, missingOk)
    decreases bound - |base|, 2
  {
    t', odb', visited := t, odb, map[];
    var i: nat := 0;
    GoingStart(h, t, es, odb, missingOk);
    while i < |cache|
      invariant i <= |es| && Going(h, t, t', es, i, odb, odb', missingOk, visited)
      decreases |cache| - i
    {
      if !Below(cache[i].path, base) {
        break;
      }
      var path := cache[i].path[|base|..];
      var n := IndexOf(path, SLASH);
      if n == |path| {
        GoingFile(h, t, t', es, i, odb, odb', missingOk, visited);
        i := i + 1;
        continue;
      }
      var r;
      r, t', odb', visited :=
        UpdateDirectory(h, t, t', cache, base, i, path[..n], odb, odb', missingOk, visited, es, bound);
      if r.Failed? {
        return false, t', odb', visited;
      }
      i := i + r.n;
    }
    ok := true;
  }

  lemma {:induction false} GoingStart(h: Hash, t: Tree, es: seq<Entry>, odb: set<Oid>, missingOk: bool)
    requires Coherent(h, t, es)
    ensures Going(h, t, t, es, 0, odb, odb, missingOk, map[])
  {
  }

  lemma {:induction false} GoingFile(h: Hash, t: Tree, t': Tree, es: seq<Entry>, i: nat, odb: set<Oid>,
                                     odb': set<Oid>, missingOk: bool, visited: map<Text, nat>)
    requires Going(h, t, t', es, i, odb, odb', missingOk, visited) && i < |es| && Plain(es[i].path)
    ensures Going(h, t, t', es, i + 1, odb, odb', missingOk, visited)
  {
    VisitFile(t'.down, es, visited, odb', i);
    ServeFile(t, es, i, odb', missingOk, visited);
  }

  lemma {:induction false} ServeFile(t: Tree, es: seq<Entry>, i: nat, odb: set<Oid>, missingOk: bool,
                                     visited: map<Text, nat>)
    requires ServedTo(t, es, i, odb, missingOk) && FromBefore(es, i, visited) && i < |es| && Plain(es[i].path)
    ensures ServedTo(t, es, i + 1, odb, missingOk) && FromBefore(es, i + 1, visited)
  {
  }

  /** One directory of the first loop. */
  method UpdateDirectory(h: Hash, ghost t: Tree, t0: Tree, cache: seq<Entry>, base: Text, i: nat, name: Text,
                         ghost odb: set<Oid>, odb0: set<Oid>, missingOk: bool, visited0: map<Text, nat>,
                         ghost es: seq<Entry>, ghost bound: nat)
    returns (r: Outcome, t': Tree, odb': set<Oid>, visited: map<Text, nat>)
    requires NeverNull(h) && Slice(cache, base, bound) && es == Under(cache, base) && Sorted(es) && Proper(es)
    requires i < |es| <= |cache| && !Plain(es[i].path) && name == Top(es[i].path) && !Trusted(t, odb)
    requires Going(h, t, t0, es, i, odb, odb0, missingOk, visited0)
    ensures Coherent(h, t', es) && t' == t.(down := t'.down) && odb <= odb'
    ensures r.Count? ==> 0 < r.n <= |es| - i && Going(h, t, t', es, i + r.n, odb, odb', missingOk, visited)
    ensures r.Failed? ==> !Served(t, es, odb, missingOk)
    decreases bound - |base|, 1
  {
    visited := visited0;
    ghost var sub;
    r, t', odb', sub := UpdateSubtree(h, t0, cache, base, i, name, odb0, missingOk, es, bound);
    SameAsFirst(t.down, t0.down, visited, es, i, name, sub);
    TopIsPlain(es[i].path);
    if r.Failed? {
      UnservedBelow(t, es, name, sub, odb0, odb, missingOk);
      return;
    }
    VisitDirectory(t0.down, t'.down, es, visited, odb0, odb', i, name, r.n);
    ServeDirectory(t, es, i, name, r.n, sub, odb0, odb', missingOk);
    visited := visited[name := r.n];
    Visited(t.down, t0.down, t'.down, visited0, es, i, name, r.n);
  }

  lemma {:induction false} Visited(down: seq<Sub>, down0: seq<Sub>, down': seq<Sub>, visited: map<Text, nat>,
                                   es: seq<Entry>, i: nat, name: Text, c: nat)
    requires NotYet(down, down0, visited) && OthersSame(down0, down', name) && FromBefore(es, i, visited)
    requires c > 0 && i + c <= |es| && !Plain(es[i].path) && name == Top(es[i].path)
    ensures NotYet(down, down', visited[name := c]) && FromBefore(es, i + c, visited[name := c])
  {
  }

  /** The entries in directories among the first `i` are served. */
  ghost predicate ServedTo(t: Tree, es: seq<Entry>, i: nat, odb: set<Oid>, missingOk: bool) {
    i <= |es| && forall j :: 0 <= j < i && !Plain(es[j].path) ==> ServedAt(t, es[j], odb, missingOk)
  }

  /** Sub-trees that were not visited are as they were. */
  ghost predicate NotYet(down: seq<Sub>, down': seq<Sub>, visited: map<Text, nat>) {
    forall s: Sub :: s.name !in visited ==> (s in down <==> s in down')
  }

  /** What was visited are directories of the first `i` entries. */
  ghost predicate FromBefore(es: seq<Entry>, i: nat, visited: map<Text, nat>) {
    i <= |es| && forall d :: d in visited ==> exists j :: 0 <= j < i && !Plain(es[j].path) && Top(es[j].path) == d
  }

  lemma {:induction false} SameAsFirst(down: seq<Sub>, down': seq<Sub>, visited: map<Text, nat>, es: seq<Entry>,
                                       i: nat, name: Text, sub: Tree)
    requires NotYet(down, down', visited) && FromBefore(es, i, visited) && Closed(es, i) && i < |es|
    requires !Plain(es[i].path) && name == Top(es[i].path) && SubIs(down', name, sub)
    ensures name !in visited && SubIs(down, name, sub)
  {
    TopIsPlain(es[i].path);
    forall j | 0 <= j < i && !Plain(es[j].path) ensures Top(es[j].path) != name {
      assert Apart(es[j].path, es[i].path);
    }
    if HasSub(down, name) {
      var k :| 0 <= k < |down| && down[k].name == name;
      assert down[k] in down';
      var l :| 0 <= l < |down'| && down'[l] == down[k];
    }
  }

  lemma {:induction false} UnservedBelow(t: Tree, es: seq<Entry>, name: Text, sub: Tree, odb': set<Oid>,
                                         odb: set<Oid>, missingOk: bool)
    requires DownSorted(t.down) && !Trusted(t, odb) && Plain(name) && SubIs(t.down, name, sub) && odb <= odb'
    requires !Served(sub, Under(es, name + [SLASH]), odb', missingOk)
    ensures !Served(t, es, odb, missingOk)
  {
    var e :| e in Under(es, name + [SLASH]) && !ServedAt(sub, e, odb', missingOk);
    var k := FromUnder(es, name + [SLASH], e);
    BelowChild(es[k].path, name);
    assert e == es[k].(path := Rest(es[k].path));
    if ServedAt(t, es[k], odb, missingOk) {
      ServedUp(t, es[k], name, sub, odb, missingOk);
      ServedMore(sub, e, odb, odb', missingOk);
    }
    assert es[k] in es;
  }

  lemma {:induction false} FromUnder(es: seq<Entry>, base: Text, e: Entry) returns (k: nat)
    requires e in Under(es, base)
    ensures k < |es| && Below(es[k].path, base) && e == Cut(es[k], base)
  {
    if Below(es[0].path, base) && e == Cut(es[0], base) {
      k := 0;
    } else {
      k := FromUnder(es[1..], base, e);
      k := k + 1;
    }
  }

  lemma {:induction false} ServeDirectory(t: Tree, es: seq<Entry>, i: nat, name: Text, c: nat, sub: Tree,
                                          odb: set<Oid>, odb': set<Oid>, missingOk: bool)
    requires DownSorted(t.down) && ServedTo(t, es, i, odb, missingOk) && odb <= odb' && Sorted(es) && Proper(es)
    requires i < |es| && Closed(es, i) && !Plain(es[i].path) && name == Top(es[i].path)
    requires c == |Under(es, name + [SLASH])| && SubIs(t.down, name, sub)
    requires Served(sub, Under(es, name + [SLASH]), odb', missingOk)
    ensures ServedTo(t, es, i + c, odb', missingOk)
  {
    ToppedBy(es, i, name, c);
    forall j | 0 <= j < i + c && !Plain(es[j].path) ensures ServedAt(t, es[j], odb', missingOk) {
      if j < i {
        ServedMore(t, es[j], odb, odb', missingOk);
      } else {
        CutIsUnder(es, j, name);
        assert ServedAt(sub, es[j].(path := Rest(es[j].path)), odb', missingOk);
        ServedUp(t, es[j], name, sub, odb', missingOk);
      }
    }
  }

  /** `line` is the line for entry `i`, and the next line is for entry `next`. */
  ghost predicate LineAt(line: Line, i: nat, next: nat, es: seq<Entry>, visited: map<Text, nat>, oids: map<Text, Oid>) {
    && i < |es|
    && if Plain(es[i].path) then line == Line(es[i].mode, es[i].path, es[i].oid) && next == i + 1
       else
         var d := Top(es[i].path);
         && d in visited && d in oids && line == Line(S_IFDIR, d, oids[d]) && visited[d] > 0 && next == i + visited[d]
         && next <= |es| && forall j :: i <= j < next ==> !Plain(es[j].path)
  }

  /** all[k] is for the entry at starts[k], from entry `i` on; oids[d] is the id of directory `d`. */
  ghost predicate Plan(all: seq<Line>, starts: seq<nat>, i: nat, es: seq<Entry>, visited: map<Text, nat>,
                       oids: map<Text, Oid>) {
    && |starts| == |all| + 1 && starts[0] == i && starts[|all|] == |es|
    && forall k :: 0 <= k < |all| ==> LineAt(all[k], starts[k], starts[k + 1], es, visited, oids)
  }

  lemma {:induction false} VisitedCount(down: seq<Sub>, es: seq<Entry>, visited: map<Text, nat>, odb: set<Oid>, i: nat)
    requires Visits(down, es, visited, odb, |es|) && i < |es| && !Plain(es[i].path)
    ensures Top(es[i].path) in visited && visited[Top(es[i].path)] == |Under(es, Top(es[i].path) + [SLASH])|
  {
    var d := Top(es[i].path);
    var k :| 0 <= k < |down| && down[k].name == d;
    assert down[k] in down;
  }

  lemma {:induction false} ExtendPlan(line: Line, all: seq<Line>, starts: seq<nat>, i: nat, next: nat, es: seq<Entry>,
                                      visited: map<Text, nat>, oids: map<Text, Oid>)
    requires Plan(all, starts, next, es, visited, oids) && LineAt(line, i, next, es, visited, oids)
    ensures Plan([line] + all, [i] + starts, i, es, visited, oids)
  {
  }

  /** The plan spells out `Lines`. */
  lemma {:induction false} MakePlan(h: Hash, down: seq<Sub>, es: seq<Entry>, visited: map<Text, nat>, odb: set<Oid>,
                                    oids: map<Text, Oid>, i: nat)
    returns (all: seq<Line>, starts: seq<nat>)
    requires Sorted(es) && Proper(es) && Visits(down, es, visited, odb, |es|) && i <= |es| && Closed(es, i)
    requires oids.Keys == visited.Keys && forall d :: d in visited ==> oids[d] == TreeOid(h, Under(es, d + [SLASH]))
    ensures Plan(all, starts, i, es, visited, oids) && all == Lines(h, es[i..])
    decreases |es| - i
  {
    if i == |es| {
      return [], [i];
    }
    var line, next := PlanStep(h, down, es, visited, odb, oids, i);
    all, starts := MakePlan(h, down, es, visited, odb, oids, next);
    ExtendPlan(line, all, starts, i, next, es, visited, oids);
    all, starts := [line] + all, [i] + starts;
  }

  lemma {:induction false} PlanStep(h: Hash, down: seq<Sub>, es: seq<Entry>, visited: map<Text, nat>, odb: set<Oid>,
                                    oids: map<Text, Oid>, i: nat)
    returns (line: Line, next: nat)
    requires Sorted(es) && Proper(es) && Visits(down, es, visited, odb, |es|) && i < |es| && Closed(es, i)
    requires oids.Keys == visited.Keys && forall d :: d in visited ==> oids[d] == TreeOid(h, Under(es, d + [SLASH]))
    ensures LineAt(line, i, next, es, visited, oids) && i < next <= |es| && Closed(es, next)
    ensures Lines(h, es[i..]) == [line] + Lines(h, es[next..])
  {
    if Plain(es[i].path) {
      FileStep(es, i);
      FileLine(h, es, i);
      line, next := Line(es[i].mode, es[i].path, es[i].oid), i + 1;
    } else {
      VisitedCount(down, es, visited, odb, i);
      line, next := DirectoryPlanStep(h, es, visited, oids, i, Top(es[i].path));
    }
  }

  lemma {:induction false} DirectoryPlanStep(h: Hash, es: seq<Entry>, visited: map<Text, nat>, oids: map<Text, Oid>,
                                             i: nat, d: Text)
    returns (line: Line, next: nat)
    requires Sorted(es) && Proper(es) && i < |es| && Closed(es, i) && !Plain(es[i].path) && d == Top(es[i].path)
    requires d in visited && visited[d] == |Under(es, d + [SLASH])|
    requires d in oids && oids[d] == TreeOid(h, Under(es, d + [SLASH]))
    ensures LineAt(line, i, next, es, visited, oids) && i < next <= |es| && Closed(es, next)
    ensures Lines(h, es[i..]) == [line] + Lines(h, es[next..])
  {
    ToppedBy(es, i, d, visited[d]);
    line, next := Line(S_IFDIR, d, oids[d]), i + visited[d];
    DirectoryTail(h, es, i, next, line);
  }

  lemma {:induction false} PlanAll(h: Hash, t: Tree, es: seq<Entry>, visited: map<Text, nat>, odb: set<Oid>)
    returns (all: seq<Line>, starts: seq<nat>, oids: map<Text, Oid>)
    requires NeverNull(h) && Sorted(es) && Proper(es) && Coherent(h, t, es) && Visits(t.down, es, visited, odb, |es|)
    ensures Plan(all, starts, 0, es, visited, oids) && all == Lines(h, es) && Named(t.down, visited, oids, odb)
  {
    oids := map d | d in visited :: TreeOid(h, Under(es, d + [SLASH]));
    all, starts := MakePlan(h, t.down, es, visited, odb, oids, 0);
    assert es[0..] == es;
    UsedAreNamed(h, t, es, visited, odb, oids);
  }

  lemma {:induction false} UsedAreNamed(h: Hash, t: Tree, es: seq<Entry>, visited: map<Text, nat>, odb: set<Oid>,
                                        oids: map<Text, Oid>)
    requires NeverNull(h) && Coherent(h, t, es) && Visits(t.down, es, visited, odb, |es|)
    requires oids.Keys == visited.Keys && forall d :: d in visited ==> oids[d] == TreeOid(h, Under(es, d + [SLASH]))
    ensures Named(t.down, visited, oids, odb)
  {
    forall k | 0 <= k < |t.down| && t.down[k].name in visited
      ensures t.down[k].tree.oid == oids[t.down[k].name] && !IsNull(t.down[k].tree.oid) && t.down[k].tree.oid in odb
    {
      assert t.down[k] in t.down;
    }
  }

  lemma {:induction false} DirectoryTail(h: Hash, es: seq<Entry>, i: nat, next: nat, line: Line)
    requires Sorted(es) && Proper(es) && i < |es| && Closed(es, i) && !Plain(es[i].path)
    requires next == i + |Under(es, Top(es[i].path) + [SLASH])| <= |es|
    requires line == Line(S_IFDIR, Top(es[i].path), TreeOid(h, Under(es, Top(es[i].path) + [SLASH])))
    ensures Lines(h, es[i..]) == [line] + Lines(h, es[next..])
  {
    GroupThenRest(es, i, next);
    DirectoryLine(h, es, i, TopDir(es[i].path), next - i, line);
  }

  lemma {:induction false} GroupThenRest(es: seq<Entry>, i: nat, next: nat)
    requires Sorted(es) && Proper(es) && i < |es| && Closed(es, i) && !Plain(es[i].path)
    requires next == i + |Under(es, TopDir(es[i].path))| <= |es|
    ensures Under(es[i..], TopDir(es[i].path)) == Under(es, TopDir(es[i].path))
    ensures Outside(es[i..], TopDir(es[i].path)) == es[next..]
  {
    var _ := DirectoryStep(es, i);
  }

  /** The used sub-trees are there, with the ids `oids`, and so are their objects. */
  ghost predicate Named(down: seq<Sub>, visited: map<Text, nat>, oids: map<Text, Oid>, odb: set<Oid>) {
    && DownSorted(down) && oids.Keys == visited.Keys
    && (forall d :: d in visited ==> HasSub(down, d))
    && (forall k :: 0 <= k < |down| && down[k].name in visited ==>
          down[k].tree.oid == oids[down[k].name] && !IsNull(down[k].tree.oid) && down[k].tree.oid in odb)
  }

  /** The line for entry `e`, and how many entries it stands for. */
  method TreeLine(down: seq<Sub>, e: Entry, odb: set<Oid>, missingOk: bool, visited: map<Text, nat>, ghost i: nat,
                  ghost es: seq<Entry>, ghost oids: map<Text, Oid>, ghost want: Line, ghost next: nat)
    returns (ok: bool, line: Line, step: nat)
    requires Named(down, visited, oids, odb) && LineAt(want, i, next, es, visited, oids) && e == es[i]
    ensures ok ==> step > 0 && line == want && next == i + step
    ensures ok ==> (Plain(e.path) ==> !Missing(e, odb, missingOk))
    ensures !ok ==> Plain(e.path) && Missing(e, odb, missingOk)
  {
    line, step := Line(e.mode, e.path, e.oid), 1;
    var n := IndexOf(e.path, SLASH);
    if n < |e.path| {
      var pos := CacheTreeSubtreePos(down, e.path[..n]);
      line, step := Line(S_IFDIR, e.path[..n], down[pos].tree.oid), visited[e.path[..n]];
    }
    ok := !NoObject(line.mode, line.oid, odb, missingOk);
  }

  /** The objects of the files among the first `i` entries are there. */
  ghost predicate FilesThere(es: seq<Entry>, i: nat, odb: set<Oid>, missingOk: bool) {
    i <= |es| && forall j :: 0 <= j < i && Plain(es[j].path) ==> !Missing(es[j], odb, missingOk)
  }

  /** The second loop: the lines of the tree object for this level. */
  method TreeLines(down: seq<Sub>, cache: seq<Entry>, base: Text, odb: set<Oid>, missingOk: bool,
                   visited: map<Text, nat>, ghost es: seq<Entry>, ghost all: seq<Line>, ghost starts: seq<nat>,
                   ghost oids: map<Text, Oid>)
    returns (ok: bool, lines: seq<Line>, count: nat, ghost bad: Entry)
    requires Level(cache, base, es) && Plan(all, starts, 0, es, visited, oids) && Named(down, visited, oids, odb)
    ensures ok ==> lines == all && count == |es| && FilesThere(es, |es|, odb, missingOk)
    ensures !ok ==> bad in es && Plain(bad.path) && Missing(bad, odb, missingOk)
  {
    lines, count, bad := [], 0, Entry([], 0, []);
    PlanEnds(all, starts, es, visited, oids, 0);
    while count < |cache|
      invariant |lines| <= |all| && count == starts[|lines|] <= |es| && (count == |es| ==> |lines| == |all|)
      invariant forall j :: 0 <= j < |lines| ==> lines[j] == all[j]
      invariant FilesThere(es, count, odb, missingOk)
      decreases |cache| - count
    {
      if !Below(cache[count].path, base) {
        break;
      }
      var line, step;
      ghost var k := |lines|;
      ok, line, step := TreeLine(down, Cut(cache[count], base), odb, missingOk, visited, count, es, oids, all[k],
                                 starts[k + 1]);
      if !ok {
        bad := es[count];
        return;
      }
      lines, count := lines + [line], count + step;
      PlanEnds(all, starts, es, visited, oids, |lines|);
    }
    ok := true;
  }

  lemma {:induction false} PlanEnds(all: seq<Line>, starts: seq<nat>, es: seq<Entry>, visited: map<Text, nat>,
                                    oids: map<Text, Oid>, k: nat)
    requires Plan(all, starts, 0, es, visited, oids) && k <= |all|
    ensures starts[k] <= |es| && (starts[k] == |es| <==> k == |all|)
  {
    if k < |all| { assert LineAt(all[k], starts[k], starts[k + 1], es, visited, oids); }
  }

  lemma {:induction false} KeptCoherent(h: Hash, t: Tree, es: seq<Entry>, visited: map<Text, nat>, odb: set<Oid>,
                                        kept: seq<Sub>)
    requires Coherent(h, t, es) && Visits(t.down, es, visited, odb, |es|) && DownSorted(kept)
    requires forall s :: s in kept <==> s in t.down && s.name in visited
    ensures Complete(h, Tree(|es|, TreeOid(h, es), kept), es)
    ensures Coherent(h, t.(down := kept), es) && Visits(kept, es, visited, odb, |es|)
  {
    forall i | 0 <= i < |kept|
      ensures Plain(kept[i].name) && Coherent(h, kept[i].tree, Under(es, kept[i].name + [SLASH]))
      ensures kept[i].tree.count >= 0 && Under(es, kept[i].name + [SLASH]) != []
    {
      assert kept[i] in kept;
    }
    forall j | 0 <= j < |es| && !Plain(es[j].path) ensures HasSub(kept, Top(es[j].path)) {
      var d := Top(es[j].path);
      assert d in visited && HasSub(t.down, d);
      var k :| 0 <= k < |t.down| && t.down[k].name == d;
      assert t.down[k] in kept;
      var l :| 0 <= l < |kept| && kept[l] == t.down[k];
      assert kept[l].name == d;
    }
    forall d | d in visited ensures HasSub(kept, d) {
      var k :| 0 <= k < |t.down| && t.down[k].name == d;
      assert t.down[k] in kept;
      var l :| 0 <= l < |kept| && kept[l] == t.down[k];
      assert kept[l].name == d;
    }
  }

  lemma {:induction false} UnservedFile(t: Tree, es: seq<Entry>, bad: Entry, odb: set<Oid>, odb': set<Oid>,
                                        missingOk: bool)
    requires !Trusted(t, odb) && bad in es && Plain(bad.path) && Missing(bad, odb', missingOk) && odb <= odb'
    ensures !Served(t, es, odb, missingOk)
  {
    assert !ServedAt(t, bad, odb, missingOk);
  }

  lemma {:induction false} AllServed(t: Tree, es: seq<Entry>, odb: set<Oid>, odb': set<Oid>, missingOk: bool)
    requires ServedTo(t, es, |es|, odb, missingOk) && FilesThere(es, |es|, odb, missingOk) && odb <= odb'
    ensures Served(t, es, odb', missingOk)
  {
    forall e | e in es ensures ServedAt(t, e, odb', missingOk) {
      var j :| 0 <= j < |es| && es[j] == e;
      assert ServedAt(t, es[j], odb, missingOk);
      ServedMore(t, e, odb, odb', missingOk);
    }
  }

  /** update_one: the count and the tree id of the entries below `base`, and the cache below it
      complete; or the index names an object that is not there, and the cache stays coherent. It
      succeeds only if the objects of all entries are there that no valid node stands for, and fails
      only if one of them is not. */
  method UpdateOne(h: Hash, t: Tree, cache: seq<Entry>, base: Text, odb: set<Oid>, missingOk: bool, ghost bound: nat)
    returns (r: Outcome, t': Tree, odb': set<Oid>)
    requires NeverNull(h) && Slice(cache, base, bound) && Coherent(h, t, Under(cache, base))
    ensures Coherent(h, t', Under(cache, base)) && odb <= odb' && (t.count >= 0 ==> t'.count >= 0)
    ensures r.Count? ==> r.n == t'.count == |Under(cache, base)| && t'.oid in odb'
    ensures if r.Count? then Served(t, Under(cache, base), odb', missingOk)
            else !Served(t, Under(cache, base), odb, missingOk)
    decreases bound - |base|, 3
  {
    if t.count >= 0 && t.oid in odb {
      return Count(t.count), t, odb;
    }
    ghost var es := Under(cache, base);
    ghost var _ := GroupAtFront(cache, base);
    GroupKeepsOrder(cache, base);
    var ok, visited;
    ok, t', odb', visited := UpdateSubtrees(h, t, cache, base, odb, missingOk, es, bound);
    if !ok {
      return Failed, t', odb';
    }
    var kept := DiscardUnusedSubtrees(t'.down, visited);
    KeptCoherent(h, t', es, visited, odb', kept);
    t' := t'.(down := kept);
    ghost var all, starts, oids := PlanAll(h, t', es, visited, odb');
    var lines, count; ghost var bad;
    ok, lines, count, bad := TreeLines(kept, cache, base, odb', missingOk, visited, es, all, starts, oids);
    if !ok {
      UnservedFile(t, es, bad, odb, odb', missingOk);
      return Failed, t', odb';
    }
    t' := Tree(count, h(lines), kept);
    AllServed(t, es, odb', odb' + {t'.oid}, missingOk);
    odb' := odb' + {t'.oid};
    r := Count(count);
  }

  lemma {:induction false} UnderRoot(es: seq<Entry>)
    requires Proper(es)
    ensures Under(es, []) == es
  {
    if es != [] {
      UnderRoot(es[1..]);
      assert es[0].path[0..] == es[0].path;
    }
  }

  function Longest(es: seq<Entry>): (n: nat)
    ensures forall i :: 0 <= i < |es| ==> |es[i].path| <= n
  {
    if es == [] then 0
    else
      var n := Longest(es[1..]);
      assert forall i :: 1 <= i < |es| ==> es[i] == es[1..][i - 1];
      if |es[0].path| > n then |es[0].path| else n
  }

  lemma {:induction false} CoherentIsValid(h: Hash, t: Tree, es: seq<Entry>)
    requires Coherent(h, t, es)
    ensures Valid(t)
    decreases t
  {
    forall i | 0 <= i < |t.down| ensures Valid(t.down[i].tree) {
      CoherentIsValid(h, t.down[i].tree, Under(es, t.down[i].name + [SLASH]));
    }
  }

  /** The entries at one path change, the path is invalidated, and the cache is brought up to
      date: the outcome is the one cache that belongs to the new index. */
  method ChangeAndUpdate(h: Hash, t: Tree, path: Text, ghost before: seq<Entry>, cache: seq<Entry>, odb: set<Oid>,
                         missingOk: bool)
    returns (r: Outcome, t': Tree, odb': set<Oid>)
    requires NeverNull(h) && Coherent(h, t, before) && Except(before, path) == Except(cache, path)
    requires Sorted(cache) && Proper(cache)
    ensures Coherent(h, t', cache) && odb <= odb'
    ensures r.Count? ==> r.n == |cache| && Complete(h, t', cache) && t'.oid == TreeOid(h, cache) && t'.oid in odb'
    ensures r.Count? ==> forall u :: Complete(h, u, cache) ==> u == t'
    ensures r.Failed? ==> exists e :: e in cache && Missing(e, odb, missingOk)
    ensures r.Count? ==> forall e :: e in cache && e.path == path ==> !Missing(e, odb', missingOk)
  {
    CoherentIsValid(h, t, before);
    var stale := InvalidatePath(t, path);
    InvalidatedCoherent(h, t, path, before, cache, stale);
    UnderRoot(cache);
    r, t', odb' := UpdateOne(h, stale, cache, [], odb, missingOk, Longest(cache));
    forall u | r.Count? && Complete(h, u, cache) ensures u == t' { CompleteUnique(h, u, t', cache); }
    if r.Count? {
      ChangedServed(t, path, cache, odb', missingOk);
    } else {
      SomeMissing(stale, cache, odb, missingOk);
    }
  }

  lemma {:induction false} SomeMissing(t: Tree, es: seq<Entry>, odb: set<Oid>, missingOk: bool)
    requires !Served(t, es, odb, missingOk)
    ensures exists e :: e in es && Missing(e, odb, missingOk)
  {
    var e :| e in es && !ServedAt(t, e, odb, missingOk);
  }

  /** Nothing valid is left above an invalidated path. */
  lemma {:induction false} InvalidatedUncovered(t: Tree, path: Text, odb: set<Oid>)
    requires Valid(t)
    ensures !Covered(Invalidated(t, path), path, odb)
    decreases |path|
  {
    var u := Invalidated(t, path);
    if !Plain(path) {
      forall i | 0 <= i < |u.down| && u.down[i].name == Top(path) ensures !Covered(u.down[i].tree, Rest(path), odb) {
        OneIndex(t.down, i, SubIndex(t.down, Top(path)));
        InvalidatedUncovered(t.down[i].tree, Rest(path), odb);
      }
    }
  }

  lemma {:induction false} OneIndex(down: seq<Sub>, i: nat, k: nat)
    requires DownSorted(down) && i < |down| && k == SubIndex(down, down[i].name)
    ensures k == i
  {
    assert k <= i;
    if k < i { NamesDiffer(down, k, i); }
  }

  lemma {:induction false} ChangedServed(t: Tree, path: Text, cache: seq<Entry>, odb: set<Oid>, missingOk: bool)
    requires Valid(t) && Served(Invalidated(t, path), cache, odb, missingOk)
    ensures forall e :: e in cache && e.path == path ==> !Missing(e, odb, missingOk)
  {
    forall e | e in cache && e.path == path ensures !Missing(e, odb, missingOk) {
      assert ServedAt(Invalidated(t, path), e, odb, missingOk);
      InvalidatedUncovered(t, path, odb);
    }
  }
}
