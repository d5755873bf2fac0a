/** The cache of tree ids kept beside the index, and the tree ids it must hold.

Paths are byte strings. `Under` gives the index entries below a directory with the directory
cut off, and `Lines` the contents of the tree object for a list of entries, built from nothing. */
module CacheTree {
  import opened Bytes

  type Oid = Text

  datatype Entry = Entry(path: Text, mode: nat, oid: Oid)

  /** One line of a tree object; sub-directories have mode S_IFDIR. */
  datatype Line = Line(mode: nat, name: Text, oid: Oid)

  const S_IFDIR := 0x4000
  const S_IFGITLINK := 0xE000

  /** The object id of a tree with the given lines. */
  type Hash = seq<Line> -> Oid

  predicate Below(path: Text, base: Text) {
    HasPrefix(path, base) && |path| > |base|
  }

  /** The entries below `base`, with `base` cut off. */
  function Under(es: seq<Entry>, base: Text): seq<Entry> {
    if es == [] then []
    else if Below(es[0].path, base) then [es[0].(path := es[0].path[|base|..])] + Under(es[1..], base)
    else Under(es[1..], base)
  }

  function Outside(es: seq<Entry>, base: Text): seq<Entry> {
    if es == [] then []
    else if HasPrefix(es[0].path, base) then Outside(es[1..], base)
    else [es[0]] + Outside(es[1..], base)
  }

  /** A path that the index can hold: not empty, not ending in a slash. */
  predicate ProperPath(path: Text) {
    path != [] && path[|path| - 1] != SLASH
  }

  predicate Proper(es: seq<Entry>) {
    forall i :: 0 <= i < |es| ==> ProperPath(es[i].path)
  }

  /** The order of the index. */
  predicate Sorted(es: seq<Entry>) {
    forall i, j {:trigger Before(es[i].path, es[j].path)} :: 0 <= i < j < |es| ==> Before(es[i].path, es[j].path)
  }

  function Weight(es: seq<Entry>): nat {
    if es == [] then 0 else |es[0].path| + 1 + Weight(es[1..])
  }

  lemma {:induction false} UnderWeighsLess(es: seq<Entry>, base: Text)
    ensures Weight(Under(es, base)) <= Weight(es)
    ensures es != [] && base != [] && HasPrefix(es[0].path, base) ==> Weight(Under(es, base)) < Weight(es)
  {
    if es != [] {
      UnderWeighsLess(es[1..], base);
      assert Below(es[0].path, base) ==> Under(es, base)[1..] == Under(es[1..], base);
    }
  }

  lemma {:induction false} OutsideWeighsLess(es: seq<Entry>, base: Text)
    ensures Weight(Outside(es, base)) <= Weight(es)
    ensures es != [] && HasPrefix(es[0].path, base) ==> Weight(Outside(es, base)) < Weight(es)
  {
    if es != [] {
      OutsideWeighsLess(es[1..], base);
      assert !HasPrefix(es[0].path, base) ==> Outside(es, base)[1..] == Outside(es[1..], base);
    }
  }

  /** The lines of the tree object for `es`: files as they are, directories with the id of the
      tree of what is below them. */
  function Lines(h: Hash, es: seq<Entry>): seq<Line>
    decreases Weight(es)
  {
    if es == [] then []
    else
      var e, n := es[0], IndexOf(es[0].path, SLASH);
      if n == |e.path| then [Line(e.mode, e.path, e.oid)] + Lines(h, es[1..])
      else
        var dir := e.path[..n] + [SLASH];
        assert HasPrefix(e.path, dir);
        UnderWeighsLess(es, dir);
        OutsideWeighsLess(es, dir);
        [Line(S_IFDIR, e.path[..n], h(Lines(h, Under(es, dir))))] + Lines(h, Outside(es, dir))
  }

  function TreeOid(h: Hash, es: seq<Entry>): Oid { h(Lines(h, es)) }

  /** struct cache_tree and struct cache_tree_sub; a negative count marks an invalid node. */
  datatype Tree = Tree(count: int, oid: Oid, down: seq<Sub>)
  datatype Sub = Sub(name: Text, tree: Tree)

  /** cache_tree */
  function EmptyTree(): Tree { Tree(-1, [], []) }

  /** subtree_name_cmp: shorter names first, then byte by byte. */
  predicate NameBefore(s: Text, t: Text) {
    |s| < |t| || (|s| == |t| && Before(s, t))
  }

  lemma {:induction false} NameBeforeTotal(s: Text, t: Text)
    ensures NameBefore(s, t) || s == t || NameBefore(t, s)
    ensures !(NameBefore(s, t) && NameBefore(t, s)) && !NameBefore(s, s)
  {
    BeforeTotal(s, t);
    BeforeTotal(s, s);
  }

  lemma {:induction false} NameBeforeTrans(s: Text, t: Text, u: Text)
    requires NameBefore(s, t) && NameBefore(t, u)
    ensures NameBefore(s, u)
  {
    if |s| == |t| == |u| { BeforeTrans(s, t, u); }
  }

  /** "b" comes before "aa", and "ab" before "b" does not. */
  lemma {:induction false} NameOrder()
    ensures NameBefore([98], [97, 97]) && NameBefore([97], [98]) && !NameBefore([97, 98], [98])
  {
    BeforeTotal([97], [98]);
  }

  ghost predicate DownSorted(down: seq<Sub>) {
    forall i, j {:trigger NameBefore(down[i].name, down[j].name)} :: 0 <= i < j < |down| ==>
      NameBefore(down[i].name, down[j].name)
  }

  predicate HasSub(down: seq<Sub>, name: Text) {
    exists i :: 0 <= i < |down| && down[i].name == name
  }

  predicate Plain(name: Text) {
    IndexOf(name, SLASH) == |name|
  }

  /** Every directory of `es` has a sub-tree. */
  ghost predicate Covers(down: seq<Sub>, es: seq<Entry>) {
    forall j :: 0 <= j < |es| && !Plain(es[j].path) ==> HasSub(down, es[j].path[..IndexOf(es[j].path, SLASH)])
  }

  /** A valid node: right count and id, and below it exactly the directories, all valid. */
  ghost predicate Right(h: Hash, t: Tree, es: seq<Entry>) {
    && t.count == |es| && t.oid == TreeOid(h, es) && Covers(t.down, es)
    && forall i :: 0 <= i < |t.down| ==> t.down[i].tree.count >= 0 && Under(es, t.down[i].name + [SLASH]) != []
  }

  /** What every operation keeps: sub-trees in order, each coherent with the entries below it,
      and a node that claims to be valid is. */
  ghost predicate Coherent(h: Hash, t: Tree, es: seq<Entry>) {
    && DownSorted(t.down)
    && (forall i :: 0 <= i < |t.down| ==> Plain(t.down[i].name))
    && (forall i :: 0 <= i < |t.down| ==> Coherent(h, t.down[i].tree, Under(es, t.down[i].name + [SLASH])))
    && (t.count >= 0 ==> Right(h, t, es))
  }

  /** Fully up to date. */
  ghost predicate Complete(h: Hash, t: Tree, es: seq<Entry>) {
    Coherent(h, t, es) && t.count >= 0
  }

  lemma {:induction false} EmptyTreeIsCoherent(h: Hash, es: seq<Entry>)
    ensures Coherent(h, EmptyTree(), es)
  {
  }

  /** Where the sub-tree called `name` is, or the number of sub-trees. */
  function SubIndex(down: seq<Sub>, name: Text): (k: nat)
    ensures k <= |down| && (k < |down| ==> down[k].name == name)
    ensures forall i :: 0 <= i < k ==> down[i].name != name
  {
    if down == [] || down[0].name == name then 0 else 1 + SubIndex(down[1..], name)
  }

  /** cache_tree_subtree_pos: the position, or minus one minus the position to insert at. */
  method CacheTreeSubtreePos(down: seq<Sub>, name: Text) returns (pos: int)
    requires DownSorted(down)
    ensures pos >= 0 <==> HasSub(down, name)
    ensures pos >= 0 ==> pos == SubIndex(down, name) < |down|
    ensures pos < 0 ==> 0 <= -pos - 1 <= |down| && SubIndex(down, name) == |down|
    ensures pos < 0 ==> forall i :: 0 <= i < -pos - 1 ==> NameBefore(down[i].name, name)
    ensures pos < 0 ==> forall i :: -pos - 1 <= i < |down| ==> NameBefore(name, down[i].name)
  {
    var lo: nat, hi: nat := 0, |down|;
    while lo < hi
      invariant lo <= hi <= |down|
      invariant forall i :: 0 <= i < lo ==> NameBefore(down[i].name, name)
      invariant forall i :: hi <= i < |down| ==> NameBefore(name, down[i].name)
    {
      var mi := lo + (hi - lo) / 2;
      NameBeforeTotal(name, down[mi].name);
      if name == down[mi].name {
        forall i | 0 <= i < |down| && i != mi ensures down[i].name != name { NameBeforeTotal(name, name); }
        return mi;
      }
      if NameBefore(name, down[mi].name) {
        forall i | mi < i < |down| ensures NameBefore(name, down[i].name) {
          NameBeforeTrans(name, down[mi].name, down[i].name);
        }
        hi := mi;
      } else {
        forall i | 0 <= i < mi ensures NameBefore(down[i].name, name) {
          NameBeforeTrans(down[i].name, down[mi].name, name);
        }
        lo := mi + 1;
      }
    }
    NameBeforeTotal(name, name);
    pos := -1 - lo;
  }

  /** find_subtree, creating: the position of the sub-tree, new ones inserted in order. */
  method FindSubtree(down: seq<Sub>, name: Text) returns (down': seq<Sub>, k: nat)
    requires DownSorted(down)
    ensures DownSorted(down') && k < |down'| && down'[k].name == name
    ensures HasSub(down, name) ==> down' == down
    ensures !HasSub(down, name) ==> k <= |down| && down' == down[..k] + [Sub(name, EmptyTree())] + down[k..]
  {
    var pos := CacheTreeSubtreePos(down, name);
    if pos >= 0 {
      return down, pos;
    }
    k := -pos - 1;
    down' := down[..k] + [Sub(name, EmptyTree())] + down[k..];
  }

  /** do_invalidate_path */
  function Invalidated(t: Tree, path: Text): Tree
    decreases |path|
  {
    var n := IndexOf(path, SLASH);
    var k := SubIndex(t.down, path[..n]);
    if n == |path| then
      Tree(-1, t.oid, if k < |t.down| then t.down[..k] + t.down[k + 1..] else t.down)
    else
      Tree(-1, t.oid, if k < |t.down| then t.down[k := Sub(path[..n], Invalidated(t.down[k].tree, path[n + 1..]))]
                                           else t.down)
  }

  /** All entries but those at `path`. */
  function Except(es: seq<Entry>, path: Text): seq<Entry> {
    if es == [] then []
    else if es[0].path == path then Except(es[1..], path)
    else [es[0]] + Except(es[1..], path)
  }

  /** Directories that `path` is not below do not see it. */
  lemma {:induction false} UnderIgnores(es: seq<Entry>, base: Text, path: Text)
    requires !Below(path, base)
    ensures Under(es, base) == Under(Except(es, path), base)
  {
    if es != [] {
      UnderIgnores(es[1..], base, path);
      assert es[0].path != path ==> Except(es, path)[1..] == Except(es[1..], path);
    }
  }

  lemma {:induction false} UnderExcept(es: seq<Entry>, base: Text, path: Text)
    requires Below(path, base)
    ensures Under(Except(es, path), base) == Except(Under(es, base), path[|base|..])
  {
    if es != [] {
      UnderExcept(es[1..], base, path);
      assert es[0].path != path ==> Except(es, path)[1..] == Except(es[1..], path);
      if Below(es[0].path, base) {
        assert Under(es, base)[1..] == Under(es[1..], base);
        if es[0].path[|base|..] == path[|base|..] {
          assert es[0].path == base + es[0].path[|base|..];
          assert path == base + path[|base|..];
        }
      }
    }
  }

  /** The one directory at this level that `path` is below. */
  lemma {:induction false} BelowChild(path: Text, name: Text)
    requires Plain(name)
    ensures Below(path, name + [SLASH]) ==>
            IndexOf(path, SLASH) == |name| && path[..|name|] == name && |name| + 1 < |path|
    ensures IndexOf(path, SLASH) == |name| && path[..|name|] == name && |name| + 1 < |path| ==>
            Below(path, name + [SLASH])
  {
    if Below(path, name + [SLASH]) {
      assert path[..|name|] == path[..|name| + 1][..|name|];
      assert path[|name|] == path[..|name| + 1][|name|] == SLASH;
      forall i | 0 <= i < |name| ensures path[i] != SLASH {
        NotBefore(name, SLASH, i);
        assert path[i] == path[..|name| + 1][i];
      }
      IndexOfUnique(path, SLASH, |name|);
    }
  }

  /** What `es'` shows below a sub-tree when only entries at `path` differ. */
  lemma {:induction false} ChildAfterChange(es: seq<Entry>, es': seq<Entry>, path: Text, name: Text)
    requires Except(es, path) == Except(es', path) && Plain(name)
    ensures var n, base := IndexOf(path, SLASH), name + [SLASH];
            if n < |path| && path[..n] == name then
              Except(Under(es, base), path[n + 1..]) == Except(Under(es', base), path[n + 1..])
            else Under(es, base) == Under(es', base)
  {
    var base := name + [SLASH];
    BelowChild(path, name);
    if Below(path, base) {
      UnderExcept(es, base, path);
      UnderExcept(es', base, path);
    } else {
      UnderIgnores(es, base, path);
      UnderIgnores(es', base, path);
    }
  }

  lemma {:induction false} SortedWithout(down: seq<Sub>, k: nat)
    requires DownSorted(down) && k < |down|
    ensures DownSorted(down[..k] + down[k + 1..])
  {
    var rest := down[..k] + down[k + 1..];
    assert forall i :: 0 <= i < |rest| ==> rest[i] == down[if i < k then i else i + 1];
  }

  lemma {:induction false} SortedReplaced(down: seq<Sub>, k: nat, t: Tree)
    requires DownSorted(down) && k < |down|
    ensures DownSorted(down[k := Sub(down[k].name, t)])
  {
    var down' := down[k := Sub(down[k].name, t)];
    assert forall i :: 0 <= i < |down'| ==> down'[i].name == down[i].name;
  }

  /** The sub-trees called otherwise see no change. */
  lemma {:induction false} OthersUnchanged(t: Tree, path: Text, n: nat, es: seq<Entry>, es': seq<Entry>)
    requires Except(es, path) == Except(es', path) && n == IndexOf(path, SLASH)
    requires forall i :: 0 <= i < |t.down| ==> Plain(t.down[i].name)
    ensures forall i :: 0 <= i < |t.down| && (n == |path| || t.down[i].name != path[..n]) ==>
              Under(es, t.down[i].name + [SLASH]) == Under(es', t.down[i].name + [SLASH])
  {
    forall i | 0 <= i < |t.down| && (n == |path| || t.down[i].name != path[..n])
      ensures Under(es, t.down[i].name + [SLASH]) == Under(es', t.down[i].name + [SLASH])
    {
      ChildAfterChange(es, es', path, t.down[i].name);
    }
  }

  /** A node is invalid, and its sub-trees are coherent: then it is. */
  lemma {:induction false} InvalidCoherent(h: Hash, t: Tree, es: seq<Entry>)
    requires t.count < 0 && DownSorted(t.down)
    requires forall i :: 0 <= i < |t.down| ==> Plain(t.down[i].name)
    requires forall i :: 0 <= i < |t.down| ==> Coherent(h, t.down[i].tree, Under(es, t.down[i].name + [SLASH]))
    ensures Coherent(h, t, es)
  {
  }

  /** At the last name of the path a sub-tree of that name goes. */
  lemma {:induction false} InvalidatedLast(h: Hash, t: Tree, path: Text, k: nat, es: seq<Entry>, es': seq<Entry>)
    requires Coherent(h, t, es) && Except(es, path) == Except(es', path) && IndexOf(path, SLASH) == |path|
    requires k == SubIndex(t.down, path)
    ensures Coherent(h, Tree(-1, t.oid, if k < |t.down| then t.down[..k] + t.down[k + 1..] else t.down), es')
  {
    OthersUnchanged(t, path, |path|, es, es');
    if k < |t.down| {
      var rest := t.down[..k] + t.down[k + 1..];
      SortedWithout(t.down, k);
      assert forall i :: 0 <= i < |rest| ==> rest[i] == t.down[if i < k then i else i + 1];
      InvalidCoherent(h, Tree(-1, t.oid, rest), es');
    } else {
      InvalidCoherent(h, Tree(-1, t.oid, t.down), es');
    }
  }

  /** Further up the sub-tree on the path is replaced. */
  lemma {:induction false} InvalidatedInner(h: Hash, t: Tree, path: Text, n: nat, k: nat, sub: Tree, es: seq<Entry>,
                                            es': seq<Entry>)
    requires Coherent(h, t, es) && Except(es, path) == Except(es', path) && n == IndexOf(path, SLASH) < |path|
    requires k == SubIndex(t.down, path[..n])
    requires k < |t.down| ==> Coherent(h, sub, Under(es', path[..n] + [SLASH]))
    ensures Coherent(h, Tree(-1, t.oid, if k < |t.down| then t.down[k := Sub(path[..n], sub)] else t.down), es')
  {
    OthersUnchanged(t, path, n, es, es');
    if k < |t.down| {
      SortedReplaced(t.down, k, sub);
      forall i | 0 <= i < |t.down| && i != k ensures t.down[i].name != path[..n] { SubsDiffer(t.down, i, k); }
      InvalidCoherent(h, Tree(-1, t.oid, t.down[k := Sub(path[..n], sub)]), es');
    } else {
      InvalidCoherent(h, Tree(-1, t.oid, t.down), es');
    }
  }

  lemma {:induction false} SubsDiffer(down: seq<Sub>, i: nat, k: nat)
    requires DownSorted(down) && i < |down| && k < |down| && i != k
    ensures down[i].name != down[k].name
  {
    NameBeforeTotal(down[i].name, down[k].name);
    NameBeforeTotal(down[k].name, down[k].name);
    assert NameBefore(down[if i < k then i else k].name, down[if i < k then k else i].name);
  }

  /** Changing the entries at one path and invalidating it keeps the cache coherent. */
  lemma {:induction false} InvalidatedCoherent(h: Hash, t: Tree, path: Text, es: seq<Entry>, es': seq<Entry>, r: Tree)
    requires Coherent(h, t, es) && Except(es, path) == Except(es', path) && r == Invalidated(t, path)
    ensures Coherent(h, r, es')
    decreases |path|, 2
  {
    if IndexOf(path, SLASH) == |path| {
      assert path[..|path|] == path;
      InvalidatedLast(h, t, path, SubIndex(t.down, path), es, es');
    } else {
      InvalidatedOnWay(h, t, path, IndexOf(path, SLASH), es, es', r);
    }
  }

  lemma {:induction false} InvalidatedOnWay(h: Hash, t: Tree, path: Text, n: nat, es: seq<Entry>, es': seq<Entry>,
                                            r: Tree)
    requires Coherent(h, t, es) && Except(es, path) == Except(es', path) && r == Invalidated(t, path)
    requires n == IndexOf(path, SLASH) < |path|
    ensures Coherent(h, r, es')
    decreases |path|, 1
  {
    var k := SubIndex(t.down, path[..n]);
    if k < |t.down| {
      var sub := Invalidated(t.down[k].tree, path[n + 1..]);
      InvalidatedSub(h, t, path, n, k, es, es', sub);
      InvalidatedInner(h, t, path, n, k, sub, es, es');
    } else {
      InvalidatedInner(h, t, path, n, k, t, es, es');
    }
  }

  lemma {:induction false} InvalidatedSub(h: Hash, t: Tree, path: Text, n: nat, k: nat, es: seq<Entry>, es': seq<Entry>,
                                          sub: Tree)
    requires Coherent(h, t, es) && Except(es, path) == Except(es', path) && n == IndexOf(path, SLASH) < |path|
    requires k < |t.down| && t.down[k].name == path[..n] && sub == Invalidated(t.down[k].tree, path[n + 1..])
    ensures Coherent(h, sub, Under(es', path[..n] + [SLASH]))
    decreases |path|, 0
  {
    var base := path[..n] + [SLASH];
    ChildAfterChange(es, es', path, path[..n]);
    InvalidatedCoherent(h, t.down[k].tree, path[n + 1..], Under(es, base), Under(es', base), sub);
  }

  /** cache_tree_invalidate_path */
  method InvalidatePath(t: Tree, path: Text) returns (t': Tree)
    requires Valid(t)
    ensures t' == Invalidated(t, path) && Valid(t')
    decreases |path|
  {
    var n := IndexOf(path, SLASH);
    var pos := CacheTreeSubtreePos(t.down, path[..n]);
    InvalidatedValid(t, path, Invalidated(t, path));
    if n == |path| {
      t' := Tree(-1, t.oid, if pos >= 0 then t.down[..pos] + t.down[pos + 1..] else t.down);
      return;
    }
    t' := t.(count := -1);
    if pos >= 0 {
      var sub := InvalidatePath(t.down[pos].tree, path[n + 1..]);
      t' := t'.(down := t.down[pos := Sub(path[..n], sub)]);
    }
  }

  lemma {:induction false} InvalidatedValid(t: Tree, path: Text, r: Tree)
    requires Valid(t) && r == Invalidated(t, path)
    ensures Valid(r)
    decreases |path|
  {
    var n := IndexOf(path, SLASH);
    var k := SubIndex(t.down, path[..n]);
    if k < |t.down| {
      if n == |path| {
        SortedWithout(t.down, k);
      } else {
        var sub := Invalidated(t.down[k].tree, path[n + 1..]);
        InvalidatedValid(t.down[k].tree, path[n + 1..], sub);
        SortedReplaced(t.down, k, sub);
      }
    }
  }

  /** Sub-trees are in order throughout. */
  ghost predicate Valid(t: Tree) {
    DownSorted(t.down) && forall i :: 0 <= i < |t.down| ==> Valid(t.down[i].tree)
  }

  // ---- up-to-date caches are unique, and tree ids identify the index ----

  lemma {:induction false} SubNamed(h: Hash, t: Tree, u: Tree, es: seq<Entry>, i: nat) returns (j: nat)
    requires Complete(h, t, es) && Complete(h, u, es) && i < |t.down|
    ensures j < |u.down| && u.down[j].name == t.down[i].name
  {
    var name := t.down[i].name;
    var k := SomeUnder(es, name + [SLASH]);
    BelowChild(es[k].path, name);
    assert HasSub(u.down, es[k].path[..IndexOf(es[k].path, SLASH)]);
    j :| 0 <= j < |u.down| && u.down[j].name == name;
  }

  lemma {:induction false} SomeUnder(es: seq<Entry>, base: Text) returns (k: nat)
    requires Under(es, base) != []
    ensures k < |es| && Below(es[k].path, base)
  {
    if Below(es[0].path, base) {
      k := 0;
    } else {
      k := SomeUnder(es[1..], base);
      k := k + 1;
    }
  }

  /** Strictly ascending lists with the same names have them at the same places. */
  lemma {:induction false} SamePlaces(s: seq<Sub>, t: seq<Sub>, i: nat)
    requires DownSorted(s) && DownSorted(t) && i < |s|
    requires forall k :: 0 <= k < |s| ==> HasSub(t, s[k].name)
    requires forall k :: 0 <= k < |t| ==> HasSub(s, t[k].name)
    ensures i < |t| && s[i].name == t[i].name
    decreases i
  {
    forall k | 0 <= k < i ensures k < |t| && s[k].name == t[k].name { SamePlaces(s, t, k); }
    var j :| 0 <= j < |t| && t[j].name == s[i].name;
    if j < i {
      NameBeforeTotal(s[j].name, s[i].name);
    } else if j > i {
      var k :| 0 <= k < |s| && s[k].name == t[i].name;
      NameBeforeTotal(t[i].name, t[j].name);
      NameBeforeTotal(s[i].name, s[k].name);
    }
  }

  /** There is one up-to-date cache of an index, whatever it was updated from. */
  lemma {:induction false} CompleteUnique(h: Hash, t: Tree, u: Tree, es: seq<Entry>)
    requires Complete(h, t, es) && Complete(h, u, es)
    ensures t == u
    decreases t
  {
    forall i | 0 <= i < |t.down| ensures HasSub(u.down, t.down[i].name) { var _ := SubNamed(h, t, u, es, i); }
    forall i | 0 <= i < |u.down| ensures HasSub(t.down, u.down[i].name) { var _ := SubNamed(h, u, t, es, i); }
    if |u.down| > |t.down| { SamePlaces(u.down, t.down, |t.down|); }
    if |t.down| > |u.down| { SamePlaces(t.down, u.down, |u.down|); }
    forall i | 0 <= i < |t.down| ensures i < |u.down| && t.down[i] == u.down[i] {
      SamePlaces(t.down, u.down, i);
      CompleteUnique(h, t.down[i].tree, u.down[i].tree, Under(es, t.down[i].name + [SLASH]));
    }
  }
}
