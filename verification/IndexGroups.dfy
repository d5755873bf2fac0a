/** A sorted index holds what is below a directory in one stretch, so one pass over it meets
every directory once. */
module IndexGroups {
  import opened Bytes
  import opened CacheTree

  function Cut(e: Entry, base: Text): Entry
    requires |base| <= |e.path|
  {
    e.(path := e.path[|base|..])
  }

  predicate Directory(base: Text) {
    base == [] || base[|base| - 1] == SLASH
  }

  lemma {:induction false} ProperBelow(path: Text, base: Text)
    requires ProperPath(path) && HasPrefix(path, base) && Directory(base)
    ensures Below(path, base)
  {
  }

  lemma {:induction false} NoneBelow(es: seq<Entry>, base: Text)
    requires forall k :: 0 <= k < |es| ==> !HasPrefix(es[k].path, base)
    ensures Under(es, base) == [] && Outside(es, base) == es
  {
    if es != [] { NoneBelow(es[1..], base); }
  }

  /** If the first entry is below `base`, what is below `base` comes first. */
  lemma {:induction false} GroupAtFront(es: seq<Entry>, base: Text) returns (n: nat)
    requires Sorted(es) && Proper(es) && Directory(base) && (es != [] ==> HasPrefix(es[0].path, base))
    ensures n == |Under(es, base)| && n <= |es| && (es != [] ==> n > 0)
    ensures forall k :: 0 <= k < n ==> Below(es[k].path, base) && Under(es, base)[k] == Cut(es[k], base)
    ensures forall k :: n <= k < |es| ==> !HasPrefix(es[k].path, base)
    ensures Outside(es, base) == es[n..]
  {
    if es == [] { return 0; }
    ProperBelow(es[0].path, base);
    if |es| > 1 && HasPrefix(es[1].path, base) {
      n := GroupAtFront(es[1..], base);
      n := n + 1;
      assert forall k :: 1 <= k < |es| ==> es[k] == es[1..][k - 1];
    } else {
      n := 1;
      forall k | 1 <= k < |es| ensures !HasPrefix(es[k].path, base) {
        if k > 1 && HasPrefix(es[k].path, base) { PrefixConvex(base, es[0].path, es[1].path, es[k].path); }
      }
      NoneBelow(es[1..], base);
    }
  }

  lemma {:induction false} GroupKeepsOrder(es: seq<Entry>, base: Text)
    requires Sorted(es) && Proper(es) && Directory(base) && (es != [] ==> HasPrefix(es[0].path, base))
    ensures Sorted(Under(es, base)) && Proper(Under(es, base))
  {
    var n := GroupAtFront(es, base);
    var us := Under(es, base);
    forall i | 0 <= i < n ensures ProperPath(us[i].path) { CutProper(es[i], base); }
    forall i, j | 0 <= i < j < n ensures Before(us[i].path, us[j].path) {
      assert Before(es[i].path, es[j].path);
      CutBefore(es[i], es[j], base);
    }
  }

  lemma {:induction false} CutProper(e: Entry, base: Text)
    requires ProperPath(e.path) && Below(e.path, base)
    ensures ProperPath(Cut(e, base).path)
  {
  }

  lemma {:induction false} CutBefore(e: Entry, f: Entry, base: Text)
    requires Below(e.path, base) && Below(f.path, base) && Before(e.path, f.path)
    ensures Before(Cut(e, base).path, Cut(f, base).path)
  {
    assert e.path == base + Cut(e, base).path && f.path == base + Cut(f, base).path;
    BeforeWithoutPrefix(base, Cut(e, base).path, Cut(f, base).path);
  }

  lemma {:induction false} PrefixAfterCut(path: Text, base: Text, dir: Text)
    requires HasPrefix(path, base)
    ensures HasPrefix(path, base + dir) <==> HasPrefix(path[|base|..], dir)
  {
    assert path == base + path[|base|..];
  }

  lemma {:induction false} PrefixShortened(path: Text, base: Text, dir: Text)
    ensures HasPrefix(path, base + dir) ==> HasPrefix(path, base)
  {
    if HasPrefix(path, base + dir) {
      assert path[..|base|] == path[..|base + dir|][..|base|];
    }
  }

  lemma {:induction false} UnderUnder(es: seq<Entry>, base: Text, dir: Text)
    requires dir != []
    ensures Under(Under(es, base), dir) == Under(es, base + dir)
  {
    if es != [] {
      UnderUnder(es[1..], base, dir);
      var path := es[0].path;
      if Below(path, base) {
        assert Under(es, base)[1..] == Under(es[1..], base);
        PrefixAfterCut(path, base, dir);
        if Below(path, base + dir) { assert path[|base|..][|dir|..] == path[|base + dir|..]; }
      } else {
        PrefixShortened(path, base, dir);
      }
    }
  }

  lemma {:induction false} UnderSuffix(es: seq<Entry>, base: Text, i: nat)
    requires i <= |es| && forall k :: 0 <= k < i ==> !HasPrefix(es[k].path, base)
    ensures Under(es[i..], base) == Under(es, base)
  {
    if i > 0 {
      UnderSuffix(es[1..], base, i - 1);
      assert es[1..][i - 1..] == es[i..];
    }
  }

  /** The first component, and with its slash. */
  function Top(path: Text): Text { path[..IndexOf(path, SLASH)] }

  function TopDir(path: Text): Text { Top(path) + [SLASH] }

  lemma {:induction false} TopIsPlain(path: Text)
    requires !Plain(path)
    ensures Plain(Top(path)) && HasPrefix(path, TopDir(path)) && Directory(TopDir(path))
  {
    forall i | 0 <= i < |Top(path)| ensures Top(path)[i] != SLASH { NotBefore(path, SLASH, i); }
    IndexOfUnique(Top(path), SLASH, |Top(path)|);
  }

  /** No directory reaches across position `i`. */
  ghost predicate Closed(es: seq<Entry>, i: nat) {
    forall j, k {:trigger Apart(es[j].path, es[k].path)} :: 0 <= j < i <= k < |es| ==> Apart(es[j].path, es[k].path)
  }

  ghost predicate Apart(path: Text, other: Text) {
    !Plain(path) ==> !HasPrefix(other, TopDir(path))
  }

  /** Going past a file. */
  lemma {:induction false} FileStep(es: seq<Entry>, i: nat)
    requires i < |es| && Closed(es, i) && Plain(es[i].path)
    ensures Closed(es, i + 1)
  {
  }

  lemma {:induction false} FileLine(h: Hash, es: seq<Entry>, i: nat)
    requires i < |es| && Plain(es[i].path)
    ensures Lines(h, es[i..]) == [Line(es[i].mode, es[i].path, es[i].oid)] + Lines(h, es[i + 1..])
  {
    assert es[i..][1..] == es[i + 1..];
  }

  /** What has the same first component as `path` is what has its directory for a prefix. */
  lemma {:induction false} SameTop(path: Text, other: Text)
    requires !Plain(path) && HasPrefix(other, TopDir(path))
    ensures !Plain(other) && TopDir(other) == TopDir(path)
  {
    var n := IndexOf(path, SLASH);
    assert forall i :: 0 <= i <= n ==> other[i] == other[..n + 1][i] == path[i];
    forall i | 0 <= i < n ensures other[i] != SLASH { NotBefore(path, SLASH, i); }
    IndexOfUnique(other, SLASH, n);
  }

  /** Going past a directory: as many entries as are below it. */
  lemma {:induction false} DirectoryStep(es: seq<Entry>, i: nat) returns (c: nat)
    requires Sorted(es) && Proper(es) && i < |es| && Closed(es, i) && !Plain(es[i].path)
    ensures var dir := TopDir(es[i].path);
            && c == |Under(es, dir)| > 0 && i + c <= |es| && Closed(es, i + c)
            && Under(es[i..], dir) == Under(es, dir) && Outside(es[i..], dir) == es[i + c..]
            && (forall k :: i <= k < i + c ==> !Plain(es[k].path) && TopDir(es[k].path) == dir)
            && (forall k :: 0 <= k < i ==> !HasPrefix(es[k].path, dir))
  {
    var path, dir := es[i].path, TopDir(es[i].path);
    TopIsPlain(path);
    forall k | 0 <= k < i ensures !HasPrefix(es[k].path, dir) {
      assert Apart(es[k].path, path);
      if HasPrefix(es[k].path, dir) { SameTop(path, es[k].path); }
    }
    UnderSuffix(es, dir, i);
    c := GroupAtFront(es[i..], dir);
    assert forall k :: i <= k < |es| ==> es[k] == es[i..][k - i];
    forall k | i <= k < i + c ensures !Plain(es[k].path) && TopDir(es[k].path) == dir { SameTop(path, es[k].path); }
    assert es[i..][c..] == es[i + c..];
  }

  lemma {:induction false} DirectoryLine(h: Hash, es: seq<Entry>, i: nat, dir: Text, c: nat, line: Line)
    requires i + c <= |es| && i < |es| && !Plain(es[i].path) && dir == TopDir(es[i].path)
    requires Under(es[i..], dir) == Under(es, dir) && Outside(es[i..], dir) == es[i + c..]
    requires line == Line(S_IFDIR, Top(es[i].path), TreeOid(h, Under(es, dir)))
    ensures Lines(h, es[i..]) == [line] + Lines(h, es[i + c..])
  {
    LinesOfDirectory(h, es[i..]);
  }

  lemma {:induction false} LinesOfDirectory(h: Hash, es: seq<Entry>)
    requires es != [] && !Plain(es[0].path)
    ensures var dir := TopDir(es[0].path);
            Lines(h, es) == [Line(S_IFDIR, Top(es[0].path), TreeOid(h, Under(es, dir)))] + Lines(h, Outside(es, dir))
  {
  }

  ghost predicate Injective(h: Hash) {
    forall ls, ms :: h(ls) == h(ms) ==> ls == ms
  }

  ghost predicate NoTrees(es: seq<Entry>) {
    forall i :: 0 <= i < |es| ==> es[i].mode != S_IFDIR
  }

  lemma {:induction false} NoTreesUnder(es: seq<Entry>, base: Text)
    requires NoTrees(es)
    ensures NoTrees(Under(es, base))
  {
    if es != [] {
      assert NoTrees(es[1..]);
      NoTreesUnder(es[1..], base);
    }
  }

  /** Entries in front of and behind the end of a group, put together again. */
  lemma {:induction false} SameGroupSameRest(es: seq<Entry>, fs: seq<Entry>, base: Text)
    requires Sorted(es) && Proper(es) && Sorted(fs) && Proper(fs) && Directory(base) && es != [] && fs != []
    requires HasPrefix(es[0].path, base) && HasPrefix(fs[0].path, base)
    requires Under(es, base) == Under(fs, base) && Outside(es, base) == Outside(fs, base)
    ensures es == fs
  {
    var n := GroupAtFront(es, base);
    var m := GroupAtFront(fs, base);
    forall k | 0 <= k < n ensures es[k] == fs[k] { CutApart(es[k], fs[k], base); }
    SameParts(es, fs, n);
  }

  /** What was cut off is the same. */
  lemma {:induction false} CutApart(e: Entry, f: Entry, base: Text)
    requires HasPrefix(e.path, base) && HasPrefix(f.path, base) && Cut(e, base) == Cut(f, base)
    ensures e == f
  {
    assert e.path == base + Cut(e, base).path && f.path == base + Cut(f, base).path;
  }

  lemma {:induction false} SameParts(es: seq<Entry>, fs: seq<Entry>, n: nat)
    requires n <= |es| && n <= |fs| && es[n..] == fs[n..] && forall k :: 0 <= k < n ==> es[k] == fs[k]
    ensures es == fs
  {
    assert es[..n] == fs[..n];
    assert es == es[..n] + es[n..] && fs == fs[..n] + fs[n..];
  }

  /** With a hash that does not collide, equal tree ids mean equal indexes. */
  lemma {:induction false} LinesIdentify(h: Hash, es: seq<Entry>, fs: seq<Entry>)
    requires Injective(h) && Sorted(es) && Proper(es) && NoTrees(es) && Sorted(fs) && Proper(fs) && NoTrees(fs)
    requires Lines(h, es) == Lines(h, fs)
    ensures es == fs
    decreases Weight(es)
  {
    if es == [] || fs == [] {
      return;
    }
    if Plain(es[0].path) {
      FileLine(h, es, 0);
      FirstLine(h, fs);
      FileLine(h, fs, 0);
      assert Lines(h, es)[1..] == Lines(h, es[1..]) && Lines(h, fs)[1..] == Lines(h, fs[1..]);
      LinesIdentify(h, es[1..], fs[1..]);
      assert es == [es[0]] + es[1..] && fs == [fs[0]] + fs[1..];
    } else {
      DirectoriesIdentify(h, es, fs);
    }
  }

  lemma {:induction false} FirstLine(h: Hash, es: seq<Entry>)
    requires es != [] && NoTrees(es)
    ensures Lines(h, es) != []
    ensures Lines(h, es)[0].mode != S_IFDIR <==> Plain(es[0].path)
    ensures !Plain(es[0].path) ==> Lines(h, es)[0].name == Top(es[0].path)
  {
    assert es[0..] == es;
    if Plain(es[0].path) { FileLine(h, es, 0); } else { LinesOfDirectory(h, es); }
  }

  lemma {:induction false} DirectoriesIdentify(h: Hash, es: seq<Entry>, fs: seq<Entry>)
    requires Injective(h) && Sorted(es) && Proper(es) && NoTrees(es) && Sorted(fs) && Proper(fs) && NoTrees(fs)
    requires Lines(h, es) == Lines(h, fs) && es != [] && fs != [] && !Plain(es[0].path)
    ensures es == fs
    decreases Weight(es), 0
  {
    FirstLine(h, es);
    FirstLine(h, fs);
    var dir := TopDir(es[0].path);
    TopIsPlain(es[0].path);
    TopIsPlain(fs[0].path);
    LinesOfDirectory(h, es);
    LinesOfDirectory(h, fs);
    assert Lines(h, es)[1..] == Lines(h, Outside(es, dir)) && Lines(h, fs)[1..] == Lines(h, Outside(fs, dir));
    UnderWeighsLess(es, dir);
    OutsideWeighsLess(es, dir);
    GroupFacts(es, dir);
    GroupFacts(fs, dir);
    LinesIdentify(h, Under(es, dir), Under(fs, dir));
    LinesIdentify(h, Outside(es, dir), Outside(fs, dir));
    SameGroupSameRest(es, fs, dir);
  }

  lemma {:induction false} GroupFacts(es: seq<Entry>, base: Text)
    requires Sorted(es) && Proper(es) && NoTrees(es) && Directory(base) && es != [] && HasPrefix(es[0].path, base)
    ensures Sorted(Under(es, base)) && Proper(Under(es, base)) && NoTrees(Under(es, base))
    ensures Sorted(Outside(es, base)) && Proper(Outside(es, base)) && NoTrees(Outside(es, base))
  {
    GroupKeepsOrder(es, base);
    NoTreesUnder(es, base);
    var _ := GroupAtFront(es, base);
  }
}
