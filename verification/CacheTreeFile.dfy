/** The cache-tree extension of the index file (write_one, read_one). */
module CacheTreeFile {
  import opened Bytes
  import opened CacheTree

  /** %d */
  function Digits(n: nat): (s: Text)
    ensures s != [] && forall i :: 0 <= i < |s| ==> IsDigit(s[i])
  {
    if n < 10 then [ZERO + n] else Digits(n / 10) + [ZERO + n % 10]
  }

  function Decimal(n: int): (s: Text)
    ensures s != [] && forall i :: 0 <= i < |s| ==> IsDigit(s[i]) || s[i] == MINUS
  {
    if n < 0 then [MINUS] + Digits(-n) else Digits(n)
  }

  predicate IsDigit(b: Byte) { 48 <= b <= 57 }

  /** Decimal notation: a digit is written as one of the bytes 48 to 57, ten times a number and a digit
      as the number followed by the digit, and a negative number with a minus sign in front. */
  lemma {:induction false} DecimalNotation(n: nat, d: nat)
    requires d < 10
    ensures Decimal(d) == [48 + d]
    ensures n > 0 ==> Decimal(10 * n + d) == Decimal(n) + [48 + d]
    ensures n > 0 ==> Decimal(0 - n) == [45] + Decimal(n)
  {
    assert (10 * n + d) / 10 == n && (10 * n + d) % 10 == d;
  }

  function SpacesEnd(s: Text, i: nat): (r: nat)
    requires i <= |s|
    ensures i <= r <= |s|
    decreases |s| - i
  {
    if i < |s| && IsSpace(s[i]) then SpacesEnd(s, i + 1) else i
  }

  function DigitsEnd(s: Text, i: nat): (r: nat)
    requires i <= |s|
    ensures i <= r <= |s|
    decreases |s| - i
  {
    if i < |s| && IsDigit(s[i]) then DigitsEnd(s, i + 1) else i
  }

  /** The digits [i, j) as a number. */
  function Value(s: Text, i: nat, j: nat): int
    requires j <= |s|
    decreases j
  {
    if j <= i then 0 else Value(s, i, j - 1) * 10 + (s[j - 1] - ZERO)
  }

  function Magnitude(s: Text, i: nat): (r: (int, nat))
    requires i <= |s|
    ensures i <= r.1 <= |s|
  {
    (Value(s, i, DigitsEnd(s, i)), DigitsEnd(s, i))
  }

  function Signed(s: Text, i: nat): (r: (int, nat))
    requires i <= |s|
    ensures i <= r.1 <= |s|
  {
    if i == |s| || (s[i] != MINUS && s[i] != PLUS) then Magnitude(s, i)
    else
      var (v, e) := Magnitude(s, i + 1);
      if e == i + 1 then (0, i) else if s[i] == MINUS then (-v, e) else (v, e)
  }

  const LONG_MAX := 0x7fff_ffff_ffff_ffff

  /** strtol in base ten: the number at `i`, kept within a `long` of 64 bits, and where it ends, which
      is `i` if there is none. */
  function Strtol(s: Text, i: nat): (r: (int, nat))
    requires i <= |s|
    ensures i <= r.1 <= |s|
  {
    var n := SpacesEnd(s, i);
    var (v, e) := Signed(s, n);
    if e == n then (0, i)
    else (if v > LONG_MAX then LONG_MAX else if v < -LONG_MAX - 1 then -LONG_MAX - 1 else v, e)
  }

  /** An `int` of 32 bits. */
  predicate IsInt(v: int) {
    -0x8000_0000 <= v < 0x8000_0000
  }

  /** A `long` assigned to an `int`: the lower half, its top bit being the sign. */
  function ToInt(v: int): (r: int)
    ensures IsInt(r) && (IsInt(v) ==> r == v)
  {
    var low := v % 0x1_0000_0000;
    if low < 0x8000_0000 then low else low - 0x1_0000_0000
  }

  /** A number of the header. */
  function ReadInt(s: Text, i: nat): (r: (int, nat))
    requires i <= |s|
    ensures IsInt(r.0) && i <= r.1 <= |s|
  {
    var (v, e) := Strtol(s, i);
    (ToInt(v), e)
  }

  /** `t` stands at `i`. */
  ghost predicate At(s: Text, i: nat, t: Text) {
    i + |t| <= |s| && forall k :: 0 <= k < |t| ==> s[i + k] == t[k]
  }

  lemma {:induction false} AtTail(s: Text, i: nat, t: Text)
    requires At(s, i, t) && t != []
    ensures s[i] == t[0] && At(s, i + 1, t[1..])
  {
    assert s[i + 0] == t[0];
    forall k | 0 <= k < |t[1..]| ensures s[(i + 1) + k] == t[1..][k] { assert s[i + (k + 1)] == t[k + 1]; }
  }

  lemma {:induction false} ValueOfDigits(s: Text, i: nat, n: nat)
    requires At(s, i, Digits(n))
    ensures Value(s, i, i + |Digits(n)|) == n
  {
    if n >= 10 {
      var front := Digits(n / 10);
      forall k | 0 <= k < |front| ensures s[i + k] == front[k] { assert Digits(n)[k] == front[k]; }
      ValueOfDigits(s, i, n / 10);
      assert s[i + |front|] == Digits(n)[|front|] == ZERO + n % 10;
    } else {
      assert s[i + 0] == Digits(n)[0];
    }
  }

  lemma {:induction false} DigitsEndIs(s: Text, i: nat, j: nat)
    requires i <= j <= |s| && (forall k :: i <= k < j ==> IsDigit(s[k])) && (j < |s| ==> !IsDigit(s[j]))
    ensures DigitsEnd(s, i) == j
    decreases j - i
  {
    if i < j { DigitsEndIs(s, i + 1, j); }
  }

  /** No digit follows the number at `i`. */
  ghost predicate NumberAt(s: Text, i: nat, t: Text) {
    At(s, i, t) && (i + |t| < |s| ==> !IsDigit(s[i + |t|]))
  }

  lemma {:induction false} MagnitudeOf(s: Text, i: nat, n: nat)
    requires NumberAt(s, i, Digits(n))
    ensures Magnitude(s, i) == (n, i + |Digits(n)|)
  {
    ValueOfDigits(s, i, n);
    forall k | i <= k < i + |Digits(n)| ensures IsDigit(s[k]) { assert s[k] == Digits(n)[k - i]; }
    DigitsEndIs(s, i, i + |Digits(n)|);
  }

  lemma {:induction false} SignedOf(s: Text, i: nat, n: int)
    requires NumberAt(s, i, Decimal(n))
    ensures Signed(s, i) == (n, i + |Decimal(n)|)
  {
    assert s[i] == Decimal(n)[0];
    if n < 0 {
      AtTail(s, i, Decimal(n));
      assert Decimal(n)[1..] == Digits(-n);
      MagnitudeOf(s, i + 1, -n);
    } else {
      MagnitudeOf(s, i, n);
    }
  }

  ghost predicate AllDigits(s: Text) { s != [] && forall k :: 0 <= k < |s| ==> 48 <= s[k] <= 57 }

  lemma {:induction false} ValueDepends(s: Text, t: Text, j: nat)
    requires j <= |s| && j <= |t| && forall k :: 0 <= k < j ==> s[k] == t[k]
    ensures Value(s, 0, j) == Value(t, 0, j)
    decreases j
  {
    if j > 0 { ValueDepends(s, t, j - 1); }
  }

  lemma {:induction false} ValuePositive(s: Text, j: nat)
    requires AllDigits(s) && j <= |s|
    ensures Value(s, 0, j) >= 0
    decreases j
  {
    if j > 0 { ValuePositive(s, j - 1); }
  }

  /** A text of digits is read to its end. */
  lemma {:induction false} ReadDigits(s: Text)
    requires AllDigits(s) && Value(s, 0, |s|) < 0x8000_0000
    ensures ReadInt(s, 0) == (Value(s, 0, |s|), |s|)
  {
    DigitsEndIs(s, 0, |s|);
    ValuePositive(s, |s|);
    assert SpacesEnd(s, 0) == 0;
  }

  /** Reading decimal notation: one digit is its value, and a digit more is ten times the value and the
      digit, as long as it is an `int`; a minus sign in front makes it negative. */
  lemma {:induction false} DecimalReading(s: Text, d: nat)
    requires AllDigits(s) && d < 10 && ReadInt(s, 0).0 * 10 + d < 0x8000_0000 && Value(s, 0, |s|) < 0x8000_0000
    ensures ReadInt([48 + d], 0) == (d, 1)
    ensures ReadInt(s + [48 + d], 0) == (ReadInt(s, 0).0 * 10 + d, |s| + 1)
    ensures ReadInt([45] + s, 0) == (-ReadInt(s, 0).0, |s| + 1)
  {
    var t := s + [48 + d];
    ReadDigits(s);
    ValueDepends(s, t, |s|);
    ReadDigits(t);
    assert Value([48 + d], 0, 1) == Value([48 + d], 0, 0) * 10 + d;
    ReadDigits([48 + d]);
    ReadMinus(s);
  }

  /** A number ends at the first byte that is no digit. */
  lemma {:induction false} DecimalEnds(s: Text, b: Byte, rest: Text)
    requires AllDigits(s) && (b < 48 || b > 57) && Value(s, 0, |s|) < 0x8000_0000
    ensures ReadInt(s + [b] + rest, 0) == ReadInt(s, 0)
  {
    var t := s + [b] + rest;
    ReadDigits(s);
    ValueDepends(s, t, |s|);
    DigitsEndIs(t, 0, |s|);
    ValuePositive(s, |s|);
    assert SpacesEnd(t, 0) == 0;
  }

  /** White space before a number is skipped, and nothing else is: tab, line feed, vertical tab, form
      feed, carriage return and space. */
  lemma {:induction false} SpaceSkipped(b: Byte, s: Text)
    requires AllDigits(s) && Value(s, 0, |s|) < 0x8000_0000
    ensures b in {9, 10, 11, 12, 13, 32} ==> ReadInt([b] + s, 0) == (ReadInt(s, 0).0, |s| + 1)
    ensures b !in {9, 10, 11, 12, 13, 32} && b != 43 && b != 45 && (b < 48 || b > 57) ==> ReadInt([b] + s, 0).1 == 0
  {
    var t := [b] + s;
    ReadDigits(s);
    if b in {9, 10, 11, 12, 13, 32} {
      ValuePositive(s, |s|);
      DigitsEndIs(t, 1, |t|);
      ValueShift(s, t, |s|);
      assert SpacesEnd(t, 1) == 1 && SpacesEnd(t, 0) == 1;
    } else if b != 43 && b != 45 && (b < 48 || b > 57) {
      assert SpacesEnd(t, 0) == 0 && DigitsEnd(t, 0) == 0;
    }
  }

  /** A number beyond a `long` reads as the largest one, which leaves -1 for an `int`; a negative one as
      the smallest, which leaves 0. */
  lemma {:induction false} Overflowing(s: Text)
    requires AllDigits(s)
    ensures Value(s, 0, |s|) >= 0x7fff_ffff_ffff_ffff ==> ReadInt(s, 0) == (-1, |s|)
    ensures Value(s, 0, |s|) >= 0x8000_0000_0000_0000 ==> ReadInt([45] + s, 0) == (0, |s| + 1)
  {
    DigitsEndIs(s, 0, |s|);
    assert SpacesEnd(s, 0) == 0;
    var t := [45] + s;
    DigitsEndIs(t, 1, |t|);
    ValueShift(s, t, |s|);
    assert SpacesEnd(t, 0) == 0;
  }

  /** A `long` and the `int` it is assigned to differ by a multiple of two to the thirty-second. */
  lemma {:induction false} Truncated(v: int)
    ensures IsInt(ToInt(v)) && (v - ToInt(v)) % 0x1_0000_0000 == 0
  {
    assert v == v / 0x1_0000_0000 * 0x1_0000_0000 + v % 0x1_0000_0000;
  }

  lemma {:induction false} ReadMinus(s: Text)
    requires AllDigits(s) && Value(s, 0, |s|) < 0x8000_0000
    ensures ReadInt([45] + s, 0) == (-Value(s, 0, |s|), |s| + 1)
  {
    var t := [45] + s;
    ValuePositive(s, |s|);
    DigitsEndIs(t, 1, |t|);
    ValueShift(s, t, |s|);
    assert SpacesEnd(t, 0) == 0;
  }

  lemma {:induction false} ValueShift(s: Text, t: Text, j: nat)
    requires |t| == |s| + 1 && t[1..] == s && j <= |s|
    ensures Value(t, 1, j + 1) == Value(s, 0, j)
    decreases j
  {
    if j > 0 { ValueShift(s, t, j - 1); }
  }

  /** Reading back a printed `int`, with or without a space before it. */
  lemma {:induction false} StrtolDecimal(s: Text, i: nat, n: int, spaced: bool)
    requires if spaced then i < |s| && s[i] == SPACE && NumberAt(s, i + 1, Decimal(n)) else NumberAt(s, i, Decimal(n))
    requires IsInt(n)
    ensures ReadInt(s, i) == (n, i + |Decimal(n)| + if spaced then 1 else 0)
  {
    var j := if spaced then i + 1 else i;
    assert s[j] == Decimal(n)[0];
    SignedOf(s, j, n);
    assert SpacesEnd(s, j) == j;
  }

  function IdBytes(t: Tree): Text { if t.count >= 0 then t.oid else [] }

  function Header(t: Tree): Text {
    Decimal(t.count) + [SPACE] + Decimal(|t.down|) + [NEWLINE]
  }

  /** The bytes for a tree below `name`. */
  function Encode(t: Tree, name: Text): Text
    decreases t, 1, 0
  {
    name + [NUL] + (Header(t) + (IdBytes(t) + EncodeFrom(t.down, 0)))
  }

  /** The sub-trees from `i` on. */
  function EncodeFrom(down: seq<Sub>, i: nat): Text
    requires i <= |down|
    decreases down, 0, |down| - i
  {
    if i == |down| then [] else Encode(down[i].tree, down[i].name) + EncodeFrom(down, i + 1)
  }

  /** The bytes of an invalid root with one valid sub-tree "a" of `n` entries, n < 10. */
  lemma {:induction false} WrittenBytes(n: nat, oid: Oid)
    requires n < 10
    ensures Encode(Tree(-1, [], [Sub([97], Tree(n, oid, []))]), []) ==
            [0, 45, 49, 32, 49, 10, 97, 0, 48 + n, 32, 48, 10] + oid
  {
    DecimalNotation(1, 0);
    DecimalNotation(1, 1);
    DecimalNotation(1, n);
    var sub := Tree(n, oid, []);
    var root := Tree(-1, [], [Sub([97], sub)]);
    assert Header(sub) == [48 + n, 32, 48, 10] && EncodeFrom(sub.down, 0) == [];
    assert Encode(sub, [97]) == [97, 0, 48 + n, 32, 48, 10] + oid;
    assert Header(root) == [45, 49, 32, 49, 10];
    assert EncodeFrom(root.down, 1) == [];
    assert EncodeFrom(root.down, 0) == Encode(sub, [97]);
  }

  /** The counts are of type `int`, names hold no NUL byte, and ids of valid nodes have the hash's size. */
  ghost predicate Writable(t: Tree, rawsz: nat) {
    && IsInt(t.count) && IsInt(|t.down|)
    && (t.count >= 0 ==> |t.oid| == rawsz)
    && (forall i :: 0 <= i < |t.down| ==> NUL !in t.down[i].name && Writable(t.down[i].tree, rawsz))
  }

  /** What reading gives back: no id for an invalid node. */
  function Stored(t: Tree): Tree {
    Tree(t.count, IdBytes(t),
         seq(|t.down|, i requires 0 <= i < |t.down| => Sub(t.down[i].name, Stored(t.down[i].tree))))
  }

  function StoredSub(sub: Sub): Sub { Sub(sub.name, Stored(sub.tree)) }

  datatype Parsed = Node(tree: Tree, rest: Text) | Malformed | Died
  datatype ParsedSubs = Subs(down: seq<Sub>, rest: Text) | NoSubs | SubDied

  /** The end of the header line. */
  function LineEnd(s: Text, i: nat): (n: nat)
    requires i <= |s|
    ensures i <= n <= |s|
    decreases |s| - i
  {
    if i == |s| || s[i] == NUL || s[i] == NEWLINE then i else LineEnd(s, i + 1)
  }

  /** cache_tree_sub, and setting its tree: from position `i` on, the place of the name is looked for. */
  function PutFrom(down: seq<Sub>, i: nat, name: Text, t: Tree): seq<Sub>
    requires i <= |down|
    decreases |down| - i
  {
    if i < |down| && NameBefore(down[i].name, name) then PutFrom(down, i + 1, name, t)
    else PutAt(down, i, name, t)
  }

  /** A sub-tree of that name is replaced, otherwise a new one is inserted. */
  function PutAt(down: seq<Sub>, k: nat, name: Text, t: Tree): seq<Sub>
    requires k <= |down|
  {
    if k < |down| && down[k].name == name then down[k := Sub(name, t)] else down[..k] + [Sub(name, t)] + down[k..]
  }

  function PutSub(down: seq<Sub>, name: Text, t: Tree): seq<Sub> { PutFrom(down, 0, name, t) }

  /** `k` is the place of the name. */
  ghost predicate PlaceOf(down: seq<Sub>, k: nat, name: Text) {
    && k <= |down| && (forall i :: 0 <= i < k ==> NameBefore(down[i].name, name))
    && (k < |down| ==> !NameBefore(down[k].name, name))
  }

  lemma {:induction false} PutThere(down: seq<Sub>, i: nat, k: nat, name: Text, t: Tree)
    requires PlaceOf(down, k, name) && i <= k
    ensures PutFrom(down, i, name, t) == PutAt(down, k, name, t)
    decreases k - i
  {
    if i < k { PutThere(down, i + 1, k, name, t); }
  }

  lemma {:induction false} SomePlace(down: seq<Sub>, name: Text, i: nat) returns (k: nat)
    requires i <= |down| && forall j :: 0 <= j < i ==> NameBefore(down[j].name, name)
    ensures PlaceOf(down, k, name)
    decreases |down| - i
  {
    if i < |down| && NameBefore(down[i].name, name) { k := SomePlace(down, name, i + 1); } else { k := i; }
  }

  /** read_one: the name, the header line, the id, the sub-trees. */
  function Parse(buf: Text, rawsz: nat): (r: Parsed)
    ensures r.Node? ==> |r.rest| < |buf|
    decreases |buf|, 0, 0
  {
    var n := IndexOf(buf, NUL);
    if n == |buf| then Malformed else ParseHeader(buf[n + 1..], rawsz)
  }

  function ParseHeader(b: Text, rawsz: nat): (r: Parsed)
    ensures r.Node? ==> |r.rest| <= |b|
    decreases |b|, 3, 0
  {
    var (count, ep) := ReadInt(b, 0);
    var (nr, ep2) := ReadInt(b, ep);
    var m := LineEnd(b, 0);
    if ep == 0 || ep2 == ep || m == |b| then Malformed else ParseNode(count, nr, b[m + 1..], rawsz)
  }

  function ParseNode(count: int, nr: int, b: Text, rawsz: nat): (r: Parsed)
    ensures r.Node? ==> |r.rest| <= |b|
    decreases |b|, 2, 0
  {
    var skip := if count >= 0 then rawsz else 0;
    if |b| < skip then Malformed
    else
      match ParseSubs(b[skip..], nr, [], rawsz)
      case NoSubs => Malformed
      case SubDied => Died
      case Subs(down, rest) => if nr != |down| then Died else Node(Tree(count, b[..skip], down), rest)
  }

  function ParseSubs(buf: Text, n: int, down: seq<Sub>, rawsz: nat): (r: ParsedSubs)
    ensures r.Subs? ==> |r.rest| <= |buf|
    decreases |buf|, 1, if n < 0 then 0 else n
  {
    if n <= 0 then Subs(down, buf)
    else
      match Parse(buf, rawsz)
      case Malformed => NoSubs
      case Died => SubDied
      case Node(t, rest) => ParseSubs(rest, n - 1, PutSub(down, buf[..IndexOf(buf, NUL)], t), rawsz)
  }

  lemma {:induction false} LineEndIs(s: Text, i: nat, j: nat)
    requires i <= j < |s| && s[j] == NEWLINE && forall k :: i <= k < j ==> s[k] != NUL && s[k] != NEWLINE
    ensures LineEnd(s, i) == j
    decreases j - i
  {
    if i < j { LineEndIs(s, i + 1, j); }
  }

  lemma {:induction false} Assoc(s: Text, t: Text, u: Text)
    ensures (s + t) + u == s + (t + u)
  {
  }

  /** Where the parts of a header are. */
  lemma {:induction false} HeaderParts(c: Text, d: Text, rest: Text, b: Text)
    requires b == c + [SPACE] + d + [NEWLINE] + rest
    ensures At(b, 0, c) && b[|c|] == SPACE && At(b, |c| + 1, d) && b[|c| + 1 + |d|] == NEWLINE
  {
  }

  /** The header read back: both numbers and its length. */
  lemma {:induction false} HeaderRead(t: Tree, rest: Text, b: Text)
    requires b == Header(t) + rest && IsInt(t.count) && IsInt(|t.down|)
    ensures var c, d := |Decimal(t.count)|, |Decimal(|t.down|)|;
            && c + d + 2 == |Header(t)| <= |b|
            && ReadInt(b, 0) == (t.count, c) && ReadInt(b, c) == (|t.down|, c + 1 + d)
            && LineEnd(b, 0) == |Header(t)| - 1
  {
    var c, d := Decimal(t.count), Decimal(|t.down|);
    HeaderParts(c, d, rest, b);
    HeaderNumbers(c, d, t.count, |t.down|, b);
    OneLine(c, d, b);
  }

  lemma {:induction false} HeaderNumbers(c: Text, d: Text, count: int, nr: int, b: Text)
    requires c == Decimal(count) && d == Decimal(nr) && IsInt(count) && IsInt(nr)
    requires At(b, 0, c) && |c| < |b| && b[|c|] == SPACE && At(b, |c| + 1, d)
    requires |c| + 1 + |d| < |b| && b[|c| + 1 + |d|] == NEWLINE
    ensures ReadInt(b, 0) == (count, |c|) && ReadInt(b, |c|) == (nr, |c| + 1 + |d|)
  {
    StrtolDecimal(b, 0, count, false);
    StrtolDecimal(b, |c|, nr, true);
  }

  lemma {:induction false} OneLine(c: Text, d: Text, b: Text)
    requires At(b, 0, c) && |c| < |b| && b[|c|] == SPACE && At(b, |c| + 1, d)
    requires |c| + 1 + |d| < |b| && b[|c| + 1 + |d|] == NEWLINE
    requires forall k :: 0 <= k < |c| ==> IsDigit(c[k]) || c[k] == MINUS
    requires forall k :: 0 <= k < |d| ==> IsDigit(d[k]) || d[k] == MINUS
    ensures LineEnd(b, 0) == |c| + 1 + |d|
  {
    forall k | 0 <= k < |c| + 1 + |d| ensures b[k] != NUL && b[k] != NEWLINE {
      if k < |c| {
        assert b[0 + k] == c[k];
      } else if k > |c| {
        assert b[(|c| + 1) + (k - |c| - 1)] == d[k - |c| - 1];
      }
    }
    LineEndIs(b, 0, |c| + 1 + |d|);
  }

  lemma {:induction false} Split(s: Text, t: Text)
    ensures (s + t)[..|s|] == s && (s + t)[|s|..] == t
  {
  }

  lemma {:induction false} ParseWrittenHeader(t: Tree, rest: Text, b: Text, rawsz: nat)
    requires b == Header(t) + rest && IsInt(t.count) && IsInt(|t.down|)
    ensures ParseHeader(b, rawsz) == ParseNode(t.count, |t.down|, rest, rawsz)
  {
    HeaderRead(t, rest, b);
    Split(Header(t), rest);
  }

  lemma {:induction false} PutLast(down: seq<Sub>, name: Text, t: Tree)
    requires forall i :: 0 <= i < |down| ==> NameBefore(down[i].name, name)
    ensures PutSub(down, name, t) == down + [Sub(name, t)]
  {
    PutThere(down, 0, |down|, name, t);
  }

  lemma {:induction false} NameEnds(name: Text, rest: Text)
    requires NUL !in name
    ensures var b := name + ([NUL] + rest);
            IndexOf(b, NUL) == |name| && b[..|name|] == name && b[|name| + 1..] == rest
  {
    var b := name + ([NUL] + rest);
    forall i | 0 <= i < |name| ensures b[i] != NUL { assert b[i] == name[i]; }
    IndexOfUnique(b, NUL, |name|);
  }

  lemma {:induction false} EncodeShape(t: Tree, name: Text, rest: Text)
    ensures Encode(t, name) + rest == name + ([NUL] + (Header(t) + (IdBytes(t) + (EncodeFrom(t.down, 0) + rest))))
  {
    Regroup(name, [NUL], Header(t), IdBytes(t), EncodeFrom(t.down, 0), rest);
  }

  lemma {:induction false} Regroup(a: Text, b: Text, c: Text, d: Text, e: Text, f: Text)
    ensures (a + b + (c + (d + e))) + f == a + (b + (c + (d + (e + f))))
  {
    Assoc(d, e, f);
    Assoc(c, d + e, f);
    Assoc(a + b, c + (d + e), f);
    Assoc(a, b, c + (d + (e + f)));
  }

  /** Reading a written tree gives it back, whatever follows. */
  lemma {:induction false} ReadWritten(t: Tree, name: Text, rest: Text, rawsz: nat)
    requires Valid(t) && Writable(t, rawsz) && NUL !in name
    ensures Parse(Encode(t, name) + rest, rawsz) == Node(Stored(t), rest)
    decreases t, 1, 0
  {
    var b := IdBytes(t) + (EncodeFrom(t.down, 0) + rest);
    EncodeShape(t, name, rest);
    NameEnds(name, Header(t) + b);
    ParseWrittenHeader(t, b, Header(t) + b, rawsz);
    Split(IdBytes(t), EncodeFrom(t.down, 0) + rest);
    AllStoredOf(t, rawsz);
    var subs := ParseSubs(EncodeFrom(t.down, 0) + rest, |t.down|, [], rawsz);
    ReadAllWritten(t.down, Stored(t).down, 0, |t.down|, [], EncodeFrom(t.down, 0) + rest, rest, rawsz, subs);
    ParseWrittenNode(t, b, rest, rawsz);
  }

  lemma {:induction false} AllStoredOf(t: Tree, rawsz: nat)
    requires Valid(t) && Writable(t, rawsz)
    ensures AllWritable(t.down, rawsz) && AllStored(t.down, Stored(t).down)
  {
  }

  lemma {:induction false} ParseWrittenNode(t: Tree, b: Text, rest: Text, rawsz: nat)
    requires b == IdBytes(t) + (EncodeFrom(t.down, 0) + rest) && |IdBytes(t)| == (if t.count >= 0 then rawsz else 0)
    requires b[..|IdBytes(t)|] == IdBytes(t) && b[|IdBytes(t)|..] == EncodeFrom(t.down, 0) + rest
    requires ParseSubs(EncodeFrom(t.down, 0) + rest, |t.down|, [], rawsz) == Subs(Stored(t).down, rest)
    ensures ParseNode(t.count, |t.down|, b, rawsz) == Node(Stored(t), rest)
  {
  }

  /** The sub-trees from `i` on, those before them being read already. */
  lemma {:induction false} ReadAllWritten(down: seq<Sub>, stored: seq<Sub>, i: nat, n: nat, before: seq<Sub>,
                                          buf: Text, rest: Text, rawsz: nat, r: ParsedSubs)
    requires AllWritable(down, rawsz) && AllStored(down, stored)
    requires i + n == |down| && r == ParseSubs(buf, n, before, rawsz)
    requires buf == EncodeFrom(down, i) + rest && before == stored[..i]
    ensures r == Subs(stored, rest)
    decreases down, 0, n
  {
    if n == 0 {
      assert buf == rest && before == stored;
    } else {
      var more := ReadNextWritten(down, stored, i, n, before, buf, rest, rawsz, r);
      ReadAllWritten(down, stored, i + 1, n - 1, stored[..i + 1], more, rest, rawsz, r);
    }
  }

  /** Reading goes on behind the next sub-tree. */
  lemma {:induction false} ReadNextWritten(down: seq<Sub>, stored: seq<Sub>, i: nat, n: nat, before: seq<Sub>,
                                           buf: Text, rest: Text, rawsz: nat, r: ParsedSubs)
    returns (more: Text)
    requires AllWritable(down, rawsz) && AllStored(down, stored)
    requires n > 0 && i + n == |down| && r == ParseSubs(buf, n, before, rawsz)
    requires buf == EncodeFrom(down, i) + rest && before == stored[..i]
    ensures more == EncodeFrom(down, i + 1) + rest && r == ParseSubs(more, n - 1, stored[..i + 1], rawsz)
    decreases down, 0, 0
  {
    more := EncodeFrom(down, i + 1) + rest;
    NextWritten(down, i, rest);
    assert WritableSub(down[i], rawsz);
    ReadWritten(down[i].tree, down[i].name, more, rawsz);
    ReadOneWritten(down, stored, i, n, before, more, buf, rawsz);
  }

  lemma {:induction false} NextWritten(down: seq<Sub>, i: nat, rest: Text)
    requires i < |down|
    ensures EncodeFrom(down, i) + rest == Encode(down[i].tree, down[i].name) + (EncodeFrom(down, i + 1) + rest)
  {
    Assoc(Encode(down[i].tree, down[i].name), EncodeFrom(down, i + 1), rest);
  }

  lemma {:induction false} ReadOneWritten(down: seq<Sub>, stored: seq<Sub>, i: nat, n: nat, before: seq<Sub>,
                                          more: Text, buf: Text, rawsz: nat)
    requires AllWritable(down, rawsz) && AllStored(down, stored) && i < |down| && n > 0 && before == stored[..i]
    requires buf == Encode(down[i].tree, down[i].name) + more && Parse(buf, rawsz) == Node(Stored(down[i].tree), more)
    ensures ParseSubs(buf, n, before, rawsz) == ParseSubs(more, n - 1, stored[..i + 1], rawsz)
  {
    assert WritableSub(down[i], rawsz);
    NameOf(down[i], more, buf);
    PutStored(down, stored, i);
    ParseSubsStep(buf, n, before, rawsz, Stored(down[i].tree), more, down[i].name);
  }

  ghost predicate AllWritable(down: seq<Sub>, rawsz: nat) {
    && DownSorted(down)
    && forall i {:trigger WritableSub(down[i], rawsz)} :: 0 <= i < |down| ==> WritableSub(down[i], rawsz)
  }

  ghost predicate WritableSub(sub: Sub, rawsz: nat) { Valid(sub.tree) && NUL !in sub.name && Writable(sub.tree, rawsz) }

  ghost predicate AllStored(down: seq<Sub>, stored: seq<Sub>) {
    |stored| == |down| && forall i {:trigger StoredSub(down[i])} :: 0 <= i < |down| ==> stored[i] == StoredSub(down[i])
  }

  /** The next sub-tree goes to the end. */
  lemma {:induction false} PutStored(down: seq<Sub>, stored: seq<Sub>, i: nat)
    requires DownSorted(down) && AllStored(down, stored) && i < |down|
    ensures PutSub(stored[..i], down[i].name, Stored(down[i].tree)) == stored[..i + 1]
  {
    forall k | 0 <= k < i ensures NameBefore(stored[..i][k].name, down[i].name) {
      assert NameBefore(down[k].name, down[i].name) && stored[k] == StoredSub(down[k]);
    }
    PutLast(stored[..i], down[i].name, Stored(down[i].tree));
    assert stored[..i + 1] == stored[..i] + [stored[i]] && stored[i] == StoredSub(down[i]);
  }

  lemma {:induction false} NameOf(s: Sub, more: Text, buf: Text)
    requires NUL !in s.name && buf == Encode(s.tree, s.name) + more
    ensures buf[..IndexOf(buf, NUL)] == s.name
  {
    EncodeShape(s.tree, s.name, more);
    NameEnds(s.name, Header(s.tree) + (IdBytes(s.tree) + (EncodeFrom(s.tree.down, 0) + more)));
  }

  lemma {:induction false} ParseSubsStep(buf: Text, n: int, down: seq<Sub>, rawsz: nat, t: Tree, rest: Text, name: Text)
    requires n > 0 && Parse(buf, rawsz) == Node(t, rest) && buf[..IndexOf(buf, NUL)] == name
    ensures ParseSubs(buf, n, down, rawsz) == ParseSubs(rest, n - 1, PutSub(down, name, t), rawsz)
  {
  }

  lemma {:induction false} SortedOneMore(down: seq<Sub>, i: nat)
    requires i < |down| && DownSorted(down[..i])
    ensures DownSorted(down[..i + 1]) <==> i == 0 || NameBefore(down[i - 1].name, down[i].name)
  {
    var s, s' := down[..i], down[..i + 1];
    if i > 0 && NameBefore(down[i - 1].name, down[i].name) {
      forall j, k | 0 <= j < k < |s'| ensures NameBefore(s'[j].name, s'[k].name) {
        if k < i { assert NameBefore(s[j].name, s[k].name); }
        else if j < i - 1 {
          assert NameBefore(s[j].name, s[i - 1].name);
          NameBeforeTrans(down[j].name, down[i - 1].name, down[i].name);
        }
      }
    }
    if i > 0 && DownSorted(s') { assert NameBefore(s'[i - 1].name, s'[i].name); }
  }

  /** write_one: it stops at sub-trees out of order, and only there. */
  method WriteOne(buffer: Text, t: Tree, path: Text) returns (ok: bool, out: Text)
    ensures ok <==> Valid(t)
    ensures ok ==> out == buffer + Encode(t, path)
    decreases t, 1, 0
  {
    var start := buffer + path + [NUL] + Decimal(t.count) + [SPACE] + Decimal(|t.down|) + [NEWLINE];
    if t.count >= 0 {
      start := start + t.oid;
    }
    ok, out := WriteSubtrees(start, t.down);
    StartShape(buffer, t, path, start);
  }

  /** The first `n` sub-trees are in order on every level. */
  ghost predicate AllValid(down: seq<Sub>, n: nat) {
    n <= |down| && forall i :: 0 <= i < n ==> Valid(down[i].tree)
  }

  /** The loop of write_one over the sub-trees. */
  method WriteSubtrees(start: Text, down: seq<Sub>) returns (ok: bool, out: Text)
    ensures ok <==> DownSorted(down) && AllValid(down, |down|)
    ensures ok ==> out == start + EncodeFrom(down, 0)
    decreases down, 0, 1
  {
    out := start;
    for i := 0 to |down|
      invariant DownSorted(down[..i]) && AllValid(down, i)
      invariant out + EncodeFrom(down, i) == start + EncodeFrom(down, 0)
    {
      ok, out := WriteSubtree(start, out, down, i);
      if !ok {
        return;
      }
    }
    assert down[..|down|] == down && out + [] == out;
    ok := true;
  }

  method WriteSubtree(ghost start: Text, out: Text, down: seq<Sub>, i: nat) returns (ok: bool, out': Text)
    requires i < |down| && DownSorted(down[..i]) && out + EncodeFrom(down, i) == start + EncodeFrom(down, 0)
    ensures ok ==> DownSorted(down[..i + 1]) && Valid(down[i].tree)
    ensures !ok ==> !DownSorted(down) || !AllValid(down, |down|)
    ensures ok ==> out' + EncodeFrom(down, i + 1) == start + EncodeFrom(down, 0)
    decreases down, 0, 0
  {
    SortedOneMore(down, i);
    if i > 0 && !NameBefore(down[i - 1].name, down[i].name) {
      NotSorted(down, i);
      return false, out;
    }
    Assoc(out, Encode(down[i].tree, down[i].name), EncodeFrom(down, i + 1));
    ok, out' := WriteOne(out, down[i].tree, down[i].name);
  }

  lemma {:induction false} NotSorted(down: seq<Sub>, i: nat)
    requires 0 < i < |down| && !NameBefore(down[i - 1].name, down[i].name)
    ensures !DownSorted(down)
  {
  }

  lemma {:induction false} StartShape(buffer: Text, t: Tree, path: Text, start: Text)
    requires start == buffer + path + [NUL] + Decimal(t.count) + [SPACE] + Decimal(|t.down|) + [NEWLINE] +
             if t.count >= 0 then t.oid else []
    ensures start + EncodeFrom(t.down, 0) == buffer + Encode(t, path)
  {
    StartRegroup(buffer, path, [NUL], Decimal(t.count) + [SPACE] + Decimal(|t.down|) + [NEWLINE], IdBytes(t),
                 EncodeFrom(t.down, 0));
    assert start == buffer + path + [NUL] + (Decimal(t.count) + [SPACE] + Decimal(|t.down|) + [NEWLINE]) + IdBytes(t);
  }

  lemma {:induction false} StartRegroup(a: Text, b: Text, c: Text, d: Text, e: Text, f: Text)
    ensures ((a + b + c) + d + e) + f == a + (b + c + (d + (e + f)))
  {
    Assoc(a + b + c, d, e);
    Assoc(a + b + c, d + e, f);
    Assoc(d, e, f);
    Assoc(a, b, c);
    Assoc(a, b + c, d + (e + f));
  }

  /** cache_tree_sub keeps the order and does what `PutSub` says. */
  method AddSubtree(down: seq<Sub>, name: Text, t: Tree) returns (down': seq<Sub>)
    requires DownSorted(down)
    ensures down' == PutSub(down, name, t) && DownSorted(down')
  {
    var with, k := FindSubtree(down, name);
    down' := with[k := Sub(name, t)];
    SortedReplaced(with, k, t);
    FoundThere(down, with, k, name);
    PutThere(down, 0, k, name, t);
    assert down' == PutAt(down, k, name, t);
  }

  /** find_subtree finds the place of the name. */
  lemma {:induction false} FoundThere(down: seq<Sub>, with: seq<Sub>, k: nat, name: Text)
    requires DownSorted(with) && k < |with| && with[k].name == name && (HasSub(down, name) ==> with == down)
    requires !HasSub(down, name) ==> k <= |down| && with == down[..k] + [Sub(name, EmptyTree())] + down[k..]
    ensures PlaceOf(down, k, name) && (k < |down| && down[k].name == name <==> HasSub(down, name))
  {
    NameBeforeTotal(name, name);
    forall i | 0 <= i < k ensures i < |down| && NameBefore(down[i].name, name) {
      assert NameBefore(with[i].name, with[k].name);
    }
    if !HasSub(down, name) && k < |down| {
      assert with[k + 1] == down[k] && NameBefore(with[k].name, with[k + 1].name);
      NameBeforeTotal(name, down[k].name);
    }
  }

  // ---- what was read is in order ----

  /** A tree as it is read: in order on every level, fit to be written, and the same after it. */
  ghost predicate Readable(t: Tree, rawsz: nat) {
    Valid(t) && Writable(t, rawsz) && Stored(t) == t
  }

  ghost predicate SubReadable(sub: Sub, rawsz: nat) { NUL !in sub.name && Readable(sub.tree, rawsz) }

  ghost predicate EachReadable(down: seq<Sub>, rawsz: nat) {
    forall i {:trigger SubReadable(down[i], rawsz)} :: 0 <= i < |down| ==> SubReadable(down[i], rawsz)
  }

  ghost predicate AllReadable(down: seq<Sub>, rawsz: nat) { DownSorted(down) && EachReadable(down, rawsz) }

  lemma {:induction false} NodeReadable(count: int, oid: Text, down: seq<Sub>, rawsz: nat)
    requires AllReadable(down, rawsz) && |oid| == (if count >= 0 then rawsz else 0) && IsInt(count) && IsInt(|down|)
    ensures Readable(Tree(count, oid, down), rawsz)
  {
    forall i | 0 <= i < |down|
      ensures NUL !in down[i].name && Valid(down[i].tree)
      ensures Writable(down[i].tree, rawsz) && Stored(down[i].tree) == down[i].tree
    {
      assert SubReadable(down[i], rawsz);
    }
    assert Stored(Tree(count, oid, down)).down == down;
  }

  lemma {:induction false} PutSorted(down: seq<Sub>, k: nat, name: Text, t: Tree)
    requires DownSorted(down) && PlaceOf(down, k, name)
    ensures DownSorted(PutAt(down, k, name, t))
  {
    if k < |down| && down[k].name == name {
      SortedReplaced(down, k, t);
    } else {
      InsertSorted(down, name, t, k);
    }
  }

  lemma {:induction false} InsertSorted(down: seq<Sub>, name: Text, t: Tree, k: nat)
    requires DownSorted(down) && PlaceOf(down, k, name) && (k < |down| ==> down[k].name != name)
    ensures DownSorted(down[..k] + [Sub(name, t)] + down[k..])
  {
    forall i | k <= i < |down| ensures NameBefore(name, down[i].name) {
      NameBeforeTotal(name, down[k].name);
      if i > k {
        assert NameBefore(down[k].name, down[i].name);
        NameBeforeTrans(name, down[k].name, down[i].name);
      }
    }
    var put := down[..k] + [Sub(name, t)] + down[k..];
    forall i, j | 0 <= i < j < |put| ensures NameBefore(put[i].name, put[j].name) {
      if i != k && j != k {
        assert NameBefore(down[if i < k then i else i - 1].name, down[if j < k then j else j - 1].name);
      }
    }
  }

  lemma {:induction false} PutReadable(down: seq<Sub>, name: Text, t: Tree, rawsz: nat)
    requires AllReadable(down, rawsz) && NUL !in name && Readable(t, rawsz)
    ensures AllReadable(PutSub(down, name, t), rawsz)
  {
    var k := SomePlace(down, name, 0);
    PutThere(down, 0, k, name, t);
    PutSorted(down, k, name, t);
    PutAtReadable(down, k, name, t, rawsz);
  }

  lemma {:induction false} PutAtReadable(down: seq<Sub>, k: nat, name: Text, t: Tree, rawsz: nat)
    requires EachReadable(down, rawsz) && k <= |down| && NUL !in name && Readable(t, rawsz)
    ensures EachReadable(PutAt(down, k, name, t), rawsz)
  {
    var put := PutAt(down, k, name, t);
    forall i | 0 <= i < |put| ensures SubReadable(put[i], rawsz) {
      if put[i] != Sub(name, t) {
        var j := if |put| == |down| || i < k then i else i - 1;
        assert put[i] == down[j] && SubReadable(down[j], rawsz);
      }
    }
  }

  lemma {:induction false} NameReadable(buf: Text)
    ensures NUL !in buf[..IndexOf(buf, NUL)]
  {
    forall i | 0 <= i < IndexOf(buf, NUL) ensures buf[i] != NUL { NotBefore(buf, NUL, i); }
  }

  /** Whatever the bytes, a tree that is read is in order on every level: writing it does not die. */
  lemma {:induction false} ParseReadable(buf: Text, rawsz: nat, r: Parsed)
    requires r == Parse(buf, rawsz)
    ensures r.Node? ==> Readable(r.tree, rawsz)
    decreases |buf|, 0, 0
  {
    var n := IndexOf(buf, NUL);
    if n < |buf| { HeaderReadable(buf[n + 1..], rawsz, r); }
  }

  lemma {:induction false} HeaderReadable(b: Text, rawsz: nat, r: Parsed)
    requires r == ParseHeader(b, rawsz)
    ensures r.Node? ==> Readable(r.tree, rawsz)
    decreases |b|, 3, 0
  {
    var (count, ep) := ReadInt(b, 0);
    var (nr, ep2) := ReadInt(b, ep);
    var m := LineEnd(b, 0);
    if ep > 0 && ep2 > ep && m < |b| { ParsedNodeReadable(count, nr, b[m + 1..], rawsz, r); }
  }

  lemma {:induction false} ParsedNodeReadable(count: int, nr: int, b: Text, rawsz: nat, r: Parsed)
    requires r == ParseNode(count, nr, b, rawsz) && IsInt(count) && IsInt(nr)
    ensures r.Node? ==> Readable(r.tree, rawsz)
    decreases |b|, 2, 0
  {
    var skip := if count >= 0 then rawsz else 0;
    if skip <= |b| {
      var subs := ParseSubs(b[skip..], nr, [], rawsz);
      SubsReadable(b[skip..], nr, [], rawsz, subs);
      if subs.Subs? && nr == |subs.down| { NodeReadable(count, b[..skip], subs.down, rawsz); }
    }
  }

  lemma {:induction false} SubsReadable(buf: Text, n: int, down: seq<Sub>, rawsz: nat, r: ParsedSubs)
    requires AllReadable(down, rawsz) && r == ParseSubs(buf, n, down, rawsz)
    ensures r.Subs? ==> AllReadable(r.down, rawsz)
    decreases |buf|, 1, if n < 0 then 0 else n
  {
    if n > 0 {
      var sub := Parse(buf, rawsz);
      ParseReadable(buf, rawsz, sub);
      if sub.Node? {
        var name := buf[..IndexOf(buf, NUL)];
        NameReadable(buf);
        PutReadable(down, name, sub.tree, rawsz);
        ParseSubsStep(buf, n, down, rawsz, sub.tree, sub.rest, name);
        SubsReadable(sub.rest, n - 1, PutSub(down, name, sub.tree), rawsz, r);
      }
    }
  }

  /** What was read can be written, and reads back as the same tree. */
  lemma {:induction false} RereadWritten(buf: Text, name: Text, rest: Text, rawsz: nat)
    requires Parse(buf, rawsz).Node? && NUL !in name
    ensures var t := Parse(buf, rawsz).tree; Valid(t) && Parse(Encode(t, name) + rest, rawsz) == Node(t, rest)
  {
    ParseReadable(buf, rawsz, Parse(buf, rawsz));
    ReadWritten(Parse(buf, rawsz).tree, name, rest, rawsz);
  }

  /** read_one */
  method ReadOne(buf: Text, rawsz: nat) returns (r: Parsed)
    ensures r == Parse(buf, rawsz) && (r.Node? ==> Valid(r.tree))
    decreases |buf|, 0
  {
    var n := IndexOf(buf, NUL);
    if n == |buf| {
      return Malformed;
    }
    var b := buf[n + 1..];
    r := ReadHeader(b, rawsz);
    ParseAfterName(buf, n, b, rawsz, r);
    ParseReadable(buf, rawsz, r);
  }

  lemma {:induction false} ParseAfterName(buf: Text, n: nat, b: Text, rawsz: nat, r: Parsed)
    requires n == IndexOf(buf, NUL) < |buf| && b == buf[n + 1..] && r == ParseHeader(b, rawsz)
    ensures r == Parse(buf, rawsz)
  {
  }

  method ReadHeader(b: Text, rawsz: nat) returns (r: Parsed)
    ensures r == ParseHeader(b, rawsz)
    decreases |b|, 4
  {
    var (count, ep) := ReadInt(b, 0);
    if ep == 0 {
      return Malformed;
    }
    var (nr, ep2) := ReadInt(b, ep);
    if ep2 == ep {
      return Malformed;
    }
    var m := LineEnd(b, 0);
    if m == |b| {
      return Malformed;
    }
    r := ReadNode(count, nr, b[m + 1..], rawsz);
  }

  /** After the header line: the id of a valid node, and the sub-trees. */
  method ReadNode(count: int, nr: int, b: Text, rawsz: nat) returns (r: Parsed)
    ensures r == ParseNode(count, nr, b, rawsz)
    decreases |b|, 3
  {
    var skip := if count >= 0 then rawsz else 0;
    if |b| < skip {
      return Malformed;
    }
    var subs := ReadSubtrees(b[skip..], nr, rawsz);
    match subs
    case NoSubs => r := Malformed;
    case SubDied => r := Died;
    case Subs(down, rest) => r := if nr != |down| then Died else Node(Tree(count, b[..skip], down), rest);
  }

  lemma {:induction false} ParseSubsStop(buf: Text, n: int, down: seq<Sub>, rawsz: nat)
    requires n > 0 && !Parse(buf, rawsz).Node?
    ensures ParseSubs(buf, n, down, rawsz) == if Parse(buf, rawsz).Died? then SubDied else NoSubs
  {
  }

  /** One turn of the loop of read_one over the sub-trees. */
  method ReadSubtree(rest: Text, ghost n: int, down: seq<Sub>, rawsz: nat) returns (sub: Parsed, down': seq<Sub>)
    requires n > 0 && DownSorted(down)
    ensures sub.Node? ==> |sub.rest| < |rest| && DownSorted(down')
    ensures sub.Node? ==> ParseSubs(rest, n, down, rawsz) == ParseSubs(sub.rest, n - 1, down', rawsz)
    ensures !sub.Node? ==> ParseSubs(rest, n, down, rawsz) == if sub.Died? then SubDied else NoSubs
    decreases |rest|, 1
  {
    var name := rest[..IndexOf(rest, NUL)];
    down' := down;
    sub := ReadOne(rest, rawsz);
    if sub.Node? {
      ParseSubsStep(rest, n, down, rawsz, sub.tree, sub.rest, name);
      down' := AddSubtree(down, name, sub.tree);
    } else {
      ParseSubsStop(rest, n, down, rawsz);
    }
  }

  /** The loop of read_one over the sub-trees; what it builds is in order. */
  method ReadSubtrees(b: Text, nr: int, rawsz: nat) returns (r: ParsedSubs)
    ensures r == ParseSubs(b, nr, [], rawsz)
    ensures r.Subs? ==> AllReadable(r.down, rawsz)
    decreases |b|, 2
  {
    var i, down, rest := 0, [], b;
    ghost var left, goal := nr, ParseSubs(b, nr, [], rawsz);
    SubsReadable(b, nr, [], rawsz, goal);
    while i < nr
      invariant left == nr - i && (i <= nr || i == 0)
      invariant DownSorted(down) && |rest| <= |b| && ParseSubs(rest, left, down, rawsz) == goal
      decreases nr - i
    {
      var sub;
      sub, down := ReadSubtree(rest, left, down, rawsz);
      if !sub.Node? {
        return if sub.Died? then SubDied else NoSubs;
      }
      rest, i, left := sub.rest, i + 1, left - 1;
    }
    r := Subs(down, rest);
  }
}
