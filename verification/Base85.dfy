/** Base-85 armour of binary patches (encode_85, decode_85). */
module Base85 {
  import opened Bytes
  import opened Options

  /** The alphabet: digits, upper case, lower case, punctuation. */
  const PUNCTUATION: Text := [33, 35, 36, 37, 38, 40, 41, 42, 43, 45, 59, 60, 61, 62, 63, 64, 94, 95, 96, 123, 124,
    125, 126]

  function En85(v: int): Byte
    requires 0 <= v < 85
  {
    if v < 10 then 48 + v else if v < 36 then 65 + (v - 10) else if v < 62 then 97 + (v - 36) else PUNCTUATION[v - 62]
  }

  const DIGITS := "0123456789"
  const UPPER := "ABCDEFGHIJKLMNOPQRSTUVWXYZ"
  const LOWER := "abcdefghijklmnopqrstuvwxyz"
  const SIGNS := "!#$%&()*+-;<=>?@^_`{|}~"

  const ALPHABET := DIGITS + UPPER + LOWER + SIGNS

  lemma {:induction false} DigitsInOrder(i: nat)
    requires i < 10
    ensures |DIGITS| == 10 && DIGITS[i] as int == 48 + i
  {
  }

  lemma {:induction false} UpperInOrder(i: nat)
    requires i < 26
    ensures |UPPER| == 26 && UPPER[i] as int == 65 + i
  {
  }

  lemma {:induction false} LowerInOrder(i: nat)
    requires i < 26
    ensures |LOWER| == 26 && LOWER[i] as int == 97 + i
  {
  }

  lemma {:induction false} SignsInOrder(i: nat)
    requires i < 23
    ensures |SIGNS| == 23 && SIGNS[i] as int == PUNCTUATION[i]
  {
  }

  /** The digits are the letters of the alphabet, in order. */
  lemma {:induction false} En85IsAlphabet(v: int)
    requires 0 <= v < 85
    ensures |ALPHABET| == 85 && En85(v) == ALPHABET[v] as int
  {
    DigitsInOrder(if v < 10 then v else 0);
    UpperInOrder(if 10 <= v < 36 then v - 10 else 0);
    LowerInOrder(if 36 <= v < 62 then v - 36 else 0);
    SignsInOrder(if 62 <= v then v - 62 else 0);
  }

  /** The digit that a byte stands for, or -1. */
  function Digit(ch: Byte): (v: int)
    ensures -1 <= v < 85
  {
    if 48 <= ch <= 57 then ch - 48
    else if 65 <= ch <= 90 then ch - 55
    else if 97 <= ch <= 122 then ch - 61
    else if ch == 33 then 62
    else if 35 <= ch <= 38 then ch + 28
    else if 40 <= ch <= 43 then ch + 27
    else if ch == 45 then 71
    else if 59 <= ch <= 64 then ch + 13
    else if 94 <= ch <= 96 then ch - 16
    else if 123 <= ch <= 126 then ch - 42
    else -1
  }

  lemma {:induction false} DigitInverts(v: int, ch: Byte)
    ensures 0 <= v < 85 ==> Digit(En85(v)) == v
    ensures Digit(ch) >= 0 ==> En85(Digit(ch)) == ch
  {
  }

  /** prep_base85: the table from bytes to digits plus one. */
  method PrepBase85() returns (table: seq<int>)
    ensures |table| == 256 && forall ch: Byte :: table[ch] == Digit(ch) + 1
  {
    var de85 := new int[256](_ => 0);
    for i := 0 to 85
      invariant forall ch: Byte {:trigger Digit(ch)} :: de85[ch] == if Digit(ch) < i then Digit(ch) + 1 else 0
    {
      DigitInverts(i, En85(i));
      forall ch: Byte ensures Digit(ch) == i ==> ch == En85(i) { DigitInverts(i, ch); }
      de85[En85(i)] := i + 1;
    }
    forall ch: Byte ensures de85[..][ch] == Digit(ch) + 1 { assert Digit(ch) < 85; }
    table := de85[..];
  }

  const WORD := 0x1_0000_0000

  /** Four bytes, most significant first. */
  function Pack(a: int, b: int, c: int, d: int): int { ((a * 256 + b) * 256 + c) * 256 + d }

  /** Up to four bytes; missing ones are zero. */
  function Word(data: Text): int {
    var b := data + [0, 0, 0, 0];
    Pack(b[0], b[1], b[2], b[3])
  }

  /** `w` divided by 256 `k` times. */
  function Upper(w: int, k: nat): int {
    if k == 0 then w else Upper(w, k - 1) / 256
  }

  /** Byte `i` of a word, most significant first. */
  function ByteAt(w: int, i: nat): Byte
    requires i < 4
  {
    Upper(w, 3 - i) % 256
  }

  function WordBytes(w: int): (r: Text)
    ensures |r| == 4
  {
    seq(4, i requires 0 <= i < 4 => ByteAt(w, i))
  }

  lemma {:induction false} Divide256(x: int, d: int)
    requires 0 <= d < 256
    ensures (x * 256 + d) / 256 == x && (x * 256 + d) % 256 == d
  {
  }

  lemma {:induction false} BytesOfWord(a: Byte, b: Byte, c: Byte, d: Byte)
    ensures 0 <= Pack(a, b, c, d) < WORD && WordBytes(Pack(a, b, c, d)) == [a, b, c, d]
  {
    var w := Pack(a, b, c, d);
    Divide256((a * 256 + b) * 256 + c, d);
    Divide256(a * 256 + b, c);
    Divide256(a, b);
    assert Upper(w, 0) == w && Upper(w, 1) == Upper(w, 0) / 256;
    assert Upper(w, 2) == Upper(w, 1) / 256 && Upper(w, 3) == Upper(w, 2) / 256;
    assert ByteAt(w, 0) == a && ByteAt(w, 1) == b && ByteAt(w, 2) == c && ByteAt(w, 3) == d;
  }

  /** The bytes of a word make it up. */
  lemma {:induction false} WordIsItsBytes(w: int)
    requires 0 <= w < WORD
    ensures var b := WordBytes(w); w == Pack(b[0], b[1], b[2], b[3])
  {
    assert Upper(w, 0) == w && Upper(w, 1) == Upper(w, 0) / 256;
    assert Upper(w, 2) == Upper(w, 1) / 256 && Upper(w, 3) == Upper(w, 2) / 256;
  }

  lemma {:induction false} WordOfBytes(data: Text)
    requires 0 < |data| <= 4
    ensures 0 <= Word(data) < WORD && WordBytes(Word(data))[..|data|] == data
  {
    var b := data + [0, 0, 0, 0];
    BytesOfWord(b[0], b[1], b[2], b[3]);
  }

  /** The value of five digits. */
  function Value5(a: int, b: int, c: int, d: int, e: int): int { (((a * 85 + b) * 85 + c) * 85 + d) * 85 + e }

  /** `w` divided by 85 `k` times. */
  function Quotient(w: int, k: nat): int {
    if k == 0 then w else Quotient(w, k - 1) / 85
  }

  /** Digit `i` of a word, most significant first. */
  function DigitAt(w: int, i: nat): (d: int)
    requires i < 5
    ensures 0 <= d < 85
  {
    Quotient(w, 4 - i) % 85
  }

  lemma {:induction false} Quotients(w: int)
    ensures Quotient(w, 0) == w && Quotient(w, 1) == w / 85 && Quotient(w, 2) == w / 85 / 85
    ensures Quotient(w, 3) == w / 85 / 85 / 85 && Quotient(w, 4) == w / 85 / 85 / 85 / 85
  {
    assert Quotient(w, 1) == Quotient(w, 0) / 85 && Quotient(w, 2) == Quotient(w, 1) / 85;
    assert Quotient(w, 3) == Quotient(w, 2) / 85 && Quotient(w, 4) == Quotient(w, 3) / 85;
  }

  lemma {:induction false} DigitsOfWord(w: int)
    requires 0 <= w < WORD
    ensures Value5(DigitAt(w, 0), DigitAt(w, 1), DigitAt(w, 2), DigitAt(w, 3), DigitAt(w, 4)) == w
  {
    Quotients(w);
  }

  /** A group of five characters that stands for a word. */
  function EncodeGroup(w: int): (g: Text)
    ensures |g| == 5
  {
    seq(5, i requires 0 <= i < 5 => En85(DigitAt(w, i)))
  }

  function Front(data: Text): Text { if |data| < 4 then data else data[..4] }

  /** What encode_85 writes. */
  function Encoded(data: Text): Text {
    if data == [] then []
    else EncodeGroup(Word(Front(data))) + Encoded(data[|Front(data)|..])
  }

  /** The word of a group: all characters in the alphabet and the value within 32 bits. */
  function DecodeGroup(g: Text): Option<int>
    requires |g| == 5
  {
    var v := Value5(Digit(g[0]), Digit(g[1]), Digit(g[2]), Digit(g[3]), Digit(g[4]));
    if (forall i :: 0 <= i < 5 ==> Digit(g[i]) >= 0) && v < WORD then Some(v) else None
  }

  /** The bytes of the first group of `len` bytes. */
  function Part(len: nat): nat { if len < 4 then len else 4 }

  /** How many characters stand for `len` bytes. */
  function Room(len: nat): nat {
    if len == 0 then 0 else 5 + Room(len - Part(len))
  }

  /** Five for every four bytes, the last group padded. */
  lemma {:induction false} RoomIs(len: nat)
    ensures Room(len) == (len + 3) / 4 * 5
  {
    if len > 0 {
      RoomIs(len - Part(len));
      assert (len + 3) / 4 == 1 + (len - Part(len) + 3) / 4;
    }
  }

  /** What decode_85 makes of the characters for `len` bytes. */
  function Decoded(buffer: Text, len: nat): Option<Text>
    requires |buffer| >= Room(len)
    decreases len
  {
    if len == 0 then Some([])
    else
      var n := Part(len);
      match DecodeGroup(buffer[..5])
      case None => None
      case Some(w) =>
        match Decoded(buffer[5..], len - n)
        case None => None
        case Some(rest) => Some(WordBytes(w)[..n] + rest)
  }

  lemma {:induction false} GroupRoundTrip(w: int)
    requires 0 <= w < WORD
    ensures DecodeGroup(EncodeGroup(w)) == Some(w)
  {
    var g := EncodeGroup(w);
    forall i | 0 <= i < 5 ensures Digit(g[i]) == DigitAt(w, i) { DigitInverts(DigitAt(w, i), 0); }
    DigitsOfWord(w);
  }

  lemma {:induction false} EncodedLength(data: Text)
    ensures |Encoded(data)| == Room(|data|)
  {
    if data != [] {
      var rest := data[|Front(data)|..];
      EncodedLength(rest);
    }
  }

  /** The first group of an encoding stands for the first word, whose bytes are those in front. */
  lemma {:induction false} FirstGroup(data: Text, e: Text) returns (w: int, rest: Text)
    requires data != [] && e == Encoded(data)
    ensures |e| >= 5 && e[5..] == Encoded(rest) && DecodeGroup(e[..5]) == Some(w)
    ensures var n := |Front(data)|; |rest| == |data| - n && WordBytes(w)[..n] + rest == data
  {
    var f := Front(data);
    WordOfBytes(f);
    w, rest := Word(f), data[|f|..];
    GroupRoundTrip(w);
    FirstFive(e, EncodeGroup(w), Encoded(rest));
    assert f + rest == data;
  }

  lemma {:induction false} FirstFive(e: Text, group: Text, rest: Text)
    requires |group| == 5 && e == group + rest
    ensures e[..5] == group && e[5..] == rest
  {
  }

  /** Decoding gives back every byte string. */
  lemma {:induction false} RoundTrip(data: Text)
    ensures |Encoded(data)| >= Room(|data|) && Decoded(Encoded(data), |data|) == Some(data)
    decreases |data|
  {
    EncodedLength(data);
    if data != [] {
      var e := Encoded(data);
      var w, rest := FirstGroup(data, e);
      RoundTrip(rest);
      DecodedGroup(e, |data|, |data| - |rest|, w, rest);
    }
  }

  lemma {:induction false} DecodedGroup(buffer: Text, len: nat, n: nat, w: int, rest: Text)
    requires len > 0 && |buffer| >= Room(len) && n == Part(len)
    requires DecodeGroup(buffer[..5]) == Some(w)
    requires |buffer[5..]| >= Room(len - n) && Decoded(buffer[5..], len - n) == Some(rest)
    ensures Decoded(buffer, len) == Some(WordBytes(w)[..n] + rest)
  {
  }

  /** What follows the groups does not matter. */
  lemma {:induction false} DecodedPrefix(buffer: Text, more: Text, len: nat)
    requires |buffer| >= Room(len)
    ensures Decoded(buffer + more, len) == Decoded(buffer, len)
    decreases len
  {
    if len > 0 {
      assert (buffer + more)[..5] == buffer[..5] && (buffer + more)[5..] == buffer[5..] + more;
      DecodedPrefix(buffer[5..], more, len - Part(len));
    }
  }

  // ---- what is accepted ----

  lemma {:induction false} Divide85(x: int, d: int)
    requires 0 <= d < 85
    ensures (x * 85 + d) / 85 == x && (x * 85 + d) % 85 == d
  {
  }

  lemma {:induction false} DigitsOfValue(a: int, b: int, c: int, d: int, e: int, w: int)
    requires 0 <= a < 85 && 0 <= b < 85 && 0 <= c < 85 && 0 <= d < 85 && 0 <= e < 85 && w == Value5(a, b, c, d, e)
    ensures DigitAt(w, 0) == a && DigitAt(w, 1) == b && DigitAt(w, 2) == c && DigitAt(w, 3) == d && DigitAt(w, 4) == e
  {
    Quotients(w);
    Divide85(((a * 85 + b) * 85 + c) * 85 + d, e);
    Divide85((a * 85 + b) * 85 + c, d);
    Divide85(a * 85 + b, c);
    Divide85(a, b);
  }

  /** A group that is accepted is the one its word is written as. */
  lemma {:induction false} GroupAccepted(g: Text, w: int)
    requires |g| == 5 && DecodeGroup(g) == Some(w)
    ensures 0 <= w < WORD && EncodeGroup(w) == g
  {
    WordDecoded(g);
    forall i | 0 <= i < 5 ensures 0 <= Digit(g[i]) < 85 && En85(Digit(g[i])) == g[i] { DigitInverts(0, g[i]); }
    DigitsOfValue(Digit(g[0]), Digit(g[1]), Digit(g[2]), Digit(g[3]), Digit(g[4]), w);
    assert EncodeGroup(w) == [g[0], g[1], g[2], g[3], g[4]];
  }

  /** Only zeros in the bytes of `w` from the n-th on. */
  ghost predicate ZeroFrom(w: int, n: nat) {
    forall k :: n <= k < 4 ==> WordBytes(w)[k] == 0
  }

  /** Bytes cut off a word are put back as zeros. */
  lemma {:induction false} CutWord(w: int, n: nat)
    requires 0 <= w < WORD && 0 < n <= 4
    ensures Word(WordBytes(w)[..n]) == w <==> ZeroFrom(w, n)
  {
    var b := WordBytes(w);
    WordIsItsBytes(w);
    var c := b[..n] + [0, 0, 0, 0];
    BytesOfWord(c[0], c[1], c[2], c[3]);
    assert forall k :: 0 <= k < 4 ==> c[k] == if k < n then b[k] else 0;
  }

  /** If the group stands for a word, its bytes from the n-th on are zero. */
  ghost predicate ZeroGroup(g: Text, n: nat) {
    |g| == 5 ==> match DecodeGroup(g) case None => true case Some(w) => ZeroFrom(w, n)
  }

  function Last(buffer: Text): Text
    requires |buffer| >= 5
  {
    buffer[|buffer| - 5..]
  }

  /** How many bytes of the last group are meant. */
  function LastPart(len: nat): nat { if len <= 4 then len else LastPart(len - 4) }

  lemma {:induction false} LastPartIs(len: nat)
    ensures LastPart(len) == if len > 0 && len % 4 == 0 then 4 else len % 4
  {
    if len > 4 {
      LastPartIs(len - 4);
      assert len % 4 == (len - 4) % 4;
    }
  }

  /** The filler in the last group is zero. */
  ghost predicate ZeroFiller(buffer: Text, len: nat) {
    len > 0 && |buffer| >= 5 ==> ZeroGroup(Last(buffer), LastPart(len))
  }

  /** What decode_85 accepts, it gives `len` bytes for; and it is what encode_85 writes for them
      exactly if the filler is zero. */
  lemma {:induction false} DecodedIsEncoding(buffer: Text, len: nat, data: Text)
    requires |buffer| == Room(len) && Decoded(buffer, len) == Some(data)
    ensures |data| == len && (Encoded(data) == buffer <==> ZeroFiller(buffer, len))
    decreases len
  {
    if len > 0 {
      LastGroup(buffer, len);
      var n, w, rest := DecodedParts(buffer, len, data);
      DecodedIsEncoding(buffer[5..], len - n, rest);
      EncodedFirst(buffer, n, w, rest, data);
    }
  }

  /** So nothing but encodings is accepted for a multiple of four bytes. */
  lemma {:induction false} WholeGroupsUnique(buffer: Text, len: nat, data: Text)
    requires len % 4 == 0 && |buffer| == Room(len) && Decoded(buffer, len) == Some(data)
    ensures Encoded(data) == buffer
  {
    DecodedIsEncoding(buffer, len, data);
    LastPartIs(len);
  }

  /** Filler that is not zero is accepted all the same. */
  lemma {:induction false} FillerIgnored()
    ensures Decoded(EncodeGroup(1), 1) == Some([0]) && Encoded([0]) != EncodeGroup(1)
  {
    var g := EncodeGroup(1);
    GroupRoundTrip(1);
    BytesOfWord(0, 0, 0, 1);
    assert g[..5] == g && |g| == Room(1) && Decoded(g[5..], 0) == Some([]);
    assert WordBytes(1)[..1] + [] == [0];
    DecodedIsEncoding(g, 1, [0]);
    assert Last(g) == g && LastPart(1) == 1 && WordBytes(1)[3] == 1;
  }

  /** The first group and the rest. */
  lemma {:induction false} DecodedParts(buffer: Text, len: nat, data: Text) returns (n: nat, w: int, rest: Text)
    requires len > 0 && |buffer| == Room(len) && Decoded(buffer, len) == Some(data)
    ensures n == Part(len) && |buffer[5..]| == Room(len - n)
    ensures Decoded(buffer[5..], len - n) == Some(rest) && data == WordBytes(w)[..n] + rest
    ensures 0 <= w < WORD && EncodeGroup(w) == buffer[..5] && (ZeroGroup(buffer[..5], n) <==> ZeroFrom(w, n))
  {
    n := Part(len);
    w, rest := DecodeGroup(buffer[..5]).value, Decoded(buffer[5..], len - n).value;
    GroupAccepted(buffer[..5], w);
  }

  lemma {:induction false} EncodedFirst(buffer: Text, n: nat, w: int, rest: Text, data: Text)
    requires |buffer| >= 5 && 0 < n <= 4 && (n < 4 ==> rest == [])
    requires 0 <= w < WORD && EncodeGroup(w) == buffer[..5] && data == WordBytes(w)[..n] + rest
    ensures Encoded(data) == buffer <==> ZeroFrom(w, n) && Encoded(rest) == buffer[5..]
  {
    var f := WordBytes(w)[..n];
    assert Front(data) == f && data[|f|..] == rest;
    WordOfBytes(f);
    CutWord(w, n);
    GroupRoundTrip(w);
    GroupRoundTrip(Word(f));
    SameHalves(EncodeGroup(Word(f)), Encoded(rest), buffer);
  }

  lemma {:induction false} SameHalves(group: Text, more: Text, buffer: Text)
    requires |group| == 5 && |buffer| >= 5
    ensures group + more == buffer <==> group == buffer[..5] && more == buffer[5..]
  {
    assert buffer == buffer[..5] + buffer[5..];
    assert (group + more)[..5] == group && (group + more)[5..] == more;
  }

  /** The last group of the rest is that of the whole. */
  lemma {:induction false} LastGroup(buffer: Text, len: nat)
    requires len > 0 && |buffer| == Room(len)
    ensures |buffer| >= 5 && |buffer[5..]| == Room(len - Part(len)) && (len > 4 ==> |buffer[5..]| >= 5)
    ensures Last(buffer) == if len <= 4 then buffer[..5] else Last(buffer[5..])
    ensures LastPart(len) == if len <= 4 then len else LastPart(len - 4)
  {
  }

  /** encode_85 */
  method Encode85(data: Text) returns (buf: Text)
    ensures buf == Encoded(data)
  {
    buf := [];
    var rest := data;
    while rest != []
      invariant buf + Encoded(rest) == Encoded(data)
      decreases |rest|
    {
      var group, left := EncodeNext(rest);
      Regroup(buf, group, Encoded(left));
      buf, rest := buf + group, left;
    }
  }

  lemma {:induction false} Regroup(s: Text, t: Text, u: Text)
    ensures (s + t) + u == s + (t + u)
  {
  }

  /** One word and its group. */
  method EncodeNext(data: Text) returns (group: Text, rest: Text)
    requires data != []
    ensures Encoded(data) == group + Encoded(rest) && |rest| < |data|
  {
    var acc;
    acc, rest := TakeWord(data);
    WordOfBytes(Front(data));
    group := PutDigits(acc);
  }

  /** The bytes of the next word, shifted into place; the bits do not overlap, so or-ing adds. */
  method TakeWord(data: Text) returns (acc: int, rest: Text)
    requires data != []
    ensures acc == Word(Front(data)) && rest == data[|Front(data)|..]
  {
    var i := 0;
    acc := 0;
    while i < 4 && i < |data|
      invariant 0 <= i <= 4 && i <= |data| && acc == PackedTo(data, i)
    {
      acc := acc + ShiftedTo(data[i], i);
      i := i + 1;
    }
    PackedWord(data, i);
    rest := data[i..];
  }

  /** The first `i` bytes, shifted into place. */
  function PackedTo(data: Text, i: nat): int
    requires i <= |data|
  {
    if i == 0 then 0 else PackedTo(data, i - 1) + ShiftedTo(data[i - 1], i - 1)
  }

  lemma {:induction false} PackedWord(data: Text, n: nat)
    requires 0 < |data| && n == |Front(data)|
    ensures PackedTo(data, n) == Word(Front(data))
  {
    var b := Front(data) + [0, 0, 0, 0];
    assert PackedTo(data, 1) == PackedTo(data, 0) + ShiftedTo(data[0], 0) && b[0] == data[0];
    if n > 1 { assert PackedTo(data, 2) == PackedTo(data, 1) + ShiftedTo(data[1], 1) && b[1] == data[1]; }
    if n > 2 { assert PackedTo(data, 3) == PackedTo(data, 2) + ShiftedTo(data[2], 2) && b[2] == data[2]; }
    if n > 3 { assert PackedTo(data, 4) == PackedTo(data, 3) + ShiftedTo(data[3], 3) && b[3] == data[3]; }
  }

  /** ch << (24 - 8 * i) */
  function ShiftedTo(ch: int, i: int): int {
    if i == 0 then ch * 0x100_0000 else if i == 1 then ch * 0x1_0000 else if i == 2 then ch * 0x100 else ch
  }

  /** The digits of a word, from the last to the first. */
  method PutDigits(w: int) returns (group: Text)
    ensures group == EncodeGroup(w)
  {
    var acc := w;
    group := [];
    for cnt := 5 downto 0
      invariant group == EncodeGroup(w)[cnt..] && acc == Quotient(w, 5 - cnt)
    {
      group := [En85(acc % 85)] + group;
      assert EncodeGroup(w)[cnt..] == [EncodeGroup(w)[cnt]] + EncodeGroup(w)[cnt + 1..];
      acc := acc / 85;
    }
  }

  /** Four digits never overflow, and the test before the fifth is exact. */
  lemma {:induction false} NoOverflow(a: int, b: int, c: int, d: int, e: int)
    requires 0 <= a < 85 && 0 <= b < 85 && 0 <= c < 85 && 0 <= d < 85 && 0 <= e < 85
    ensures var acc := ((a * 85 + b) * 85 + c) * 85 + d;
            && acc < WORD
            && (acc <= (WORD - 1) / 85 ==> acc * 85 < WORD)
            && (acc <= (WORD - 1) / 85 && acc * 85 <= WORD - 1 - e <==> Value5(a, b, c, d, e) < WORD)
  {
  }

  /** The value of the first `i` characters. */
  function Acc(g: Text, i: nat): int
    requires i <= |g|
  {
    if i == 0 then 0 else Acc(g, i - 1) * 85 + Digit(g[i - 1])
  }

  lemma {:induction false} AccSmall(g: Text, i: nat)
    requires i <= 3 && i < |g| && forall k :: 0 <= k <= i ==> Digit(g[k]) >= 0
    ensures 0 <= Acc(g, i) * 85 + Digit(g[i]) < WORD
  {
    if i > 0 {
      AccSmall(g, i - 1);
      if i > 1 {
        AccSmall(g, i - 2);
        if i > 2 { AccSmall(g, i - 3); }
      }
    }
  }

  lemma {:induction false} AccFour(g: Text)
    requires |g| == 5
    ensures Acc(g, 4) == ((Digit(g[0]) * 85 + Digit(g[1])) * 85 + Digit(g[2])) * 85 + Digit(g[3])
  {
    assert Acc(g, 4) == Acc(g, 3) * 85 + Digit(g[3]) && Acc(g, 3) == Acc(g, 2) * 85 + Digit(g[2]);
    assert Acc(g, 2) == Acc(g, 1) * 85 + Digit(g[1]) && Acc(g, 1) == Acc(g, 0) * 85 + Digit(g[0]);
  }

  ghost predicate IsTable(de85: seq<int>) {
    |de85| == 256 && forall ch: Byte :: de85[ch] == Digit(ch) + 1
  }

  /** decode_85 for one group, in 32-bit arithmetic that is seen never to wrap around. */
  method TakeGroup(de85: seq<int>, g: Text) returns (r: Option<int>)
    requires |g| == 5 && IsTable(de85)
    ensures r == DecodeGroup(g)
  {
    var acc := 0;
    for i := 0 to 4
      invariant (forall k :: 0 <= k < i ==> Digit(g[k]) >= 0) && acc == Acc(g, i)
    {
      var de := de85[g[i]] - 1;
      if de < 0 {
        return None;
      }
      AccSmall(g, i);
      acc := (acc * 85 + de) % WORD;
    }
    AccFour(g);
    DecodeGroupMeans(g, acc, Digit(g[4]));
    r := LastDigit(acc, de85[g[4]] - 1);
  }

  /** The fifth digit. */
  method LastDigit(acc0: int, de: int) returns (r: Option<int>)
    requires 0 <= acc0 < WORD && -1 <= de < 85
    ensures r == if de >= 0 && acc0 <= (WORD - 1) / 85 && acc0 * 85 <= WORD - 1 - de then Some(acc0 * 85 + de) else None
  {
    if de < 0 {
      return None;
    }
    if (WORD - 1) / 85 < acc0 {
      return None;
    }
    var acc := acc0 * 85 % WORD;
    if WORD - 1 - de < acc {
      return None;
    }
    r := Some((acc + de) % WORD);
  }

  lemma {:induction false} DecodeGroupMeans(g: Text, acc: int, de: int)
    requires |g| == 5 && de == Digit(g[4]) && forall k :: 0 <= k < 4 ==> Digit(g[k]) >= 0
    requires acc == ((Digit(g[0]) * 85 + Digit(g[1])) * 85 + Digit(g[2])) * 85 + Digit(g[3])
    ensures 0 <= acc < WORD
    ensures DecodeGroup(g) == if de >= 0 && acc <= (WORD - 1) / 85 && acc * 85 <= WORD - 1 - de
            then Some(acc * 85 + de) else None
  {
    NoOverflow(Digit(g[0]), Digit(g[1]), Digit(g[2]), Digit(g[3]), 0);
    if de >= 0 {
      NoOverflow(Digit(g[0]), Digit(g[1]), Digit(g[2]), Digit(g[3]), de);
      assert forall k :: 0 <= k < 5 ==> Digit(g[k]) >= 0;
    }
  }

  /** The first `cnt` bytes of a word, rotated out of it. */
  method PutBytes(w: int, cnt: nat) returns (bytes: Text)
    requires 0 <= w < WORD && 0 < cnt <= 4
    ensures bytes == WordBytes(w)[..cnt]
  {
    var acc := w;
    bytes := [];
    for i := 0 to cnt
      invariant |bytes| == i && bytes == WordBytes(w)[..i] && 0 <= acc < WORD
      invariant acc == Rotated(w, i)
    {
      RotateStep(w, i);
      acc := acc * 256 % WORD + acc / 0x100_0000;
      bytes := bytes + [acc % 256];
    }
  }

  /** A word rotated left by `i` bytes. */
  function Rotated(w: int, i: nat): int
    requires i <= 4
  {
    var b := WordBytes(w);
    if i == 0 || i == 4 then Pack(b[0], b[1], b[2], b[3]) else if i == 1 then Pack(b[1], b[2], b[3], b[0])
    else if i == 2 then Pack(b[2], b[3], b[0], b[1]) else Pack(b[3], b[0], b[1], b[2])
  }

  lemma {:induction false} RotatePack(a: int, b: int, c: int, d: int)
    requires 0 <= a < 256 && 0 <= b < 256 && 0 <= c < 256 && 0 <= d < 256
    ensures Pack(a, b, c, d) * 256 % WORD + Pack(a, b, c, d) / 0x100_0000 == Pack(b, c, d, a)
    ensures Pack(b, c, d, a) % 256 == a && 0 <= Pack(a, b, c, d) < WORD
  {
    var low := Pack(0, b, c, d);
    assert Pack(a, b, c, d) == a * 0x100_0000 + low && 0 <= low < 0x100_0000;
    TopByte(a, low);
    assert low * 256 + a == Pack(b, c, d, a);
  }

  lemma {:induction false} TopByte(a: int, low: int)
    requires 0 <= a < 256 && 0 <= low < 0x100_0000
    ensures (a * 0x100_0000 + low) * 256 % WORD == low * 256 && (a * 0x100_0000 + low) / 0x100_0000 == a
  {
    assert (a * 0x100_0000 + low) * 256 == a * WORD + low * 256;
  }

  lemma {:induction false} RotateStep(w: int, i: nat)
    requires i < 4
    ensures Rotated(w, i) * 256 % WORD + Rotated(w, i) / 0x100_0000 == Rotated(w, i + 1)
    ensures Rotated(w, i + 1) % 256 == WordBytes(w)[i] && 0 <= Rotated(w, i + 1) < WORD
  {
    var b := WordBytes(w);
    RotatePack(b[0], b[1], b[2], b[3]);
    RotatePack(b[1], b[2], b[3], b[0]);
    RotatePack(b[2], b[3], b[0], b[1]);
    RotatePack(b[3], b[0], b[1], b[2]);
  }

  /** decode_85 */
  method Decode85(buffer: Text, len: nat) returns (r: Option<Text>)
    requires |buffer| >= Room(len)
    ensures r == Decoded(buffer, len)
  {
    var de85 := PrepBase85();
    var dst, rest, left: nat := [], buffer, len;
    ghost var goal := Decoded(buffer, len);
    assert goal.Some? ==> [] + goal.value == goal.value;
    while left > 0
      invariant |rest| >= Room(left) && Continues(goal, dst, Decoded(rest, left))
      decreases left
    {
      var cnt := Part(left);
      var bytes := DecodeNext(de85, rest, left, cnt, dst, goal);
      if bytes.None? {
        return None;
      }
      dst, rest, left := dst + bytes.value, rest[5..], left - cnt;
    }
    assert dst + [] == dst;
    r := Some(dst);
  }

  /** The bytes of one group, if it is one. */
  method DecodeNext(de85: seq<int>, buffer: Text, left: nat, cnt: nat, ghost dst: Text, ghost goal: Option<Text>)
    returns (bytes: Option<Text>)
    requires IsTable(de85) && left > 0 && cnt == Part(left) && |buffer| >= Room(left)
    requires Continues(goal, dst, Decoded(buffer, left))
    ensures bytes.None? ==> goal == None
    ensures bytes.Some? ==>
              && |buffer[5..]| >= Room(left - cnt)
              && Continues(goal, dst + bytes.value, Decoded(buffer[5..], left - cnt))
  {
    var w := TakeGroup(de85, buffer[..5]);
    if w.None? {
      return None;
    }
    WordDecoded(buffer[..5]);
    var b := PutBytes(w.value, cnt);
    ContinuesStep(goal, dst, buffer, left, b, w.value);
    bytes := Some(b);
  }

  lemma {:induction false} WordDecoded(g: Text)
    requires |g| == 5 && DecodeGroup(g).Some?
    ensures 0 <= DecodeGroup(g).value < WORD
  {
    assert forall i :: 0 <= i < 5 ==> Digit(g[i]) >= 0;
  }

  /** What has been decoded and what is to come make up the goal. */
  ghost predicate Continues(goal: Option<Text>, dst: Text, rest: Option<Text>) {
    if rest.None? then goal == None else goal == Some(dst + rest.value)
  }

  lemma {:induction false} ContinuesStep(goal: Option<Text>, dst: Text, buffer: Text, left: nat, bytes: Text, w: int)
    requires left > 0 && |buffer| >= Room(left) && Continues(goal, dst, Decoded(buffer, left))
    requires var cnt := Part(left);
             DecodeGroup(buffer[..5]) == Some(w) && bytes == WordBytes(w)[..cnt]
    ensures var cnt := Part(left);
            |buffer[5..]| >= Room(left - cnt) && Continues(goal, dst + bytes, Decoded(buffer[5..], left - cnt))
  {
    var cnt := Part(left);
    var rest := Decoded(buffer[5..], left - cnt);
    if rest.Some? { assert dst + (bytes + rest.value) == (dst + bytes) + rest.value; }
  }
}
