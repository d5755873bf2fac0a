/** The lines of a binary patch: data armoured fifty-two bytes at a time (emit_binary_diff_body), and
read back (parse_binary_hunk). */
module BinaryBody {
  import opened Bytes
  import opened Options
  import opened Base85

  /** The byte that tells how many bytes a line stands for: A to Z for 1 to 26, a to z for 27 to 52. */
  function LengthMark(n: nat): Byte
    requires 1 <= n <= 52
  {
    if n <= 26 then n + 65 - 1 else n - 26 + 97 - 1
  }

  /** The number it tells, or 0. */
  function MarkedLength(ch: Byte): (n: nat)
    ensures n <= 52
  {
    if 65 <= ch <= 90 then ch - 65 + 1 else if 97 <= ch <= 122 then ch - 97 + 27 else 0
  }

  function BodyLine(data: Text): Text
    requires 1 <= |data| <= 52
  {
    [LengthMark(|data|)] + Encoded(data) + [NEWLINE]
  }

  function Piece(size: nat): nat { if 52 < size then 52 else size }

  /** The lines for all the data, and a blank one. */
  function Body(data: Text): Text {
    if data == [] then [NEWLINE] else BodyLine(data[..Piece(|data|)]) + Body(data[Piece(|data|)..])
  }

  /** linelen: up to the end of the line, or of the text. */
  function LineLength(buf: Text): (n: nat)
    ensures n <= |buf|
  {
    if buf == [] then 0 else if buf[0] == NEWLINE then 1 else 1 + LineLength(buf[1..])
  }

  /** The tests parse_binary_hunk makes of a line of `llen` bytes, marked with length `n`. */
  predicate Framed(llen: nat, n: nat) {
    llen >= 7 && (llen - 2) % 5 == 0 && n > 0 && n <= (llen - 2) / 5 * 4 && n > (llen - 2) / 5 * 4 - 4
  }

  /** They pass exactly if the line has as many characters as its bytes need. */
  lemma {:induction false} FramingExact(llen: nat, n: nat)
    ensures Framed(llen, n) <==> n > 0 && llen >= 2 && Room(n) == llen - 2
  {
    RoomIs(n);
    if llen >= 2 && (llen - 2) % 5 == 0 {
      var q := (llen - 2) / 5;
      assert llen - 2 == q * 5;
      assert (n + 3) / 4 == q <==> q * 4 - 4 < n <= q * 4;
    }
  }

  /** The bytes a line stands for: it must be as long as its first byte tells. */
  function ReadLine(line: Text): Option<Text> {
    if line == [] then None
    else
      var n := MarkedLength(line[0]);
      if n > 0 && |line| == Room(n) + 2 then Decoded(line[1..], n) else None
  }

  /** The data up to the blank line, and what follows. */
  function ReadBody(buf: Text): Option<(Text, Text)>
    decreases |buf|
  {
    var llen := LineLength(buf);
    if llen == 1 then Some(([], buf[1..]))
    else
      match ReadLine(buf[..llen])
      case None => None
      case Some(data) =>
        match ReadBody(buf[llen..])
        case None => None
        case Some((more, rest)) => Some((data + more, rest))
  }

  lemma {:induction false} ZeroWord()
    ensures EncodeGroup(0) == [48, 48, 48, 48, 48]
  {
    Quotients(0);
  }

  lemma {:induction false} ShortCode(data: Text)
    requires 0 < |data| < 4
    ensures Encoded(data) == EncodeGroup(Word(data))
  {
    assert Front(data) == data && data[|data|..] == [];
    assert EncodeGroup(Word(data)) + [] == EncodeGroup(Word(data));
  }

  lemma {:induction false} OneLineBody(data: Text)
    requires 1 <= |data| <= 52
    ensures Body(data) == BodyLine(data) + [NEWLINE]
  {
    assert data[..|data|] == data && data[|data|..] == [];
  }

  /** The smallest body: one zero byte. */
  lemma {:induction false} MinimumLine()
    ensures Body([0]) == [65, 48, 48, 48, 48, 48, 10, 10]
  {
    ZeroWord();
    ShortCode([0]);
    OneLineBody([0]);
  }

  /** All lines but the last stand for fifty-two bytes. */
  lemma {:induction false} FullLines(data: Text)
    requires |data| > 52
    ensures Body(data) == BodyLine(data[..52]) + Body(data[52..])
  {
  }

  /** A line of one byte is marked A, of 26 bytes Z, of 27 bytes a, of 52 bytes z; between them the
      letters go on one by one. */
  lemma {:induction false} MarkLetters(n: nat)
    requires 1 <= n <= 52
    ensures LengthMark(1) == 'A' as int && LengthMark(26) == 'Z' as int
    ensures LengthMark(27) == 'a' as int && LengthMark(52) == 'z' as int
    ensures n != 26 && n != 52 ==> LengthMark(n + 1) == LengthMark(n) + 1
  {
  }

  // ---- round trip ----

  lemma {:induction false} LineEnds(line: Text, rest: Text)
    requires NEWLINE !in line
    ensures LineLength(line + [NEWLINE] + rest) == |line| + 1
  {
    if line != [] {
      assert (line + [NEWLINE] + rest)[1..] == line[1..] + [NEWLINE] + rest;
      LineEnds(line[1..], rest);
    }
  }

  lemma {:induction false} NoNewlineInGroup(w: int)
    requires 0 <= w < WORD
    ensures NEWLINE !in EncodeGroup(w)
  {
    DigitsOfWord(w);
  }

  lemma {:induction false} NoNewline(data: Text)
    ensures NEWLINE !in Encoded(data)
    decreases |data|
  {
    if data != [] {
      WordOfBytes(Front(data));
      NoNewlineInGroup(Word(Front(data)));
      NoNewline(data[|Front(data)|..]);
    }
  }

  /** A line that was written reads back. */
  lemma {:induction false} LineRoundTrip(data: Text)
    requires 1 <= |data| <= 52
    ensures ReadLine(BodyLine(data)) == Some(data)
  {
    EncodedLength(data);
    RoundTrip(data);
    ReadFramed(LengthMark(|data|), Encoded(data), |data|);
  }

  lemma {:induction false} ReadFramed(mark: Byte, code: Text, n: nat)
    requires n > 0 && MarkedLength(mark) == n && |code| == Room(n)
    ensures ReadLine([mark] + code + [NEWLINE]) == Decoded(code, n)
  {
    var line := [mark] + code + [NEWLINE];
    assert line[1..] == code + [NEWLINE];
    DecodedPrefix(code, [NEWLINE], n);
  }

  /** A line of its own: it ends with the newline, and has no other. */
  ghost predicate OneLine(line: Text) {
    |line| > 1 && line[|line| - 1] == NEWLINE && NEWLINE !in line[..|line| - 1]
  }

  lemma {:induction false} LineFound(line: Text, more: Text)
    requires OneLine(line)
    ensures LineLength(line + more) == |line| && (line + more)[..|line|] == line && (line + more)[|line|..] == more
  {
    var front := line[..|line| - 1];
    LineEnds(front, more);
    assert line + more == front + [NEWLINE] + more;
  }

  lemma {:induction false} LineGood(data: Text)
    requires 1 <= |data| <= 52
    ensures OneLine(BodyLine(data))
  {
    NoNewline(data);
    LineIsOne(LengthMark(|data|), Encoded(data));
  }

  lemma {:induction false} LineIsOne(mark: Byte, code: Text)
    requires mark != NEWLINE && NEWLINE !in code
    ensures OneLine([mark] + code + [NEWLINE])
  {
    assert ([mark] + code + [NEWLINE])[..1 + |code|] == [mark] + code;
  }

  /** A line in front of what reads back. */
  lemma {:induction false} LineThen(first: Text, buf: Text, others: Text, rest: Text)
    requires 1 <= |first| <= 52 && ReadBody(buf) == Some((others, rest))
    ensures ReadBody(BodyLine(first) + buf) == Some((first + others, rest))
  {
    LineRoundTrip(first);
    LineGood(first);
    ReadFirst(BodyLine(first), buf, first, others, rest);
  }

  /** Data of any length reads back, whatever follows. */
  lemma {:induction false} BodyRoundTrip(data: Text, rest: Text)
    ensures ReadBody(Body(data) + rest) == Some((data, rest))
    decreases |data|
  {
    if data == [] {
      BlankLine(rest);
    } else {
      var n := Piece(|data|);
      BodyRoundTrip(data[n..], rest);
      LineThen(data[..n], Body(data[n..]) + rest, data[n..], rest);
      BodyPieces(data, rest, n);
    }
  }

  lemma {:induction false} BodyPieces(data: Text, rest: Text, n: nat)
    requires data != [] && n == Piece(|data|)
    ensures Body(data) + rest == BodyLine(data[..n]) + (Body(data[n..]) + rest) && data[..n] + data[n..] == data
  {
    Base85.Regroup(BodyLine(data[..n]), Body(data[n..]), rest);
  }

  lemma {:induction false} BlankLine(rest: Text)
    ensures ReadBody([NEWLINE] + rest) == Some(([], rest))
  {
    assert LineLength([NEWLINE] + rest) == 1 && ([NEWLINE] + rest)[1..] == rest;
  }

  lemma {:induction false} ReadFirst(line: Text, buf: Text, first: Text, others: Text, rest: Text)
    requires OneLine(line) && ReadLine(line) == Some(first) && ReadBody(buf) == Some((others, rest))
    ensures ReadBody(line + buf) == Some((first + others, rest))
  {
    LineFound(line, buf);
  }

  // ---- the loops ----

  /** The loop of emit_binary_diff_body. */
  method EmitBody(data: Text) returns (out: Text)
    ensures out == Body(data)
  {
    out := [];
    var rest := data;
    while rest != []
      invariant out + Body(rest) == Body(data)
      decreases |rest|
    {
      var bytes := if 52 < |rest| then 52 else |rest|;
      var mark: Byte := if bytes <= 26 then bytes + 65 - 1 else bytes - 26 + 97 - 1;
      var code := Encode85(rest[..bytes]);
      var line := [mark] + code + [NEWLINE];
      assert line == BodyLine(rest[..bytes]);
      Base85.Regroup(out, line, Body(rest[bytes..]));
      out, rest := out + line, rest[bytes..];
    }
    out := out + [NEWLINE];
  }

  /** One line: the tests, and the bytes. */
  method ParseLine(line: Text) returns (data: Option<Text>)
    ensures data == ReadLine(line)
  {
    var llen := |line|;
    if line != [] { FramingExact(llen, MarkedLength(line[0])); }
    if llen < 7 || (llen - 2) % 5 != 0 {
      return None;
    }
    var max := (llen - 2) / 5 * 4;
    var n;
    if 65 <= line[0] <= 90 {
      n := line[0] - 65 + 1;
    } else if 97 <= line[0] <= 122 {
      n := line[0] - 97 + 27;
    } else {
      return None;
    }
    if max < n || n <= max - 4 {
      return None;
    }
    data := Decode85(line[1..], n);
  }

  /** The outcome with `data` in front. */
  ghost function Prefixed(data: Text, r: Option<(Text, Text)>): Option<(Text, Text)> {
    match r case None => None case Some((more, rest)) => Some((data + more, rest))
  }

  lemma {:induction false} PrefixedNothing(r: Option<(Text, Text)>)
    ensures Prefixed([], r) == r
  {
    if r.Some? { assert [] + r.value.0 == r.value.0; }
  }

  /** What one line adds to the outcome. */
  lemma {:induction false} ReadBodyStep(buf: Text, data: Text)
    ensures var llen := LineLength(buf);
            if llen == 1 then Prefixed(data, ReadBody(buf)) == Some((data, buf[1..]))
            else match ReadLine(buf[..llen])
              case None => ReadBody(buf) == None
              case Some(more) =>
                llen > 0 && Prefixed(data, ReadBody(buf)) == Prefixed(data + more, ReadBody(buf[llen..]))
  {
    var llen := LineLength(buf);
    if llen == 1 {
      assert data + [] == data;
    } else if ReadLine(buf[..llen]).Some? && ReadBody(buf[llen..]).Some? {
      Base85.Regroup(data, ReadLine(buf[..llen]).value, ReadBody(buf[llen..]).value.0);
    }
  }

  /** The loop of parse_binary_hunk. */
  method ParseBody(buffer: Text) returns (r: Option<(Text, Text)>)
    ensures r == ReadBody(buffer)
  {
    var data: Text, buf := [], buffer;
    PrefixedNothing(ReadBody(buffer));
    while true
      invariant ReadBody(buffer) == Prefixed(data, ReadBody(buf))
      decreases |buf|
    {
      ReadBodyStep(buf, data);
      var llen := LineLength(buf);
      if llen == 1 {
        return Some((data, buf[1..]));
      }
      var more := ParseLine(buf[..llen]);
      if more.None? {
        return None;
      }
      data, buf := data + more.value, buf[llen..];
    }
  }
}
