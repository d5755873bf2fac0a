/** Images for patch application: a byte buffer with a table of its lines (image_prepare,
match_fragment, find_pos, update_image). */
module ApplyImage {
  import opened Bytes

  datatype Line = Line(len: nat, hash: nat, patched: bool)

  datatype Image = Image(buf: Text, line: seq<Line>)

  /** isspace in Git's own table: tab, line feed, carriage return and space. */
  predicate IsBlank(b: Byte) { b == 9 || b == 10 || b == 13 || b == 32 }

  /** hash_line, as the line table keeps it: of the 32 bits computed the lower 24. */
  function HashLine(s: Text): nat {
    if s == [] then 0
    else
      var h := HashLine(s[..|s| - 1]);
      if IsBlank(s[|s| - 1]) then h else (h * 3 + s[|s| - 1]) % 0x100_0000
  }

  /** The byte offset of line `k`: the lengths of the lines before it. */
  function Offset(line: seq<Line>, k: nat): nat
    requires k <= |line|
  {
    if k == 0 then 0 else Offset(line, k - 1) + line[k - 1].len
  }

  lemma {:induction false} OffsetGrows(line: seq<Line>, j: nat, k: nat)
    requires j <= k <= |line|
    ensures Offset(line, j) <= Offset(line, k)
    decreases k - j
  {
    if j < k { OffsetGrows(line, j, k - 1); }
  }

  /** The lengths cover the buffer. */
  ghost predicate Covers(img: Image) {
    Offset(img.line, |img.line|) == |img.buf|
  }

  lemma {:induction false} OffsetInside(img: Image, k: nat)
    requires Covers(img) && k <= |img.line|
    ensures Offset(img.line, k) <= |img.buf|
  {
    OffsetGrows(img.line, k, |img.line|);
  }

  /** The bytes of line `i`. */
  function LineText(img: Image, i: nat): Text
    requires Covers(img) && i < |img.line|
  {
    OffsetInside(img, i + 1);
    img.buf[Offset(img.line, i)..Offset(img.line, i + 1)]
  }

  /** A line: newlines nowhere but at its end. */
  ghost predicate IsLine(s: Text) {
    s != [] && forall i :: 0 <= i < |s| - 1 ==> s[i] != NEWLINE
  }

  predicate Terminated(s: Text) { s != [] && s[|s| - 1] == NEWLINE }

  /** The table is that of the buffer: its lines, with their hashes; only the last line may lack
      its newline. */
  ghost predicate Valid(img: Image) {
    Covers(img) && forall i :: 0 <= i < |img.line| ==> ValidLine(img, i)
  }

  ghost predicate ValidLine(img: Image, i: nat)
    requires Covers(img)
  {
    && i < |img.line| && IsLine(LineText(img, i)) && img.line[i].hash == HashLine(LineText(img, i))
    && (i < |img.line| - 1 ==> Terminated(LineText(img, i)))
  }

  /** The lines of the fragment stand at line `lno`, none of them patched already; with
      `matchBeginning` and `matchEnd` only at the beginning or the end of the image. */
  ghost predicate Applies(img: Image, pre: Image, lno: int, matchBeginning: bool, matchEnd: bool)
    requires Covers(img) && Covers(pre)
  {
    && 0 <= lno && lno + |pre.line| <= |img.line|
    && (matchEnd ==> lno + |pre.line| == |img.line|) && (matchBeginning ==> lno == 0)
    && forall i :: 0 <= i < |pre.line| ==> LineAt(img, lno, pre, i)
  }

  /** Line `i` of the fragment stands `i` lines after `lno`. */
  ghost predicate LineAt(img: Image, lno: nat, pre: Image, i: nat)
    requires Covers(img) && Covers(pre)
  {
    SameLine(img, lno + i, pre, i)
  }

  ghost predicate SameLine(img: Image, k: nat, pre: Image, i: nat)
    requires Covers(img) && Covers(pre)
  {
    k < |img.line| && i < |pre.line| && !img.line[k].patched && LineText(img, k) == LineText(pre, i)
  }

  /** All lines are complete. */
  ghost predicate Complete(img: Image) {
    Valid(img) && forall i :: 0 <= i < |img.line| ==> Terminated(LineText(img, i))
  }

  /** Lines with the same bytes from the same place on end at the same place. */
  lemma {:induction false} SameEnd(s: Text, t: Text, long: Text, last: bool)
    requires IsLine(s) && IsLine(t) && Terminated(t) && |s| <= |long|
    requires |t| <= |long| && s == long[..|s|] && t == long[..|t|]
    requires !last ==> Terminated(s)
    requires last ==> |s| == |long|
    ensures s == t
  {
    if |t| <= |s| {
      assert s[..|t|] == t;
      NotLonger(s, t);
    } else if !last {
      assert t[..|s|] == s;
      NotLonger(t, s);
    }
  }

  lemma {:induction false} NotLonger(s: Text, t: Text)
    requires IsLine(s) && Terminated(t) && |t| <= |s| && s[..|t|] == t
    ensures |s| == |t|
  {
    assert s[|t| - 1] == NEWLINE;
  }

  /** The bytes of the fragment stand in the buffer at `at`. */
  ghost predicate BytesAt(img: Image, pre: Image, at: nat) {
    at + |pre.buf| <= |img.buf| && img.buf[at..at + |pre.buf|] == pre.buf
  }

  lemma {:induction false} BytesGiveLines(img: Image, pre: Image, lno: nat, i: nat)
    requires Valid(img) && Complete(pre) && lno + |pre.line| <= |img.line| && i <= |pre.line|
    requires BytesAt(img, pre, Offset(img.line, lno))
    ensures Offset(img.line, lno + i) == Offset(img.line, lno) + Offset(pre.line, i)
    ensures forall k :: 0 <= k < i ==> LineText(img, lno + k) == LineText(pre, k)
  {
    if i > 0 {
      BytesGiveLines(img, pre, lno, i - 1);
      OneLineSame(img, pre, lno, i - 1);
    }
  }

  lemma {:induction false} OneLineSame(img: Image, pre: Image, lno: nat, k: nat)
    requires Valid(img) && Complete(pre) && lno + |pre.line| <= |img.line| && k < |pre.line|
    requires BytesAt(img, pre, Offset(img.line, lno))
    requires Offset(img.line, lno + k) == Offset(img.line, lno) + Offset(pre.line, k)
    ensures LineText(img, lno + k) == LineText(pre, k)
    ensures Offset(img.line, lno + k + 1) == Offset(img.line, lno) + Offset(pre.line, k + 1)
  {
    var at, o := Offset(img.line, lno), Offset(pre.line, k);
    OffsetInside(pre, k + 1);
    OffsetInside(img, lno + k + 1);
    assert ValidLine(img, lno + k) && ValidLine(pre, k);
    var long := img.buf[at + o..];
    var s, t := LineText(img, lno + k), LineText(pre, k);
    SliceOfSlice(img.buf, at, |pre.buf|, o, |t|);
    SameEnd(s, t, long, lno + k == |img.line| - 1);
  }

  lemma {:induction false} SliceOfSlice(s: Text, at: nat, n: nat, o: nat, len: nat)
    requires at + n <= |s| && o + len <= n
    ensures s[at..at + n][o..o + len] == s[at + o..][..len]
  {
    var t, u := s[at..at + n], s[at + o..];
    forall i | 0 <= i < len ensures t[o..o + len][i] == u[..len][i] {
      assert t[o + i] == s[at + (o + i)] && u[i] == s[at + o + i];
    }
  }

  lemma {:induction false} SliceMore(s: Text, a: nat, b: nat, c: nat)
    requires a <= b <= c <= |s|
    ensures s[a..c] == s[a..b] + s[b..c]
  {
  }

  lemma {:induction false} LinesGiveBytes(img: Image, pre: Image, lno: nat, i: nat)
    requires Covers(img) && Covers(pre) && lno + |pre.line| <= |img.line| && i <= |pre.line|
    requires forall k :: 0 <= k < i ==> LineText(img, lno + k) == LineText(pre, k)
    ensures Offset(img.line, lno + i) == Offset(img.line, lno) + Offset(pre.line, i)
    ensures Offset(img.line, lno) + Offset(pre.line, i) <= |img.buf| && Offset(pre.line, i) <= |pre.buf|
    ensures img.buf[Offset(img.line, lno)..Offset(img.line, lno) + Offset(pre.line, i)] ==
            pre.buf[..Offset(pre.line, i)]
  {
    OffsetInside(img, lno + i);
    OffsetInside(pre, i);
    if i > 0 {
      LinesGiveBytes(img, pre, lno, i - 1);
      var at, o, o' := Offset(img.line, lno), Offset(pre.line, i - 1), Offset(pre.line, i);
      assert |LineText(img, lno + (i - 1))| == |LineText(pre, i - 1)|;
      SliceMore(img.buf, at, at + o, at + o');
      SliceMore(pre.buf, 0, o, o');
    }
  }

  /** match_fragment, exact path: the hash check and the byte comparison find out exactly whether
      the lines are the same. */
  method MatchFragment(img: Image, pre: Image, current: nat, lno: nat, matchBeginning: bool, matchEnd: bool)
    returns (r: bool)
    requires Valid(img) && Complete(pre) && lno <= |img.line| && current == Offset(img.line, lno)
    ensures r <==> Applies(img, pre, lno, matchBeginning, matchEnd)
  {
    if |pre.line| + lno > |img.line| || (matchEnd && |pre.line| + lno != |img.line|) {
      return false;
    }
    if matchBeginning && lno != 0 {
      return false;
    }
    for i := 0 to |pre.line|
      invariant forall k :: lno <= k < lno + i ==> !img.line[k].patched
    {
      if img.line[lno + i].patched || pre.line[i].hash != img.line[lno + i].hash {
        NotSame(img, pre, lno, i);
        return false;
      }
    }
    r := (if matchEnd then current + |pre.buf| == |img.buf| else current + |pre.buf| <= |img.buf|)
      && img.buf[current..current + |pre.buf|] == pre.buf;
    MatchMeans(img, pre, current, lno, matchEnd, r);
  }

  lemma {:induction false} NotSame(img: Image, pre: Image, lno: nat, i: nat)
    requires Valid(img) && Valid(pre) && lno + |pre.line| <= |img.line| && i < |pre.line|
    requires img.line[lno + i].patched || pre.line[i].hash != img.line[lno + i].hash
    ensures !LineAt(img, lno, pre, i)
  {
    assert ValidLine(img, lno + i) && ValidLine(pre, i);
  }

  lemma {:induction false} MatchMeans(img: Image, pre: Image, current: nat, lno: nat, matchEnd: bool, r: bool)
    requires Valid(img) && Complete(pre) && lno + |pre.line| <= |img.line| && current == Offset(img.line, lno)
    requires (matchEnd ==> lno + |pre.line| == |img.line|)
    requires forall k :: lno <= k < lno + |pre.line| ==> !img.line[k].patched
    requires r <==> (matchEnd ==> current + |pre.buf| == |img.buf|) && BytesAt(img, pre, current)
    ensures r <==> forall i :: 0 <= i < |pre.line| ==> LineAt(img, lno, pre, i)
  {
    if r {
      BytesGiveLines(img, pre, lno, |pre.line|);
      forall i | 0 <= i < |pre.line| ensures LineAt(img, lno, pre, i) {}
    }
    if forall i :: 0 <= i < |pre.line| ==> LineAt(img, lno, pre, i) {
      forall i | 0 <= i < |pre.line| ensures LineText(img, lno + i) == LineText(pre, i) {
        assert LineAt(img, lno, pre, i);
      }
      LinesGiveBytes(img, pre, lno, |pre.line|);
      assert pre.buf[..|pre.buf|] == pre.buf;
    }
  }

  /** find_pos, for any test that a fragment matches at a line: the nearest line that matches,
      forward first, or -1 if there is none. */
  ghost predicate Nearest(matches: int -> bool, nr: nat, start: nat, pos: int) {
    if pos < 0 then pos == -1 && forall p :: 0 <= p <= nr ==> !matches(p)
    else
      && pos <= nr && matches(pos)
      && forall p :: 0 <= p <= nr && matches(p) ==> !Nearer(p, pos, start)
  }

  /** `p` is tried before `q`: closer to the start, or as close and ahead. */
  predicate Nearer(p: int, q: int, start: int) {
    var dp, dq := if p < start then start - p else p - start, if q < start then start - q else q - start;
    dp < dq || (dp == dq && p > q)
  }

  /** Where find_pos starts to look. */
  function Start(nr: nat, preNr: nat, line: int, matchBeginning: bool, matchEnd: bool): nat {
    var l := if matchBeginning then 0 else if matchEnd then nr - preNr else line;
    if l < 0 || l > nr then nr else l
  }

  /** The search so far: lines [b, f] but the current one do not match, and none outside is nearer. */
  ghost predicate Searched(matches: int -> bool, nr: nat, start: nat, b: nat, f: nat, current: nat) {
    && b <= start <= f <= nr
    && (forall p :: b <= p <= f && p != current ==> !matches(p))
    && ((current == f && (b == 0 || f - start <= start - b + 1))
       || (current == b && (f == nr || start - b <= f - start)))
  }

  lemma {:induction false} FoundNearest(matches: int -> bool, nr: nat, start: nat, b: nat, f: nat, current: nat)
    requires Searched(matches, nr, start, b, f, current) && matches(current)
    ensures Nearest(matches, nr, start, current)
  {
  }

  /** find_pos: the nearest line at which the fragment applies, forward first, or -1 if there is
      none; the byte offset follows the line number. */
  method FindPos(img: Image, pre: Image, line: int, matchBeginning0: bool, matchEnd: bool, allowOverlap: bool)
    returns (pos: int)
    requires Valid(img) && Complete(pre)
    ensures var matchBeginning := matchBeginning0 && !(allowOverlap && matchEnd && |img.line| != |pre.line|);
            Nearest(p => Applies(img, pre, p, matchBeginning, matchEnd), |img.line|,
                    Start(|img.line|, |pre.line|, line, matchBeginning, matchEnd), pos)
  {
    var matchBeginning := matchBeginning0 && !(allowOverlap && matchEnd && |img.line| != |pre.line|);
    var start := Start(|img.line|, |pre.line|, line, matchBeginning, matchEnd);
    var current := SumLengths(img.line, start);
    var b: nat, backwards, f: nat, forwards, lno: nat, i := start, current, start, current, start, 0;
    ghost var matches: int -> bool := p => Applies(img, pre, p, matchBeginning, matchEnd);
    while true
      invariant Searched(matches, |img.line|, start, b, f, lno)
      invariant backwards == Offset(img.line, b) && forwards == Offset(img.line, f)
      invariant current == Offset(img.line, lno) && lno <= |img.line|
      invariant i >= 0 && (b > 0 && f < |img.line| ==> f - start == start - b + (i % 2))
      decreases b + (|img.line| - f)
    {
      var r := MatchFragment(img, pre, current, lno, matchBeginning, matchEnd);
      if r {
        FoundNearest(matches, |img.line|, start, b, f, lno);
        return lno;
      }
      if b == 0 && f == |img.line| {
        break;
      }
      var back := if i % 2 == 1 then b != 0 else f == |img.line|;
      i := if back == (i % 2 == 1) then i + 1 else i + 2;
      if back {
        b := b - 1;
        backwards := backwards - img.line[b].len;
        current, lno := backwards, b;
      } else {
        forwards := forwards + img.line[f].len;
        f := f + 1;
        current, lno := forwards, f;
      }
    }
    pos := -1;
  }

  method SumLengths(line: seq<Line>, k: nat) returns (sum: nat)
    requires k <= |line|
    ensures sum == Offset(line, k)
  {
    sum := 0;
    for i := 0 to k
      invariant sum == Offset(line, i)
    {
      sum := sum + line[i].len;
    }
  }
}
