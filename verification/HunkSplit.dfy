/** Splitting a hunk at its change groups and merging the parts again (split_hunk, merge_hunks).
Positions in the diff text are counted in lines. */
module HunkSplit {
  import opened Options

  /** The marker of a line; `Note` is a line about a missing newline. */
  datatype Mark = Context | Deleted | Added | Note

  predicate IsChange(m: Mark) { m == Deleted || m == Added }

  /** The line ranges of a hunk header. */
  datatype Header = Header(oldOffset: int, oldCount: int, newOffset: int, newCount: int)

  datatype Hunk = Hunk(start: int, end: int, header: Header)

  /** Lines [a, b) that the old file has. */
  function Old(body: seq<Mark>, a: int, b: int): (n: nat)
    requires 0 <= a && b <= |body|
  {
    if b <= a then 0 else Old(body, a, b - 1) + if body[b - 1] == Context || body[b - 1] == Deleted then 1 else 0
  }

  /** Lines [a, b) that the new file has. */
  function New(body: seq<Mark>, a: int, b: int): (n: nat)
    requires 0 <= a && b <= |body|
  {
    if b <= a then 0 else New(body, a, b - 1) + if body[b - 1] == Context || body[b - 1] == Added then 1 else 0
  }

  /** Which lines are in the old file and which in the new: context in both, deleted and added in one,
      a note in neither. */
  lemma {:induction false} KindCounts(body: seq<Mark>, i: nat)
    requires i < |body|
    ensures Old(body, i, i + 1) == match body[i] case Context => 1 case Deleted => 1 case Added => 0 case Note => 0
    ensures New(body, i, i + 1) == match body[i] case Context => 1 case Deleted => 0 case Added => 1 case Note => 0
  {
    assert Old(body, i, i) == 0 && New(body, i, i) == 0;
  }

  lemma {:induction false} OldAppend(body: seq<Mark>, a: int, b: int, c: int)
    requires 0 <= a <= b <= c <= |body|
    ensures Old(body, a, c) == Old(body, a, b) + Old(body, b, c)
    decreases c
  {
    if b < c { OldAppend(body, a, b, c - 1); }
  }

  lemma {:induction false} NewAppend(body: seq<Mark>, a: int, b: int, c: int)
    requires 0 <= a <= b <= c <= |body|
    ensures New(body, a, c) == New(body, a, b) + New(body, b, c)
    decreases c
  {
    if b < c { NewAppend(body, a, b, c - 1); }
  }

  /** Change groups that start at line `i` or later, `inside` saying whether one goes on there. */
  function Groups(body: seq<Mark>, i: int, inside: bool): nat
    requires 0 <= i <= |body|
    decreases |body| - i
  {
    if i == |body| then 0
    else if body[i] == Note then Groups(body, i + 1, inside)
    else if body[i] == Context then Groups(body, i + 1, false)
    else (if inside then 0 else 1) + Groups(body, i + 1, true)
  }

  /** parse_diff's count of the hunks a hunk can be split into. */
  method SplittableInto(body: seq<Mark>) returns (n: nat)
    ensures n == Groups(body, 0, false)
  {
    n := 0;
    var marker: Option<Mark> := None;
    for i := 0 to |body|
      invariant marker.Some? ==> marker.value != Note
      invariant marker.Some? && IsChange(marker.value) ==> n + 1 + Groups(body, i, true) == Groups(body, 0, false)
      invariant !(marker.Some? && IsChange(marker.value)) ==> n + Groups(body, i, false) == Groups(body, 0, false)
    {
      if marker.Some? && IsChange(marker.value) && body[i] == Context {
        n := n + 1;
      }
      if body[i] != Note {
        marker := Some(body[i]);
      }
    }
    if marker.Some? && IsChange(marker.value) {
      n := n + 1;
    }
  }

  /** Whether a change group goes on at line `i`. */
  function InsideAt(body: seq<Mark>, i: int): bool
    requires 0 <= i <= |body|
  {
    i > 0 && if body[i - 1] == Note then InsideAt(body, i - 1) else IsChange(body[i - 1])
  }

  /** No change group starts after a line about a missing newline. */
  ghost predicate NotesLast(body: seq<Mark>) {
    forall i :: 0 <= i < |body| && body[i] == Note ==> Groups(body, i, InsideAt(body, i)) == 0
  }

  /** A header that fits the lines [start, end) of a hunk whose first line is at `base`. */
  ghost predicate Fits(body: seq<Mark>, base: Header, h: Hunk) {
    && 0 <= h.start <= h.end <= |body|
    && h.header.oldOffset == base.oldOffset + Old(body, 0, h.start) && h.header.oldCount == Old(body, h.start, h.end)
    && h.header.newOffset == base.newOffset + New(body, 0, h.start) && h.header.newCount == New(body, h.start, h.end)
  }

  /** Exactly one change group: lines [c, d) of it. */
  ghost predicate OneGroup(body: seq<Mark>, a: int, b: int, c: int, d: int) {
    && 0 <= a <= c < d <= b <= |body| && IsChange(body[c])
    && (forall i :: a <= i < c ==> !IsChange(body[i]))
    && (forall i :: c <= i < d ==> body[i] != Context)
    && (forall i :: d <= i < b ==> !IsChange(body[i]))
  }

  ghost predicate HasOneGroup(body: seq<Mark>, a: int, b: int) {
    exists c, d :: OneGroup(body, a, b, c, d)
  }

  /** Consecutive parts share the context between their groups, and all of it. */
  ghost predicate Overlap(body: seq<Mark>, h: Hunk, k: Hunk) {
    && 0 <= h.start < k.start < h.end <= |body| && h.end <= k.end && IsChange(body[k.start - 1])
    && forall i :: k.start <= i < h.end ==> body[i] == Context
  }

  /** The parts of a split: each with its own change group and a header that fits, the first from
      the first line, each overlapping the next. */
  ghost predicate SplitUp(body: seq<Mark>, base: Header, hs: seq<Hunk>) {
    && (hs != [] ==> hs[0].start == 0)
    && (forall i {:trigger PartAt(body, base, hs, i)} :: 0 <= i < |hs| ==> PartAt(body, base, hs, i))
    && (forall i {:trigger OverlapAt(body, hs, i)} :: 0 < i < |hs| ==> OverlapAt(body, hs, i))
  }

  ghost predicate PartAt(body: seq<Mark>, base: Header, hs: seq<Hunk>, i: nat) {
    i < |hs| && Fits(body, base, hs[i]) && HasOneGroup(body, hs[i].start, hs[i].end)
  }

  ghost predicate OverlapAt(body: seq<Mark>, hs: seq<Hunk>, i: nat) {
    0 < i < |hs| && Overlap(body, hs[i - 1], hs[i])
  }

  /** The variables of split_hunk: the parts done, where the current part starts and its header so
      far, where the next part will start, the line looked at, and what is left. */
  datatype Split = Split(done: seq<Hunk>, start: int, header: Header, next: int, current: int, marker: Option<Mark>,
                         first: bool, context: int, remaining: Header)

  /** Offsets and what remains are right, and the parts done join the current one. */
  ghost predicate Sound(body: seq<Mark>, base: Header, s: Split) {
    && 0 <= s.start <= s.current <= |body|
    && s.header.oldOffset == s.remaining.oldOffset == base.oldOffset + Old(body, 0, s.start)
       && s.remaining.oldCount == Old(body, s.start, |body|)
    && s.header.newOffset == s.remaining.newOffset == base.newOffset + New(body, 0, s.start)
       && s.remaining.newCount == New(body, s.start, |body|)
    && SplitUp(body, base, s.done) && (s.done == [] ==> s.start == 0)
    && (s.done != [] ==> Overlap(body, s.done[|s.done| - 1], Hunk(s.start, s.current, s.header)))
  }

  /** Before the first change: `k` groups are to come. */
  ghost predicate Leading(body: seq<Mark>, s: Split, k: nat) {
    && s.first && s.done == [] && s.start == 0 && s.context == s.current && s.header.oldCount == s.header.newCount == 0
    && s.marker == (if s.current == 0 then None else Some(Context))
    && 0 <= s.current <= |body| && Groups(body, s.current, false) == k
    && (forall i :: 0 <= i < s.current ==> body[i] == Context)
  }

  /** In the change group that starts at line `c`. */
  ghost predicate Inside(body: seq<Mark>, s: Split, k: nat, c: int) {
    && s.marker.Some? && IsChange(s.marker.value) && 0 <= s.start <= c <= s.current <= |body|
    && s.header.oldCount == Old(body, s.start, s.current) && s.header.newCount == New(body, s.start, s.current)
    && c < |body| && IsChange(body[c])
    && (forall i :: s.start <= i < c ==> body[i] == Context) && (forall i :: c <= i < s.current ==> IsChange(body[i]))
    && k > 0 && Groups(body, s.current, true) == k - 1
  }

  /** In the context after the group of lines [c, next). */
  ghost predicate Trailing(body: seq<Mark>, s: Split, k: nat, c: int) {
    && s.marker == Some(Context) && !s.first && 0 <= s.start <= c < s.next < s.current <= |body|
    && s.header.oldCount == Old(body, s.start, s.next) && s.header.newCount == New(body, s.start, s.next)
    && s.context == s.current - s.next && IsChange(body[c])
    && (forall i :: s.start <= i < c ==> body[i] == Context) && (forall i :: c <= i < s.next ==> IsChange(body[i]))
    && (forall i :: s.next <= i < s.current ==> body[i] == Context)
    && k > 0 && Groups(body, s.current, false) == k - 1
  }

  /** With another group to come there is another line, and it is no note. */
  lemma {:induction false} MoreLines(body: seq<Mark>, i: int)
    requires 0 <= i <= |body| && NotesLast(body) && Groups(body, i, InsideAt(body, i)) > 0
    ensures i < |body| && body[i] != Note
  {
  }

  /** The line after which the count goes on: its marker counted. */
  function Counted(s: Split, ch: Mark): Split {
    var m := if ch == Note then (if s.marker.Some? then s.marker.value else Context) else ch;
    var h := s.header;
    s.(current := s.current + 1, marker := Some(m),
       context := if m == Context then s.context + 1 else s.context,
       header := if m == Deleted then h.(oldCount := h.oldCount + 1)
                 else if m == Added then h.(newCount := h.newCount + 1) else h)
  }

  /** The header of a part with `context` lines more. */
  function Widened(h: Header, context: int): Header {
    h.(oldCount := h.oldCount + context, newCount := h.newCount + context)
  }

  /** The current part is done: the next one starts with the context between. */
  function NextPart(s: Split, ch: Mark): Split {
    var h, r := s.header, s.remaining;
    s.(done := s.done + [Hunk(s.start, s.current, Widened(h, s.context))],
       start := s.next,
       header := Header(h.oldOffset + h.oldCount, s.context, h.newOffset + h.newCount, s.context),
       remaining := Header(r.oldOffset + h.oldCount, r.oldCount - h.oldCount,
                           r.newOffset + h.newCount, r.newCount - h.newCount),
       context := 0, marker := Some(ch))
  }

  lemma {:induction false} ContextLines(body: seq<Mark>, a: int, b: int)
    requires 0 <= a <= b <= |body| && forall i :: a <= i < b ==> body[i] == Context
    ensures Old(body, a, b) == b - a && New(body, a, b) == b - a
    decreases b
  {
    if a < b { ContextLines(body, a, b - 1); }
  }

  lemma {:induction false} SoundCounted(body: seq<Mark>, base: Header, s: Split, s': Split)
    requires Sound(body, base, s) && s.current < |body| && s'.current == s.current + 1
    requires s'.start == s.start && s'.done == s.done && s'.remaining == s.remaining
    requires s'.header.oldOffset == s.header.oldOffset && s'.header.newOffset == s.header.newOffset
    ensures Sound(body, base, s')
  {
  }

  lemma {:induction false} LeadingStep(body: seq<Mark>, base: Header, s: Split, k: nat)
    requires Sound(body, base, s) && Leading(body, s, k) && s.current < |body| && body[s.current] != Note
    ensures body[s.current] == Context ==>
            Sound(body, base, Counted(s, Context)) && Leading(body, Counted(s, Context), k)
    ensures IsChange(body[s.current]) ==>
              var t := if s.marker.None? then s
                       else s.(header := s.header.(oldCount := s.context, newCount := s.context),
                               context := 0, first := false);
              Sound(body, base, Counted(t, body[s.current])) && Inside(body, Counted(t, body[s.current]), k, s.current)
  {
    ContextLines(body, 0, s.current);
  }

  lemma {:induction false} InsideChange(body: seq<Mark>, base: Header, s: Split, k: nat, c: int)
    requires Sound(body, base, s) && Inside(body, s, k, c) && s.current < |body| && IsChange(body[s.current])
    ensures Sound(body, base, Counted(s, body[s.current])) && Inside(body, Counted(s, body[s.current]), k, c)
  {
    SoundCounted(body, base, s, Counted(s, body[s.current]));
    InsideCounted(body, s, k, c);
  }

  lemma {:induction false} InsideCounted(body: seq<Mark>, s: Split, k: nat, c: int)
    requires Inside(body, s, k, c) && s.current < |body| && IsChange(body[s.current])
    ensures Inside(body, Counted(s, body[s.current]), k, c)
  {
  }

  lemma {:induction false} InsideContext(body: seq<Mark>, base: Header, s: Split, k: nat, c: int)
    requires Sound(body, base, s) && Inside(body, s, k, c) && s.current < |body| && body[s.current] == Context
    ensures var t := Counted(s.(first := false, next := s.current, context := 0), Context);
            Sound(body, base, t) && Trailing(body, t, k, c)
  {
    SoundCounted(body, base, s, Counted(s.(first := false, next := s.current, context := 0), Context));
  }

  lemma {:induction false} TrailingStep(body: seq<Mark>, base: Header, s: Split, k: nat, c: int)
    requires Sound(body, base, s) && Trailing(body, s, k, c) && s.current < |body| && body[s.current] == Context
    ensures Sound(body, base, Counted(s, Context)) && Trailing(body, Counted(s, Context), k, c)
  {
  }

  lemma {:induction false} PartDone(body: seq<Mark>, base: Header, s: Split, k: nat, c: int)
    requires Sound(body, base, s) && Trailing(body, s, k, c) && s.current < |body| && IsChange(body[s.current]) && k > 1
    ensures Sound(body, base, NextPart(s, body[s.current]))
    ensures Inside(body, NextPart(s, body[s.current]), k - 1, s.current)
  {
    PartSound(body, base, s, k, c);
    PartInside(body, base, s, k, c);
  }

  lemma {:induction false} PartSound(body: seq<Mark>, base: Header, s: Split, k: nat, c: int)
    requires Sound(body, base, s) && Trailing(body, s, k, c) && s.current < |body| && IsChange(body[s.current])
    ensures Sound(body, base, NextPart(s, body[s.current]))
  {
    var h := NextPart(s, body[s.current]).done[|s.done|];
    PartFits(body, base, s, k, c, h);
    SplitUpMore(body, base, s.done, h);
    PartRemains(body, base, s, k, c);
  }

  lemma {:induction false} PartInside(body: seq<Mark>, base: Header, s: Split, k: nat, c: int)
    requires Trailing(body, s, k, c) && s.current < |body| && IsChange(body[s.current]) && k > 1
    ensures Inside(body, NextPart(s, body[s.current]), k - 1, s.current)
  {
    ContextLines(body, s.next, s.current);
  }

  lemma {:induction false} PartFits(body: seq<Mark>, base: Header, s: Split, k: nat, c: int, h: Hunk)
    requires Sound(body, base, s) && Trailing(body, s, k, c) && s.current < |body|
    requires h == Hunk(s.start, s.current, Widened(s.header, s.context))
    ensures Fits(body, base, h) && HasOneGroup(body, h.start, h.end)
    ensures if s.done == [] then h.start == 0 else Overlap(body, s.done[|s.done| - 1], h)
  {
    ContextLines(body, s.next, s.current);
    OldAppend(body, s.start, s.next, s.current);
    NewAppend(body, s.start, s.next, s.current);
    assert OneGroup(body, h.start, h.end, c, s.next);
  }

  lemma {:induction false} PartRemains(body: seq<Mark>, base: Header, s: Split, k: nat, c: int)
    requires Sound(body, base, s) && Trailing(body, s, k, c) && s.current < |body|
    ensures var r := s.remaining;
            && r.oldOffset + s.header.oldCount == base.oldOffset + Old(body, 0, s.next)
               && r.oldCount - s.header.oldCount == Old(body, s.next, |body|)
            && r.newOffset + s.header.newCount == base.newOffset + New(body, 0, s.next)
               && r.newCount - s.header.newCount == New(body, s.next, |body|)
  {
    OldAppend(body, s.start, s.next, |body|);
    NewAppend(body, s.start, s.next, |body|);
    OldAppend(body, 0, s.start, s.next);
    NewAppend(body, 0, s.start, s.next);
  }

  lemma {:induction false} SplitUpMore(body: seq<Mark>, base: Header, hs: seq<Hunk>, h: Hunk)
    requires SplitUp(body, base, hs) && Fits(body, base, h) && HasOneGroup(body, h.start, h.end)
    requires if hs == [] then h.start == 0 else Overlap(body, hs[|hs| - 1], h)
    ensures SplitUp(body, base, hs + [h])
  {
    var all := hs + [h];
    forall i | 0 < i < |all| ensures OverlapAt(body, all, i) {
      if i < |hs| { assert OverlapAt(body, hs, i); }
    }
    forall i | 0 <= i < |all| ensures PartAt(body, base, all, i) {
      if i < |hs| { assert PartAt(body, base, hs, i); }
    }
  }

  /** Where the last group ends. */
  lemma {:induction false} GroupEnd(body: seq<Mark>, i: int, inside: bool) returns (d: int)
    requires 0 <= i <= |body| && Groups(body, i, inside) == 0
    ensures i <= d <= |body| && (!inside ==> d == i)
    ensures (forall k :: i <= k < d ==> body[k] != Context) && (forall k :: d <= k < |body| ==> !IsChange(body[k]))
    decreases |body| - i
  {
    if i == |body| {
      d := i;
    } else if body[i] == Context {
      d := GroupEnd(body, i + 1, false);
      d := i;
    } else {
      d := GroupEnd(body, i + 1, if body[i] == Note then inside else true);
      if !inside { d := i; }
    }
  }

  lemma {:induction false} LastPart(body: seq<Mark>, base: Header, s: Split, c: int, h: Hunk)
    requires Sound(body, base, s) && Inside(body, s, 1, c)
    requires h == Hunk(s.start, |body|, s.header.(oldCount := s.remaining.oldCount, newCount := s.remaining.newCount))
    ensures SplitUp(body, base, s.done + [h])
  {
    var d := GroupEnd(body, s.current, true);
    assert c < d;
    assert OneGroup(body, h.start, h.end, c, d);
    SplitUpMore(body, base, s.done, h);
  }

  /** The phases of split_hunk. */
  ghost predicate Splitting(body: seq<Mark>, base: Header, s: Split, k: nat, c: int) {
    Sound(body, base, s) && (Leading(body, s, k) || Inside(body, s, k, c) || Trailing(body, s, k, c))
  }

  lemma {:induction false} SplittingLine(body: seq<Mark>, base: Header, s: Split, k: nat, c: int)
    requires Splitting(body, base, s, k, c) && NotesLast(body) && k > 1
    ensures s.current < |body| && body[s.current] != Note
  {
    if Inside(body, s, k, c) && c == s.current {
      assert IsChange(body[c]);
    } else {
      MoreLines(body, s.current);
    }
  }

  /** One turn of the loop of split_hunk. */
  method SplitStep(body: seq<Mark>, s: Split, k: nat, ghost base: Header, ghost c: int)
    returns (s': Split, k': nat, ghost c': int)
    requires Splitting(body, base, s, k, c) && NotesLast(body) && k > 1
    ensures Splitting(body, base, s', k', c')
    ensures if k' == k then s'.current == s.current + 1 else k' == k - 1 && Inside(body, s', k', c')
    ensures |s'.done| == |s.done| + (k - k')
  {
    SplittingLine(body, base, s, k, c);
    var ch := body[s.current];
    k', c' := k, c;
    var t := if s.marker.Some? && IsChange(s.marker.value) && ch == Context
      then s.(first := false, next := s.current, context := 0) else s;
    if t.marker != Some(Context) || !IsChange(ch) {
      s' := Counted(t, ch);
      if Leading(body, s, k) {
        LeadingStep(body, base, s, k);
        c' := s.current;
      } else if Inside(body, s, k, c) {
        if ch == Context { InsideContext(body, base, s, k, c); } else { InsideChange(body, base, s, k, c); }
      } else {
        TrailingStep(body, base, s, k, c);
      }
    } else if t.first {
      assert t.header.oldCount == 0 && t.header.newCount == 0;
      LeadingStep(body, base, s, k);
      s' := Counted(t.(header := t.header.(oldCount := t.context, newCount := t.context),
                       context := 0, first := false), ch);
      c' := s.current;
    } else {
      PartDone(body, base, s, k, c);
      s', k', c' := NextPart(t, ch), k - 1, s.current;
    }
  }

  /** split_hunk: one part for every change group, each with a header that fits its lines; neither
      the overrun nor the miscounts it guards against can happen. */
  method SplitHunk(body: seq<Mark>, header: Header, splittable: nat) returns (hs: seq<Hunk>)
    requires splittable == Groups(body, 0, false) && NotesLast(body)
    requires header.oldCount == Old(body, 0, |body|) && header.newCount == New(body, 0, |body|)
    ensures splittable < 2 ==> hs == [Hunk(0, |body|, header)]
    ensures splittable >= 2 ==> |hs| == splittable && SplitUp(body, header, hs) && hs[|hs| - 1].end == |body|
  {
    if splittable < 2 {
      return [Hunk(0, |body|, header)];
    }
    var s := Split([], 0, header.(oldCount := 0, newCount := 0), 0, 0, None, true, 0, header);
    var k := splittable;
    ghost var c := 0;
    while k > 1
      invariant k >= 1 && Splitting(body, header, s, k, c)
      invariant (k == 1 ==> Inside(body, s, k, c)) && |s.done| == splittable - k
      decreases k, |body| - s.current
    {
      s, k, c := SplitStep(body, s, k, header, c);
    }
    assert s.header.oldOffset == s.remaining.oldOffset && s.header.newOffset == s.remaining.newOffset;
    var last := Hunk(s.start, |body|, s.header.(oldCount := s.remaining.oldCount, newCount := s.remaining.newCount));
    LastPart(body, header, s, c, last);
    hs := s.done + [last];
  }

  /** A merged part keeps a header that fits. */
  lemma {:induction false} MergedFits(body: seq<Mark>, base: Header, m: Hunk, h: Hunk)
    requires Fits(body, base, m) && Fits(body, base, h) && m.start <= h.start && m.end <= h.end
    ensures Fits(body, base, Extended(m, h))
  {
    OldAppend(body, 0, m.start, h.start);
    NewAppend(body, 0, m.start, h.start);
    OldAppend(body, m.start, h.start, h.end);
    NewAppend(body, m.start, h.start, h.end);
  }

  /** The line range extended by an overlapping part. */
  function Extended(m: Hunk, h: Hunk): Hunk {
    Hunk(m.start, h.end, Header(m.header.oldOffset, h.header.oldOffset + h.header.oldCount - m.header.oldOffset,
                                m.header.newOffset, h.header.newOffset + h.header.newCount - m.header.newOffset))
  }

  /** The tests of merge_hunks for a part that overlaps: only a part before which there is no line
      of the new file is not merged. */
  lemma {:induction false} MergeTests(body: seq<Mark>, base: Header, m: Hunk, h: Hunk)
    requires Fits(body, base, m) && Fits(body, base, h) && m.start < h.start < m.end
    ensures m.header.newOffset >= h.header.newOffset <==> New(body, m.start, h.start) == 0
    ensures m.header.newOffset + m.header.newCount >= h.header.newOffset
  {
    NewAppend(body, 0, m.start, h.start);
    NewAppend(body, m.start, h.start, m.end);
  }

  /** What merge_hunks has merged up to part `last`. */
  ghost predicate Merging(body: seq<Mark>, base: Header, hs: seq<Hunk>, index: nat, merged: Hunk, last: nat) {
    && index <= last < |hs| && merged.start == hs[index].start <= hs[last].start && merged.end == hs[last].end
    && Fits(body, base, merged)
    && (last > index ==>
          && 0 <= hs[index].start && hs[index + 1].start <= |body| && hs[index + 1].start <= hs[last].start
          && New(body, hs[index].start, hs[index + 1].start) > 0)
  }

  /** One turn of the loop of merge_hunks: only the second part can fail to be merged. */
  lemma {:induction false} MergeStep(body: seq<Mark>, base: Header, hs: seq<Hunk>, index: nat, merged: Hunk, last: nat)
    requires SplitUp(body, base, hs) && Merging(body, base, hs, index, merged, last) && last + 1 < |hs|
    ensures var h := hs[last + 1].header;
            && merged.header.newOffset + merged.header.newCount >= h.newOffset
            && (merged.header.newOffset >= h.newOffset <==>
               last == index && EmptyBefore(body, hs[index].start, hs[index + 1].start))
            && (merged.header.newOffset < h.newOffset ==>
               Merging(body, base, hs, index, Extended(merged, hs[last + 1]), last + 1))
  {
    var h := hs[last + 1];
    assert OverlapAt(body, hs, last + 1) && PartAt(body, base, hs, last + 1);
    MergeTests(body, base, merged, h);
    MergedFits(body, base, merged, h);
    if last > index { NewAppend(body, hs[index].start, hs[index + 1].start, h.start); }
  }

  /** merge_hunks for the parts of a split from `index` on: it goes on to the first part that is not
      selected, unless there is no line of the new file before the second part. `ok` says that parts
      were merged. */
  method MergeHunks(body: seq<Mark>, hs: seq<Hunk>, use: seq<bool>, useAll: bool, index: nat, ghost base: Header)
    returns (ok: bool, merged: Hunk, last: nat)
    requires SplitUp(body, base, hs) && |use| == |hs| && index < |hs|
    ensures Merging(body, base, hs, index, merged, last) && (ok <==> last > index)
    ensures ok ==> forall j :: index <= j <= last ==> useAll || use[j]
    ensures (useAll || use[index]) && last + 1 < |hs| ==>
              !(useAll || use[last + 1])
                || (last == index && EmptyBefore(body, hs[index].start, hs[index + 1].start))
  {
    merged, last := hs[index], index;
    assert PartAt(body, base, hs, index);
    if !(useAll || use[index]) {
      return false, merged, last;
    }
    while last + 1 < |hs|
      invariant Merging(body, base, hs, index, merged, last)
      invariant forall j :: index < j <= last ==> useAll || use[j]
      decreases |hs| - last
    {
      var longer := MergeNext(body, hs, useAll || use[last + 1], index, merged, last, base);
      if longer.None? {
        break;
      }
      merged, last := longer.value, last + 1;
    }
    ok := last != index;
  }

  /** The tests for the next part, and the hunk extended by it. */
  method MergeNext(ghost body: seq<Mark>, hs: seq<Hunk>, selected: bool, ghost index: nat, merged: Hunk, last: nat,
                   ghost base: Header)
    returns (longer: Option<Hunk>)
    requires SplitUp(body, base, hs) && Merging(body, base, hs, index, merged, last) && last + 1 < |hs|
    ensures longer.Some? ==> selected && Merging(body, base, hs, index, longer.value, last + 1)
    ensures longer.None? ==> !selected || (last == index && EmptyBefore(body, hs[index].start, hs[index + 1].start))
  {
    var h := hs[last + 1];
    MergeStep(body, base, hs, index, merged, last);
    if !selected || merged.header.newOffset >= h.header.newOffset
       || merged.header.newOffset + merged.header.newCount < h.header.newOffset {
      return None;
    }
    return Some(Extended(merged, h));
  }

  /** No line of the new file in [a, b). */
  ghost predicate EmptyBefore(body: seq<Mark>, a: int, b: int) {
    0 <= a && b <= |body| && New(body, a, b) == 0
  }

  // ---- splitting and merging all ----

  function FirstChange(body: seq<Mark>, i: int): (r: int)
    requires 0 <= i <= |body|
    ensures i <= r <= |body| && (r < |body| ==> IsChange(body[r])) && forall k :: i <= k < r ==> !IsChange(body[k])
    decreases |body| - i
  {
    if i == |body| || IsChange(body[i]) then i else FirstChange(body, i + 1)
  }

  function FirstContext(body: seq<Mark>, i: int): (r: int)
    requires 0 <= i <= |body|
    ensures i <= r <= |body| && (r < |body| ==> body[r] == Context) && forall k :: i <= k < r ==> body[k] != Context
    decreases |body| - i
  {
    if i == |body| || body[i] == Context then i else FirstContext(body, i + 1)
  }

  /** The first context line after the first change group. */
  function SecondStart(body: seq<Mark>): int {
    FirstContext(body, FirstChange(body, 0))
  }

  /** The first line, or some line of the first change group, is in the new file. */
  ghost predicate BeginsInNew(body: seq<Mark>) {
    && body != []
    && (body[0] == Context || exists i :: 0 <= i < SecondStart(body) && body[i] == Added)
  }

  lemma {:induction false} NewLines(body: seq<Mark>, a: int, b: int)
    requires 0 <= a <= b <= |body|
    ensures New(body, a, b) > 0 <==> exists i :: a <= i < b && (body[i] == Context || body[i] == Added)
    decreases b
  {
    if a < b {
      NewLines(body, a, b - 1);
      if New(body, a, b - 1) > 0 {
        var i :| a <= i < b - 1 && (body[i] == Context || body[i] == Added);
        assert a <= i < b;
      } else if body[b - 1] == Context || body[b - 1] == Added {
        assert New(body, a, b) > 0;
      }
    }
  }

  /** A hunk with a change group that may have notes only later does not begin with one. */
  lemma {:induction false} BeginsPlainly(body: seq<Mark>)
    requires NotesLast(body) && Groups(body, 0, false) > 0
    ensures body != [] && body[0] != Note
  {
    MoreLines(body, 0);
  }

  /** There is a line of the new file before the second part exactly if the hunk begins in it. */
  lemma {:induction false} NewBefore(body: seq<Mark>)
    requires NotesLast(body) && Groups(body, 0, false) > 0
    ensures New(body, 0, SecondStart(body)) > 0 <==> BeginsInNew(body)
  {
    BeginsPlainly(body);
    NewLines(body, 0, SecondStart(body));
    if body[0] == Context {
      assert SecondStart(body) > 0;
    } else {
      assert FirstChange(body, 0) == 0;
    }
  }

  /** The second part starts with the first context line after the first change group. */
  lemma {:induction false} SecondPart(body: seq<Mark>, base: Header, hs: seq<Hunk>)
    requires SplitUp(body, base, hs) && |hs| >= 2
    ensures hs[1].start == SecondStart(body)
  {
    assert OverlapAt(body, hs, 1) && PartAt(body, base, hs, 0);
    var c, d :| OneGroup(body, hs[0].start, hs[0].end, c, d);
    GroupIsFirst(body, hs[0].end, c, d, hs[1].start);
  }

  lemma {:induction false} GroupIsFirst(body: seq<Mark>, end: int, c: int, d: int, j: int)
    requires OneGroup(body, 0, end, c, d) && 0 < j < end && body[j] == Context && IsChange(body[j - 1])
    ensures j == SecondStart(body)
  {
    assert FirstChange(body, 0) == c;
    assert j == d;
    assert FirstContext(body, c) == d;
  }

  /** Splitting a hunk and merging all parts gives back its range, offsets and counts exactly if the
      first line, or a line of the first change group, is in the new file. */
  method SplitAndMerge(body: seq<Mark>, header: Header) returns (hs: seq<Hunk>, merged: Hunk)
    requires NotesLast(body) && Groups(body, 0, false) >= 2
    requires header.oldCount == Old(body, 0, |body|) && header.newCount == New(body, 0, |body|)
    ensures |hs| == Groups(body, 0, false) && SplitUp(body, header, hs) && hs[|hs| - 1].end == |body|
    ensures merged == Hunk(0, |body|, header) <==> BeginsInNew(body)
  {
    var n := SplittableInto(body);
    hs := SplitHunk(body, header, n);
    var ok, last;
    ok, merged, last := MergeHunks(body, hs, seq(|hs|, _ => true), true, 0, header);
    SecondPart(body, header, hs);
    NewBefore(body);
    EndsBefore(body, header, hs, |hs| - 1);
    if ok { assert last == |hs| - 1; }
  }

  lemma {:induction false} EndsBefore(body: seq<Mark>, base: Header, hs: seq<Hunk>, i: nat)
    requires SplitUp(body, base, hs) && 0 < i < |hs|
    ensures hs[0].end < hs[i].end
    decreases i
  {
    assert OverlapAt(body, hs, i) && PartAt(body, base, hs, i);
    if i > 1 {
      EndsBefore(body, base, hs, i - 1);
    } else {
      var c, d :| OneGroup(body, hs[1].start, hs[1].end, c, d);
    }
  }

  lemma {:induction false} DeletionBody(body: seq<Mark>)
    requires body == [Deleted, Context, Added]
    ensures NotesLast(body) && Groups(body, 0, false) == 2
    ensures Old(body, 0, 3) == 2 && New(body, 0, 3) == 2 && !BeginsInNew(body)
  {
    assert Groups(body, 3, true) == 0;
    assert Groups(body, 2, false) == 1;
    assert Groups(body, 1, true) == 1;
    assert Old(body, 0, 0) == 0 && New(body, 0, 0) == 0;
    assert Old(body, 0, 1) == 1 && New(body, 0, 1) == 0;
    assert Old(body, 0, 2) == 2 && New(body, 0, 2) == 1;
    assert FirstChange(body, 0) == 0 && FirstContext(body, 1) == 1;
  }

  /** A hunk that begins with a deletion alone is split into parts that are not merged again. */
  method DeletionFirst(oldOffset: int, newOffset: int) returns (header: Header, hs: seq<Hunk>, merged: Hunk)
    ensures header == Header(oldOffset, 2, newOffset, 2) && |hs| == 2 && SplitUp([Deleted, Context, Added], header, hs)
    ensures merged != Hunk(0, 3, header)
  {
    var body := [Deleted, Context, Added];
    DeletionBody(body);
    header := Header(oldOffset, 2, newOffset, 2);
    hs, merged := SplitAndMerge(body, header);
  }
}
