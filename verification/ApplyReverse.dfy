/** Applying hunks at their stated positions, and undoing it with the patch reversed. */
module ApplyReverse {
  import opened Bytes

  datatype Kind = Context | Deleted | Added

  /** A line of a hunk, with its newline. */
  datatype HunkLine = HunkLine(kind: Kind, text: Text)

  /** struct fragment: stated positions and counts, and the lines. */
  datatype Hunk = Hunk(oldpos: nat, oldlines: nat, newpos: nat, newlines: nat, body: seq<HunkLine>)

  /** reverse_patches, for one hunk; the signs of the lines are turned when it is applied. */
  function Swapped(h: Hunk): Hunk { Hunk(h.newpos, h.newlines, h.oldpos, h.oldlines, h.body) }

  /** The lines that must be there, and the lines that replace them. */
  function Side(body: seq<HunkLine>, gone: Kind): seq<Text> {
    if body == [] then []
    else if body[|body| - 1].kind == gone then Side(body[..|body| - 1], gone)
    else Side(body[..|body| - 1], gone) + [body[|body| - 1].text]
  }

  function Pre(h: Hunk, reverse: bool): seq<Text> { Side(h.body, if reverse then Deleted else Added) }
  function Post(h: Hunk, reverse: bool): seq<Text> { Side(h.body, if reverse then Added else Deleted) }

  /** The number of context lines at the end, as parse_fragment counts them. */
  function Trailing(body: seq<HunkLine>): nat {
    if body == [] || body[|body| - 1].kind != Context then 0 else 1 + Trailing(body[..|body| - 1])
  }

  /** A line of the image and whether a hunk put it there. */
  datatype Cell = Cell(text: Text, patched: bool)

  function Cells(texts: seq<Text>, patched: bool): (r: seq<Cell>)
    ensures |r| == |texts| && forall i :: 0 <= i < |r| ==> r[i] == Cell(texts[i], patched)
  {
    seq(|texts|, i requires 0 <= i < |texts| => Cell(texts[i], patched))
  }

  function MatchBeginning(h: Hunk): bool { h.oldpos == 0 || h.oldpos == 1 }
  function MatchEnd(h: Hunk): bool { Trailing(h.body) == 0 }
  function Stated(h: Hunk): nat { if h.newpos == 0 then 0 else h.newpos - 1 }

  /** The lines stand at `pos`, none of them patched. */
  ghost predicate StandsAt(view: seq<Cell>, lines: seq<Text>, pos: nat, matchBeginning: bool, matchEnd: bool) {
    && pos + |lines| <= |view| && (matchEnd ==> pos + |lines| == |view|) && (matchBeginning ==> pos == 0)
    && view[pos..pos + |lines|] == Cells(lines, false)
  }

  function Splice(view: seq<Cell>, pos: nat, n: nat, lines: seq<Text>): seq<Cell>
    requires pos + n <= |view|
  {
    view[..pos] + Cells(lines, true) + view[pos + n..]
  }

  /** From hunk `i` on, every hunk stands at its stated position when its turn comes. */
  ghost predicate Stands(view: seq<Cell>, hs: seq<Hunk>, reverse: bool, i: nat)
    requires i <= |hs|
    decreases |hs| - i
  {
    i < |hs| ==>
      && StandsAt(view, Pre(hs[i], reverse), Stated(hs[i]), MatchBeginning(hs[i]), MatchEnd(hs[i]))
      && Stands(Splice(view, Stated(hs[i]), |Pre(hs[i], reverse)|, Post(hs[i], reverse)), hs, reverse, i + 1)
  }

  /** The image after the hunks from `i` on. */
  function Outcome(view: seq<Cell>, hs: seq<Hunk>, reverse: bool, i: nat): seq<Cell>
    requires i <= |hs| && Stands(view, hs, reverse, i)
    decreases |hs| - i
  {
    if i == |hs| then view
    else Outcome(Splice(view, Stated(hs[i]), |Pre(hs[i], reverse)|, Post(hs[i], reverse)), hs, reverse, i + 1)
  }

  function Reversed(hs: seq<Hunk>): (r: seq<Hunk>)
    ensures |r| == |hs| && forall i :: 0 <= i < |hs| ==> r[i] == Swapped(hs[i])
  {
    seq(|hs|, i requires 0 <= i < |hs| => Swapped(hs[i]))
  }

  /** Where the hunks before hunk `i` end in the old and in the new file. */
  function EndOld(hs: seq<Hunk>, i: nat): nat
    requires i <= |hs|
  {
    if i == 0 || hs[i - 1].oldpos == 0 then 0 else hs[i - 1].oldpos - 1 + hs[i - 1].oldlines
  }

  function EndNew(hs: seq<Hunk>, i: nat): nat
    requires i <= |hs|
  {
    if i == 0 || hs[i - 1].newpos == 0 then 0 else hs[i - 1].newpos - 1 + hs[i - 1].newlines
  }

  /** A well-formed patch: every hunk has old and new lines, counted right; ranges increase, and
      new positions are off by what the hunks before have grown. */
  ghost predicate WellFormed(hs: seq<Hunk>) {
    forall i :: 0 <= i < |hs| ==> WellFormedHunk(hs, i)
  }

  ghost predicate WellFormedHunk(hs: seq<Hunk>, i: nat) {
    i < |hs| &&
    var h := hs[i];
    && h.oldpos > 0 && h.newpos > 0 && h.oldlines > 0 && h.newlines > 0
    && h.oldlines == |Pre(h, false)| && h.newlines == |Post(h, false)|
    && EndOld(hs, i) <= h.oldpos - 1 && h.newpos - 1 - EndNew(hs, i) == h.oldpos - 1 - EndOld(hs, i)
  }

  /** The new file from where hunk `i - 1` ended. */
  function NewFrom(orig: seq<Text>, hs: seq<Hunk>, i: nat): seq<Text>
    requires i <= |hs|
    decreases |hs| - i
  {
    if EndOld(hs, i) > |orig| then []
    else if i == |hs| then orig[EndOld(hs, i)..]
    else if EndOld(hs, i) <= hs[i].oldpos - 1 <= |orig| then
      orig[EndOld(hs, i)..hs[i].oldpos - 1] + Post(hs[i], false) + NewFrom(orig, hs, i + 1)
    else []
  }

  /** The old lines of hunk `i` are in the original, at its end if there is no trailing context. */
  ghost predicate InOriginal(orig: seq<Text>, hs: seq<Hunk>, i: nat) {
    i < |hs| && hs[i].oldpos > 0 &&
    var a, n := hs[i].oldpos - 1, |Pre(hs[i], false)|;
    a + n <= |orig| && orig[a..a + n] == Pre(hs[i], false) && (MatchEnd(hs[i]) ==> a + n == |orig|)
  }

  function Texts(view: seq<Cell>): (r: seq<Text>)
    ensures |r| == |view| && forall i :: 0 <= i < |r| ==> r[i] == view[i].text
  {
    seq(|view|, i requires 0 <= i < |view| => view[i].text)
  }

  lemma {:induction false} TextsAppend(s: seq<Cell>, t: seq<Cell>)
    ensures Texts(s + t) == Texts(s) + Texts(t)
  {
  }

  lemma {:induction false} TextsOfCells(texts: seq<Text>, patched: bool)
    ensures Texts(Cells(texts, patched)) == texts
  {
  }

  /** One hunk forward: with `front` before it the image is `front` and the rest of the original. */
  lemma {:induction false} ForwardStep(front: seq<Cell>, orig: seq<Text>, hs: seq<Hunk>, i: nat, view: seq<Cell>)
    requires i < |hs| && WellFormedHunk(hs, i) && |front| == EndNew(hs, i) && EndOld(hs, i) <= |orig|
    requires view == front + Cells(orig[EndOld(hs, i)..], false)
    requires StandsAt(view, Pre(hs[i], false), Stated(hs[i]), MatchBeginning(hs[i]), MatchEnd(hs[i]))
    ensures InOriginal(orig, hs, i) && EndOld(hs, i + 1) <= |orig|
    ensures var front' := front + Cells(orig[EndOld(hs, i)..hs[i].oldpos - 1], false) + Cells(Post(hs[i], false), true);
            && |front'| == EndNew(hs, i + 1)
            && Splice(view, Stated(hs[i]), |Pre(hs[i], false)|, Post(hs[i], false)) ==
               front' + Cells(orig[EndOld(hs, i + 1)..], false)
  {
    var h, c, d := hs[i], EndOld(hs, i), EndNew(hs, i);
    var a, b, n := h.oldpos - 1, h.newpos - 1, |Pre(h, false)|;
    assert |view| == d + (|orig| - c) && b - d == a - c;
    ForwardStands(front, orig, c, a, b, view, Pre(h, false));
    ForwardCut(front, orig, c, a, b, view, n);
  }

  /** Where the lines stand in the image, they stand in the original. */
  lemma {:induction false} ForwardStands(front: seq<Cell>, orig: seq<Text>, c: nat, a: nat, b: nat, view: seq<Cell>,
                                         pre: seq<Text>)
    requires c <= |orig| && view == front + Cells(orig[c..], false) && c <= a && b - |front| == a - c
    requires b + |pre| <= |view| && view[b..b + |pre|] == Cells(pre, false)
    ensures a + |pre| <= |orig| && orig[a..a + |pre|] == pre
  {
    var n, d := |pre|, |front|;
    forall k | 0 <= k < n ensures orig[a + k] == pre[k] {
      assert view[b..b + n][k] == Cells(pre, false)[k];
      assert view[b + k] == Cells(orig[c..], false)[b + k - d];
    }
    assert orig[a..a + n] == pre;
  }

  lemma {:induction false} ForwardCut(front: seq<Cell>, orig: seq<Text>, c: nat, a: nat, b: nat, view: seq<Cell>,
                                      n: nat)
    requires c <= a && a + n <= |orig| && view == front + Cells(orig[c..], false)
    requires b - |front| == a - c && b + n <= |view|
    ensures view[..b] == front + Cells(orig[c..a], false) && view[b + n..] == Cells(orig[a + n..], false)
  {
  }

  ghost predicate AllInOriginal(orig: seq<Text>, hs: seq<Hunk>, i: nat) {
    forall j :: i <= j < |hs| ==> InOriginal(orig, hs, j)
  }

  /** The image once hunk `i` is applied, with `front` before the rest of the original. */
  function Onward(front: seq<Cell>, orig: seq<Text>, hs: seq<Hunk>, i: nat): seq<Cell>
    requires i < |hs| && EndOld(hs, i) <= hs[i].oldpos - 1 <= |orig|
  {
    front + Cells(orig[EndOld(hs, i)..hs[i].oldpos - 1], false) + Cells(Post(hs[i], false), true)
  }

  /** The hunks apply forward at their stated positions only if their old lines are in the
      original. */
  lemma {:induction false} ForwardInOriginal(front: seq<Cell>, orig: seq<Text>, hs: seq<Hunk>, i: nat, view: seq<Cell>)
    requires WellFormed(hs) && i <= |hs| && |front| == EndNew(hs, i) && EndOld(hs, i) <= |orig|
    requires view == front + Cells(orig[EndOld(hs, i)..], false) && Stands(view, hs, false, i)
    ensures AllInOriginal(orig, hs, i)
    decreases |hs| - i
  {
    if i < |hs| {
      assert WellFormedHunk(hs, i);
      ForwardStep(front, orig, hs, i, view);
      ForwardInOriginal(Onward(front, orig, hs, i), orig, hs, i + 1,
                        Splice(view, Stated(hs[i]), |Pre(hs[i], false)|, Post(hs[i], false)));
    }
  }

  /** They make `NewFrom` of it. */
  lemma {:induction false} ForwardRun(front: seq<Cell>, orig: seq<Text>, hs: seq<Hunk>, i: nat, view: seq<Cell>)
    requires WellFormed(hs) && i <= |hs| && |front| == EndNew(hs, i) && EndOld(hs, i) <= |orig|
    requires view == front + Cells(orig[EndOld(hs, i)..], false) && Stands(view, hs, false, i)
    ensures Texts(Outcome(view, hs, false, i)) == Texts(front) + NewFrom(orig, hs, i)
    decreases |hs| - i
  {
    if i == |hs| {
      TextsAppend(front, Cells(orig[EndOld(hs, i)..], false));
      TextsOfCells(orig[EndOld(hs, i)..], false);
    } else {
      assert WellFormedHunk(hs, i);
      ForwardStep(front, orig, hs, i, view);
      var gap, post := orig[EndOld(hs, i)..hs[i].oldpos - 1], Post(hs[i], false);
      var view' := Splice(view, Stated(hs[i]), |Pre(hs[i], false)|, post);
      ForwardRun(Onward(front, orig, hs, i), orig, hs, i + 1, view');
      NewFromStep(orig, hs, i);
      TextsJoin(front, gap, post, NewFrom(orig, hs, i + 1), Texts(Outcome(view', hs, false, i + 1)));
    }
  }

  lemma {:induction false} TextsJoin(front: seq<Cell>, gap: seq<Text>, post: seq<Text>, rest: seq<Text>, all: seq<Text>)
    requires all == Texts(front + Cells(gap, false) + Cells(post, true)) + rest
    ensures all == Texts(front) + (gap + post + rest)
  {
    TextsOfFront(front, gap, post);
  }

  lemma {:induction false} TextsOfFront(front: seq<Cell>, gap: seq<Text>, post: seq<Text>)
    ensures Texts(front + Cells(gap, false) + Cells(post, true)) == Texts(front) + gap + post
  {
    TextsAppend(front + Cells(gap, false), Cells(post, true));
    TextsAppend(front, Cells(gap, false));
    TextsOfCells(gap, false);
    TextsOfCells(post, true);
  }

  lemma {:induction false} NewFromStep(orig: seq<Text>, hs: seq<Hunk>, i: nat)
    requires i < |hs| && WellFormedHunk(hs, i) && InOriginal(orig, hs, i)
    ensures EndOld(hs, i) <= hs[i].oldpos - 1 <= |orig|
    ensures NewFrom(orig, hs, i) == orig[EndOld(hs, i)..hs[i].oldpos - 1] + Post(hs[i], false) +
            NewFrom(orig, hs, i + 1)
  {
  }

  /** A hunk without trailing context is the last, and nothing comes after it. */
  lemma {:induction false} NothingAfter(orig: seq<Text>, hs: seq<Hunk>, i: nat)
    requires WellFormed(hs) && i < |hs| && MatchEnd(hs[i]) && AllInOriginal(orig, hs, i)
    ensures NewFrom(orig, hs, i + 1) == []
  {
    assert WellFormedHunk(hs, i) && InOriginal(orig, hs, i);
    if i + 1 < |hs| {
      assert WellFormedHunk(hs, i + 1) && InOriginal(orig, hs, i + 1);
    }
  }

  /** One hunk in reverse: it stands at its stated position ... */
  lemma {:induction false} ReverseStands(front: seq<Cell>, orig: seq<Text>, hs: seq<Hunk>, i: nat, view: seq<Cell>)
    requires WellFormed(hs) && i < |hs| && |front| == EndOld(hs, i) && AllInOriginal(orig, hs, i)
    requires view == front + Cells(NewFrom(orig, hs, i), false)
    ensures var h := Swapped(hs[i]); StandsAt(view, Pre(h, true), Stated(h), MatchBeginning(h), MatchEnd(h))
  {
    assert WellFormedHunk(hs, i) && InOriginal(orig, hs, i);
    NewFromStep(orig, hs, i);
    if MatchEnd(hs[i]) { NothingAfter(orig, hs, i); }
    if i > 0 { assert WellFormedHunk(hs, i - 1); }
    ViewParts(front, orig[EndOld(hs, i)..hs[i].oldpos - 1], Post(hs[i], false), NewFrom(orig, hs, i + 1), view);
  }

  /** ... and the original is back up to its end. */
  function Backward(front: seq<Cell>, orig: seq<Text>, hs: seq<Hunk>, i: nat): seq<Cell>
    requires i < |hs| && EndOld(hs, i) <= hs[i].oldpos - 1 <= |orig|
  {
    front + Cells(orig[EndOld(hs, i)..hs[i].oldpos - 1], false) + Cells(Pre(hs[i], false), true)
  }

  lemma {:induction false} ReverseFront(front: seq<Cell>, orig: seq<Text>, hs: seq<Hunk>, i: nat)
    requires i < |hs| && WellFormedHunk(hs, i) && InOriginal(orig, hs, i)
    requires |front| == EndOld(hs, i) && Texts(front) == orig[..EndOld(hs, i)]
    ensures |Backward(front, orig, hs, i)| == EndOld(hs, i + 1) <= |orig|
    ensures Texts(Backward(front, orig, hs, i)) == orig[..EndOld(hs, i + 1)]
  {
    var c, a, pre := EndOld(hs, i), hs[i].oldpos - 1, Pre(hs[i], false);
    TextsOfFront(front, orig[c..a], pre);
    Adjoining(orig, c, a, a + |pre|);
  }

  lemma {:induction false} ReverseSplice(front: seq<Cell>, orig: seq<Text>, hs: seq<Hunk>, i: nat, view: seq<Cell>)
    requires i < |hs| && WellFormedHunk(hs, i) && InOriginal(orig, hs, i) && |front| == EndOld(hs, i)
    requires view == front + Cells(NewFrom(orig, hs, i), false) && hs[i].oldpos - 1 + |Post(hs[i], false)| <= |view|
    ensures Splice(view, hs[i].oldpos - 1, |Post(hs[i], false)|, Pre(hs[i], false)) == Backward(front, orig, hs, i) +
            Cells(NewFrom(orig, hs, i + 1), false)
  {
    NewFromStep(orig, hs, i);
    ViewParts(front, orig[EndOld(hs, i)..hs[i].oldpos - 1], Post(hs[i], false), NewFrom(orig, hs, i + 1), view);
  }

  lemma {:induction false} ViewParts(front: seq<Cell>, gap: seq<Text>, post: seq<Text>, rest: seq<Text>,
                                     view: seq<Cell>)
    requires view == front + Cells(gap + post + rest, false)
    ensures var a := |front| + |gap|;
            && |view| == a + |post| + |rest| && view[..a] == front + Cells(gap, false)
            && view[a..a + |post|] == Cells(post, false) && view[a + |post|..] == Cells(rest, false)
  {
    assert Cells(gap + post + rest, false) == Cells(gap, false) + Cells(post, false) + Cells(rest, false);
  }

  lemma {:induction false} Adjoining(orig: seq<Text>, c: nat, a: nat, b: nat)
    requires c <= a <= b <= |orig|
    ensures orig[..c] + orig[c..a] + orig[a..b] == orig[..b]
  {
  }

  /** From any hunk on, the reversed patch applies at its stated positions and gives back the
      original. */
  lemma {:induction false} ReverseRun(front: seq<Cell>, orig: seq<Text>, hs: seq<Hunk>, i: nat, view: seq<Cell>)
    requires WellFormed(hs) && i <= |hs| && |front| == EndOld(hs, i) <= |orig| && Texts(front) == orig[..EndOld(hs, i)]
    requires AllInOriginal(orig, hs, i) && view == front + Cells(NewFrom(orig, hs, i), false)
    ensures Stands(view, Reversed(hs), true, i) && Texts(Outcome(view, Reversed(hs), true, i)) == orig
    decreases |hs| - i
  {
    if i == |hs| {
      TextsAppend(front, Cells(NewFrom(orig, hs, i), false));
      TextsOfCells(NewFrom(orig, hs, i), false);
    } else {
      assert WellFormedHunk(hs, i) && InOriginal(orig, hs, i);
      ReverseStands(front, orig, hs, i, view);
      ReverseFront(front, orig, hs, i);
      ReverseSplice(front, orig, hs, i, view);
      ReverseRun(Backward(front, orig, hs, i), orig, hs, i + 1,
                 Splice(view, hs[i].oldpos - 1, |Post(hs[i], false)|, Pre(hs[i], false)));
    }
  }

  /** A well-formed patch whose hunks all apply at their stated positions, applied in reverse to
      the outcome, lands every hunk at its stated position and restores the original. */
  lemma {:induction false} ReverseRestores(orig: seq<Text>, hs: seq<Hunk>)
    requires WellFormed(hs) && Stands(Cells(orig, false), hs, false, 0)
    ensures var patched := Texts(Outcome(Cells(orig, false), hs, false, 0));
            && Stands(Cells(patched, false), Reversed(hs), true, 0)
            && Texts(Outcome(Cells(patched, false), Reversed(hs), true, 0)) == orig
  {
    assert orig[0..] == orig;
    assert Cells(orig, false) == [] + Cells(orig, false);
    ForwardInOriginal([], orig, hs, 0, Cells(orig, false));
    ForwardRun([], orig, hs, 0, Cells(orig, false));
    var patched := NewFrom(orig, hs, 0);
    assert Texts([]) + patched == patched;
    assert Cells(patched, false) == [] + Cells(patched, false);
    ReverseRun([], orig, hs, 0, Cells(patched, false));
  }
}
