/** Applying the hunks of a patch to an image (update_image, apply_one_fragment,
apply_fragments). */
module ApplyPatch {
  import opened Bytes
  import opened ApplyImage
  import opened ApplyReverse

  function Concat(texts: seq<Text>): Text {
    if texts == [] then [] else texts[0] + Concat(texts[1..])
  }

  lemma {:induction false} ConcatAppend(s: seq<Text>, t: seq<Text>)
    ensures Concat(s + t) == Concat(s) + Concat(t)
  {
    if s == [] {
      assert s + t == t;
    } else {
      assert (s + t)[1..] == s[1..] + t;
      ConcatAppend(s[1..], t);
    }
  }

  lemma {:induction false} ConcatOne(t: Text)
    ensures Concat([t]) == t
  {
    assert Concat([t]) == t + Concat([t][1..]);
  }

  /** A complete line. */
  ghost predicate Good(t: Text) { IsLine(t) && Terminated(t) }

  ghost predicate AllGood(texts: seq<Text>) { forall i :: 0 <= i < |texts| ==> Good(texts[i]) }

  ghost predicate Fits(l: Line, t: Text) { l.len == |t| && l.hash == HashLine(t) }

  /** The image holds these lines, all complete. */
  ghost predicate Holds(img: Image, texts: seq<Text>) {
    && |img.line| == |texts| && img.buf == Concat(texts) && AllGood(texts)
    && forall i :: 0 <= i < |texts| ==> Fits(img.line[i], texts[i])
  }

  lemma {:induction false} OffsetIsLength(img: Image, texts: seq<Text>, k: nat)
    requires Holds(img, texts) && k <= |texts|
    ensures Offset(img.line, k) == |Concat(texts[..k])|
  {
    if k > 0 {
      OffsetIsLength(img, texts, k - 1);
      assert texts[..k] == texts[..k - 1] + [texts[k - 1]];
      ConcatAppend(texts[..k - 1], [texts[k - 1]]);
      ConcatOne(texts[k - 1]);
      assert Fits(img.line[k - 1], texts[k - 1]);
    }
  }

  lemma {:induction false} HoldsCovers(img: Image, texts: seq<Text>)
    requires Holds(img, texts)
    ensures Covers(img)
  {
    OffsetIsLength(img, texts, |texts|);
    assert texts[..|texts|] == texts;
  }

  lemma {:induction false} HoldsLine(img: Image, texts: seq<Text>, i: nat)
    requires Holds(img, texts) && i < |texts|
    ensures Covers(img) && LineText(img, i) == texts[i]
  {
    HoldsCovers(img, texts);
    OffsetIsLength(img, texts, i);
    OffsetIsLength(img, texts, i + 1);
    assert texts == texts[..i] + ([texts[i]] + texts[i + 1..]);
    ConcatAppend(texts[..i], [texts[i]] + texts[i + 1..]);
    ConcatAppend([texts[i]], texts[i + 1..]);
    ConcatOne(texts[i]);
    assert Fits(img.line[i], texts[i]);
    Middle(Concat(texts[..i]), texts[i], Concat(texts[i + 1..]));
  }

  lemma {:induction false} Middle(a: Text, b: Text, c: Text)
    ensures (a + (b + c))[|a|..|a| + |b|] == b
  {
  }

  lemma {:induction false} HoldsComplete(img: Image, texts: seq<Text>)
    requires Holds(img, texts)
    ensures Complete(img)
  {
    HoldsCovers(img, texts);
    forall i | 0 <= i < |img.line| ensures ValidLine(img, i) && Terminated(LineText(img, i)) {
      HoldsLine(img, texts, i);
      assert Fits(img.line[i], texts[i]) && Good(texts[i]);
    }
  }

  lemma {:induction false} NotEmpty(s: seq<Text>)
    requires s != [] && AllGood(s)
    ensures Concat(s) != []
  {
    assert Good(s[0]);
  }

  /** A buffer is made of complete lines in one way only. */
  lemma {:induction false} OneSplit(s: seq<Text>, t: seq<Text>)
    requires AllGood(s) && AllGood(t) && Concat(s) == Concat(t)
    ensures s == t
  {
    if s == [] || t == [] {
      if s != [] { NotEmpty(s); }
      if t != [] { NotEmpty(t); }
    } else {
      assert Good(s[0]) && Good(t[0]);
      FirstLineSame(s[0], Concat(s[1..]), t[0], Concat(t[1..]));
      assert AllGood(s[1..]) && AllGood(t[1..]);
      OneSplit(s[1..], t[1..]);
      assert s == [s[0]] + s[1..] && t == [t[0]] + t[1..];
    }
  }

  lemma {:induction false} FirstLineSame(s: Text, s': Text, t: Text, t': Text)
    requires Good(s) && Good(t) && s + s' == t + t'
    ensures s == t && s' == t'
  {
    var long := s + s';
    assert long[..|s|] == s && long[..|t|] == t;
    SameEnd(s, t, long, false);
    assert long[|s|..] == s' && (t + t')[|t|..] == t';
  }

  /** The image shows these lines with these marks. */
  ghost predicate Shows(img: Image, view: seq<Cell>) {
    Holds(img, Texts(view)) && forall i :: 0 <= i < |view| ==> img.line[i].patched == view[i].patched
  }

  /** image_add_line, with the text appended to the buffer. */
  function AddLine(img: Image, text: Text): Image {
    Image(img.buf + text, img.line + [Line(|text|, HashLine(text), false)])
  }

  lemma {:induction false} AddLineHolds(img: Image, texts: seq<Text>, text: Text)
    requires Holds(img, texts) && Good(text)
    ensures Holds(AddLine(img, text), texts + [text])
  {
    ConcatAppend(texts, [text]);
    ConcatOne(text);
    var img' := AddLine(img, text);
    forall i | 0 <= i < |texts + [text]| ensures Fits(img'.line[i], (texts + [text])[i]) {
      if i < |texts| { assert Fits(img.line[i], texts[i]); }
    }
  }

  ghost predicate GoodBody(body: seq<HunkLine>) { forall i :: 0 <= i < |body| ==> Good(body[i].text) }

  lemma {:induction false} SideMore(body: seq<HunkLine>, i: nat, gone: Kind)
    requires i < |body|
    ensures Side(body[..i + 1], gone) ==
            if body[i].kind == gone then Side(body[..i], gone) else Side(body[..i], gone) + [body[i].text]
  {
    assert body[..i + 1][..i] == body[..i];
  }

  /** The two images of a hunk: context and lines to go, context and lines to come. */
  method BuildImages(h: Hunk, reverse: bool) returns (pre: Image, post: Image)
    requires GoodBody(h.body)
    ensures Holds(pre, Pre(h, reverse)) && Holds(post, Post(h, reverse))
  {
    var added, deleted := if reverse then Deleted else Added, if reverse then Added else Deleted;
    pre, post := Image([], []), Image([], []);
    for i := 0 to |h.body|
      invariant Holds(pre, Side(h.body[..i], added)) && Holds(post, Side(h.body[..i], deleted))
    {
      var l := h.body[i];
      SideMore(h.body, i, added);
      SideMore(h.body, i, deleted);
      if l.kind != added {
        AddLineHolds(pre, Side(h.body[..i], added), l.text);
        pre := AddLine(pre, l.text);
      }
      if l.kind != deleted {
        AddLineHolds(post, Side(h.body[..i], deleted), l.text);
        post := AddLine(post, l.text);
      }
    }
    assert h.body[..|h.body|] == h.body;
  }

  /** The lines of the fragment are in the image exactly if its cells are in the view. */
  lemma {:induction false} AppliesMeans(img: Image, view: seq<Cell>, pre: Image, lines: seq<Text>, pos: nat,
                                        matchBeginning: bool, matchEnd: bool)
    requires Shows(img, view) && Holds(pre, lines)
    ensures Covers(img) && Covers(pre)
    ensures Applies(img, pre, pos, matchBeginning, matchEnd) <==> StandsAt(view, lines, pos, matchBeginning, matchEnd)
  {
    HoldsCovers(img, Texts(view));
    HoldsCovers(pre, lines);
    if pos + |lines| <= |view| {
      forall i | 0 <= i < |lines|
        ensures LineAt(img, pos, pre, i) <==> view[pos..pos + |lines|][i] == Cells(lines, false)[i]
      {
        HoldsLine(img, Texts(view), pos + i);
        HoldsLine(pre, lines, i);
      }
    }
  }

  /** The lines the hunk looks for stand at line `p`. */
  ghost predicate At(view: seq<Cell>, h: Hunk, reverse: bool, p: nat) {
    StandsAt(view, Pre(h, reverse), p, MatchBeginning(h), MatchEnd(h))
  }

  /** Where a hunk lands: at the line nearest to the stated one, ahead first, where its lines stand; -1
      if they stand nowhere. */
  ghost predicate Lands(view: seq<Cell>, h: Hunk, reverse: bool, pos: int) {
    if pos < 0 then pos == -1 && forall p: nat :: !At(view, h, reverse, p)
    else
      && At(view, h, reverse, pos)
      && forall p: nat :: At(view, h, reverse, p) ==> !Nearer(p, pos, if Stated(h) < |view| then Stated(h) else |view|)
  }

  /** find_pos finds the line where the hunk lands: where it has no choice, it does not matter where it
      starts to look. */
  lemma {:induction false} FoundLands(img: Image, view: seq<Cell>, pre: Image, h: Hunk, reverse: bool, pos: int)
    requires Shows(img, view) && Holds(pre, Pre(h, reverse)) && Covers(img) && Covers(pre)
    requires Nearest(p => Applies(img, pre, p, MatchBeginning(h), MatchEnd(h)), |img.line|,
                     Start(|img.line|, |pre.line|, Stated(h), MatchBeginning(h), MatchEnd(h)), pos)
    ensures Lands(view, h, reverse, pos)
  {
    var start := Start(|img.line|, |pre.line|, Stated(h), MatchBeginning(h), MatchEnd(h));
    var matches: int -> bool := p => Applies(img, pre, p, MatchBeginning(h), MatchEnd(h));
    forall p: nat ensures At(view, h, reverse, p) ==> p <= |view| && matches(p) {
      AppliesMeans(img, view, pre, Pre(h, reverse), p, MatchBeginning(h), MatchEnd(h));
    }
    if pos >= 0 {
      AppliesMeans(img, view, pre, Pre(h, reverse), pos, MatchBeginning(h), MatchEnd(h));
      var stated := if Stated(h) < |view| then Stated(h) else |view|;
      forall p: nat | At(view, h, reverse, p) ensures !Nearer(p, pos, stated) {
        assert matches(p);
        NoChoice(view, h, reverse, p, pos, start, stated);
      }
    }
  }

  lemma {:induction false} NoChoice(view: seq<Cell>, h: Hunk, reverse: bool, p: nat, q: nat, start: nat, stated: nat)
    requires At(view, h, reverse, p) && At(view, h, reverse, q) && !Nearer(p, q, start)
    requires start == Start(|view|, |Pre(h, reverse)|, Stated(h), MatchBeginning(h), MatchEnd(h))
    requires stated == if Stated(h) < |view| then Stated(h) else |view|
    ensures !Nearer(p, q, stated)
  {
  }

  /** A hunk lands at its stated line exactly if it stands there. */
  lemma {:induction false} LandsAtStated(view: seq<Cell>, h: Hunk, reverse: bool, pos: int)
    requires Lands(view, h, reverse, pos)
    ensures pos == Stated(h) <==> At(view, h, reverse, Stated(h))
    ensures pos >= 0 ==> pos + |Pre(h, reverse)| <= |view|
  {
  }

  /** A hunk must match at the beginning if it starts at the first line of the old file or before it, at
      the end if its last line is no context line; and it is looked for from its place in the new file. */
  lemma {:induction false} HunkPlace(h: Hunk)
    ensures MatchBeginning(h) <==> h.oldpos <= 1
    ensures MatchEnd(h) <==> h.body == [] || h.body[|h.body| - 1].kind != Context
    ensures h.newpos > 0 ==> Stated(h) + 1 == h.newpos
  {
  }

  /** A hunk that stands one line further on than it says: the line marked as deleted goes, and nothing
      else does. */
  lemma {:induction false} OffsetExample(x: Text, y: Text, a: Text, b: Text, c: Text, view: seq<Cell>, h: Hunk)
    requires x != a && y != a && b != a && c != a
    requires view == Cells([x, y, a, b, c], false)
    requires h == Hunk(2, 3, 2, 2, [HunkLine(Context, a), HunkLine(Deleted, b), HunkLine(Context, c)])
    ensures Lands(view, h, false, 2)
    ensures After(view, h, false, 2) == [Cell(x, false), Cell(y, false), Cell(a, true), Cell(c, true)]
  {
    SidesOf(h, a, b, c);
    HunkPlace(h);
    assert view[2..5] == Cells([a, b, c], false);
    forall p: nat ensures At(view, h, false, p) ==> p == 2 {
      if At(view, h, false, p) { assert view[p..p + 3][0] == Cell(a, false); }
    }
  }

  lemma {:induction false} SidesOf(h: Hunk, a: Text, b: Text, c: Text)
    requires h.body == [HunkLine(Context, a), HunkLine(Deleted, b), HunkLine(Context, c)]
    ensures Pre(h, false) == [a, b, c] && Post(h, false) == [a, c]
    ensures Pre(h, true) == [a, c] && Post(h, true) == [a, b, c]
  {
    var body := h.body;
    assert body[..3] == body && body[..0] == [];
    SideMore(body, 0, Added);
    SideMore(body, 1, Added);
    SideMore(body, 2, Added);
    SideMore(body, 0, Deleted);
    SideMore(body, 1, Deleted);
    SideMore(body, 2, Deleted);
  }

  /** There is only one such line. */
  lemma {:induction false} LandsOnce(view: seq<Cell>, h: Hunk, reverse: bool, pos: int, other: int)
    requires Lands(view, h, reverse, pos) && Lands(view, h, reverse, other)
    ensures pos == other
  {
    if pos >= 0 { assert At(view, h, reverse, pos); }
    if other >= 0 { assert At(view, h, reverse, other); }
  }

  function Marked(lines: seq<Line>): (r: seq<Line>)
    ensures |r| == |lines| && forall i :: 0 <= i < |r| ==> r[i] == lines[i].(patched := true)
  {
    seq(|lines|, i requires 0 <= i < |lines| => lines[i].(patched := true))
  }

  /** update_image: the lines of the fragment are replaced, and marked. */
  method UpdateImage(img: Image, pos: nat, pre: Image, post: Image, ghost view: seq<Cell>, ghost lines: seq<Text>,
                     ghost news: seq<Text>)
    returns (img': Image)
    requires Shows(img, view) && Holds(pre, lines) && Holds(post, news) && pos + |lines| <= |view|
    ensures Shows(img', Splice(view, pos, |lines|, news))
  {
    var limit := if |pre.line| > |img.line| - pos then |img.line| - pos else |pre.line|;
    var at := SumLengths(img.line, pos);
    var end := SumLengths(img.line, pos + limit);
    UpdateShows(img, at, end, pos, limit, post, view, news);
    img' := Spliced(img, at, end, pos, limit, post);
  }

  lemma {:induction false} UpdateShows(img: Image, at: nat, end: nat, pos: nat, limit: nat, post: Image,
                                       view: seq<Cell>, news: seq<Text>)
    requires Shows(img, view) && Holds(post, news) && pos + limit <= |view|
    requires at == Offset(img.line, pos) && end == Offset(img.line, pos + limit)
    ensures at <= end <= |img.buf| && Shows(Spliced(img, at, end, pos, limit, post), Splice(view, pos, limit, news))
  {
    CutImage(img, Texts(view), pos, pos + limit);
    SpliceShows(img, Spliced(img, at, end, pos, limit, post), view, pos, limit, post, news);
  }

  /** Buffer and line table with the fragment's part replaced. */
  function Spliced(img: Image, at: nat, end: nat, pos: nat, limit: nat, post: Image): Image
    requires at <= end <= |img.buf| && pos + limit <= |img.line|
  {
    Image(img.buf[..at] + post.buf + img.buf[end..], img.line[..pos] + Marked(post.line) + img.line[pos + limit..])
  }

  lemma {:induction false} CutBuffer(texts: seq<Text>, a: nat, b: nat)
    requires a <= b <= |texts|
    ensures |Concat(texts[..a])| <= |Concat(texts[..b])| <= |Concat(texts)|
    ensures Concat(texts)[..|Concat(texts[..a])|] == Concat(texts[..a])
    ensures Concat(texts)[|Concat(texts[..b])|..] == Concat(texts[b..])
  {
    assert texts == texts[..a] + texts[a..] && texts == texts[..b] + texts[b..];
    ConcatAppend(texts[..a], texts[a..]);
    ConcatAppend(texts[..b], texts[b..]);
    assert texts[..b] == texts[..a] + texts[a..b];
    ConcatAppend(texts[..a], texts[a..b]);
  }

  lemma {:induction false} CutImage(img: Image, texts: seq<Text>, a: nat, b: nat)
    requires Holds(img, texts) && a <= b <= |texts|
    ensures Offset(img.line, a) <= Offset(img.line, b) <= |img.buf|
    ensures img.buf[..Offset(img.line, a)] == Concat(texts[..a]) && img.buf[Offset(img.line, b)..] == Concat(texts[b..])
  {
    OffsetIsLength(img, texts, a);
    OffsetIsLength(img, texts, b);
    CutBuffer(texts, a, b);
  }

  lemma {:induction false} SpliceTexts(view: seq<Cell>, pos: nat, n: nat, news: seq<Text>)
    requires pos + n <= |view|
    ensures Texts(Splice(view, pos, n, news)) == Texts(view)[..pos] + news + Texts(view)[pos + n..]
  {
  }

  lemma {:induction false} SpliceShows(img: Image, img': Image, view: seq<Cell>, pos: nat, n: nat, post: Image,
                                       news: seq<Text>)
    requires Shows(img, view) && Holds(post, news) && pos + n <= |view|
    requires img'.buf == Concat(Texts(view)[..pos]) + Concat(news) + Concat(Texts(view)[pos + n..])
    requires img'.line == img.line[..pos] + Marked(post.line) + img.line[pos + n..]
    ensures Shows(img', Splice(view, pos, n, news))
  {
    var texts, view' := Texts(view), Splice(view, pos, n, news);
    SpliceTexts(view, pos, n, news);
    ConcatAppend(texts[..pos] + news, texts[pos + n..]);
    ConcatAppend(texts[..pos], news);
    forall i | 0 <= i < |view'|
      ensures Fits(img'.line[i], Texts(view')[i]) && Good(Texts(view')[i]) && img'.line[i].patched == view'[i].patched
    {
      if i < pos {
        assert Fits(img.line[i], texts[i]) && Good(texts[i]);
      } else if i < pos + |news| {
        assert Fits(post.line[i - pos], news[i - pos]) && Good(news[i - pos]);
      } else {
        assert Fits(img.line[i - |news| + n], texts[i - |news| + n]) && Good(texts[i - |news| + n]);
      }
    }
  }

  /** The image with the hunk applied at line `pos`; as it is if `pos` is no line for it. */
  function After(view: seq<Cell>, h: Hunk, reverse: bool, pos: int): seq<Cell> {
    if 0 <= pos <= |view| - |Pre(h, reverse)| then Splice(view, pos, |Pre(h, reverse)|, Post(h, reverse)) else view
  }

  /** apply_one_fragment, with context not to be reduced: it is applied where it lands, or nowhere. */
  method ApplyOneFragment(img: Image, h: Hunk, reverse: bool, ghost view: seq<Cell>) returns (pos: int, img': Image)
    requires Shows(img, view) && GoodBody(h.body)
    ensures Lands(view, h, reverse, pos) && Shows(img', After(view, h, reverse, pos))
  {
    var pre, post := BuildImages(h, reverse);
    var matchBeginning, matchEnd, stated := MatchBeginning(h), MatchEnd(h), Stated(h);
    HoldsComplete(img, Texts(view));
    HoldsComplete(pre, Pre(h, reverse));
    pos := FindPos(img, pre, stated, matchBeginning, matchEnd, false);
    FoundLands(img, view, pre, h, reverse, pos);
    LandsAtStated(view, h, reverse, pos);
    img' := img;
    if pos >= 0 {
      img' := UpdateImage(img, pos, pre, post, view, Pre(h, reverse), Post(h, reverse));
    }
  }

  /** Hunk `i` landed at positions[i], and made views[i + 1] of views[i]. */
  ghost predicate LandedAt(views: seq<seq<Cell>>, hs: seq<Hunk>, reverse: bool, positions: seq<int>, i: nat) {
    && i < |positions| && i < |hs| && i + 1 < |views| && positions[i] >= 0
    && Lands(views[i], hs[i], reverse, positions[i]) && views[i + 1] == After(views[i], hs[i], reverse, positions[i])
  }

  /** The hunks with a position landed there, in turn; the views are the image before and after each. */
  ghost predicate Landed(views: seq<seq<Cell>>, hs: seq<Hunk>, reverse: bool, positions: seq<int>) {
    && |views| == |positions| + 1 && |positions| <= |hs|
    && forall i :: 0 <= i < |positions| ==> LandedAt(views, hs, reverse, positions, i)
  }

  lemma {:induction false} LandedMore(views: seq<seq<Cell>>, hs: seq<Hunk>, reverse: bool, positions: seq<int>,
                                      pos: int, next: seq<Cell>)
    requires Landed(views, hs, reverse, positions) && |positions| < |hs| && pos >= 0
    requires Lands(views[|positions|], hs[|positions|], reverse, pos)
    requires next == After(views[|positions|], hs[|positions|], reverse, pos)
    ensures Landed(views + [next], hs, reverse, positions + [pos])
  {
    forall i | 0 <= i < |positions| + 1 ensures LandedAt(views + [next], hs, reverse, positions + [pos], i) {
      if i < |positions| { assert LandedAt(views, hs, reverse, positions, i); }
    }
  }

  predicate AtStated(positions: seq<int>, hs: seq<Hunk>) {
    |positions| == |hs| && forall i :: 0 <= i < |hs| ==> positions[i] == Stated(hs[i])
  }

  /** Hunk `i` lands nowhere, if it comes to that. */
  ghost predicate StopsAt(view: seq<Cell>, hs: seq<Hunk>, reverse: bool, i: nat) {
    i < |hs| ==> Lands(view, hs[i], reverse, -1)
  }

  /** The hunks from `i` on stand at their stated lines exactly if they all landed there. */
  lemma {:induction false} StandsLands(views: seq<seq<Cell>>, hs: seq<Hunk>, reverse: bool, positions: seq<int>, i: nat)
    requires Landed(views, hs, reverse, positions) && i <= |positions|
    requires StopsAt(views[|positions|], hs, reverse, |positions|)
    ensures Stands(views[i], hs, reverse, i) <==> StatedFrom(positions, hs, i)
    ensures Stands(views[i], hs, reverse, i) ==> Outcome(views[i], hs, reverse, i) == views[|positions|]
    decreases |positions| - i
  {
    if i < |positions| {
      assert LandedAt(views, hs, reverse, positions, i);
      LandsAtStated(views[i], hs[i], reverse, positions[i]);
      StandsLands(views, hs, reverse, positions, i + 1);
    } else if i < |hs| {
      LandsAtStated(views[i], hs[i], reverse, -1);
    }
  }

  predicate StatedFrom(positions: seq<int>, hs: seq<Hunk>, i: nat) {
    |positions| == |hs| && forall k :: i <= k < |hs| ==> positions[k] == Stated(hs[k])
  }

  /** apply_fragments, stopping at the first hunk that does not apply: every hunk in turn is applied
      where it lands, and it fails exactly if one lands nowhere. All land at their stated lines exactly
      if they stand there. */
  method ApplyFragments(img: Image, hs: seq<Hunk>, reverse: bool, ghost view: seq<Cell>)
    returns (ok: bool, positions: seq<int>, img': Image, ghost views: seq<seq<Cell>>)
    requires Shows(img, view) && forall i :: 0 <= i < |hs| ==> GoodBody(hs[i].body)
    ensures Landed(views, hs, reverse, positions) && views[0] == view && Shows(img', views[|positions|])
    ensures ok <==> |positions| == |hs|
    ensures StopsAt(views[|positions|], hs, reverse, |positions|)
    ensures ok && AtStated(positions, hs) <==> Stands(view, hs, reverse, 0)
    ensures Stands(view, hs, reverse, 0) ==> Shows(img', Outcome(view, hs, reverse, 0))
  {
    img', positions, ok, views := img, [], true, [view];
    for i := 0 to |hs|
      invariant |positions| == i && Landed(views, hs, reverse, positions) && views[0] == view
      invariant Shows(img', views[i])
    {
      var pos, next := ApplyOneFragment(img', hs[i], reverse, views[i]);
      if pos < 0 {
        StandsLands(views, hs, reverse, positions, 0);
        ok := false;
        return;
      }
      ghost var after := After(views[i], hs[i], reverse, pos);
      LandedMore(views, hs, reverse, positions, pos, after);
      positions, img', views := positions + [pos], next, views + [after];
    }
    StandsLands(views, hs, reverse, positions, 0);
  }

  /** The end of the line that starts at `cp`. */
  method LineEnd(buf: Text, cp: nat) returns (next: nat)
    requires cp < |buf|
    ensures cp < next <= |buf| && IsLine(buf[cp..next]) && (next < |buf| ==> buf[next - 1] == NEWLINE)
  {
    next := cp;
    while next < |buf| && buf[next] != NEWLINE
      invariant cp <= next <= |buf| && forall i :: cp <= i < next ==> buf[i] != NEWLINE
    {
      next := next + 1;
    }
    if next < |buf| {
      next := next + 1;
    }
  }

  /** image_prepare: the lines of a buffer whose last line is complete. */
  method ImagePrepare(buf: Text) returns (img: Image, ghost texts: seq<Text>)
    ensures img.buf == buf
    ensures buf == [] || Terminated(buf) ==> Shows(img, Cells(texts, false)) && Concat(texts) == buf && AllGood(texts)
  {
    var cp, lines: seq<Line> := 0, [];
    texts := [];
    while cp < |buf|
      invariant cp <= |buf| && |lines| == |texts| && forall i :: 0 <= i < |lines| ==> !lines[i].patched
      invariant buf == [] || Terminated(buf) ==> Holds(Image(buf[..cp], lines), texts)
    {
      var next := LineEnd(buf, cp);
      var text := buf[cp..next];
      if Terminated(buf) {
        AddLineHolds(Image(buf[..cp], lines), texts, text);
        assert buf[..cp] + text == buf[..next];
      }
      texts := texts + [text];
      lines := lines + [Line(|text|, HashLine(text), false)];
      cp := next;
    }
    assert buf[..|buf|] == buf;
    img := Image(buf, lines);
    TextsOfCells(texts, false);
  }

  /** The outcome of applying a patch: the buffer, and the lines the hunks were applied at. */
  datatype Applied = Rejected | Applied(buf: Text, positions: seq<int>)

  /** A buffer patched. */
  method ApplyTo(buf: Text, hs: seq<Hunk>, reverse: bool) returns (r: Applied, ghost texts: seq<Text>)
    requires (buf == [] || Terminated(buf)) && forall i :: 0 <= i < |hs| ==> GoodBody(hs[i].body)
    ensures Concat(texts) == buf && AllGood(texts)
    ensures (r.Applied? && AtStated(r.positions, hs)) <==> Stands(Cells(texts, false), hs, reverse, 0)
    ensures Stands(Cells(texts, false), hs, reverse, 0) ==>
              var after := Texts(Outcome(Cells(texts, false), hs, reverse, 0)); r.buf == Concat(after) && AllGood(after)
  {
    var img;
    img, texts := ImagePrepare(buf);
    var ok, positions, img'; ghost var views;
    ok, positions, img', views := ApplyFragments(img, hs, reverse, Cells(texts, false));
    r := if ok then Applied(img'.buf, positions) else Rejected;
  }

  /** Apply a patch and apply it in reverse: if it was well-formed and every hunk landed at its
      stated position, so does every reversed hunk, and the buffer is what it was. */
  method PatchAndBack(buf: Text, hs: seq<Hunk>) returns (there: Applied, back: Applied)
    requires (buf == [] || Terminated(buf)) && WellFormed(hs) && forall i :: 0 <= i < |hs| ==> GoodBody(hs[i].body)
    ensures there.Applied? && AtStated(there.positions, hs) ==>
              back.Applied? && AtStated(back.positions, Reversed(hs)) && back.buf == buf
  {
    ghost var texts;
    there, texts := ApplyTo(buf, hs, false);
    back := Rejected;
    if there.Applied? && AtStated(there.positions, hs) {
      ReverseRestores(texts, hs);
      ghost var after := Texts(Outcome(Cells(texts, false), hs, false, 0));
      ConcatEnds(after);
      ghost var again;
      back, again := ApplyTo(there.buf, Reversed(hs), true);
      OneSplit(again, after);
    }
  }

  lemma {:induction false} ConcatEnds(texts: seq<Text>)
    requires AllGood(texts)
    ensures Concat(texts) == [] || Terminated(Concat(texts))
  {
    if texts != [] {
      assert Good(texts[0]) && AllGood(texts[1..]);
      ConcatEnds(texts[1..]);
    }
  }
}
