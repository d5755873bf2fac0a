/** Passing blame to a parent over the hunks of a diff (blame_chunk, pass_blame_to_parent).

Linked lists are sequences in list order. A route says for every suspected line of the target
where it has to end up; every step is shown to send each line there, losing and doubling none. */
module BlamePass {
  import opened Options
  import opened BlameLines
  import opened BlameOrder

  // ---- the first loop of blame_chunk ----

  /** Lines before `tlno` belong to the parent, `offset` lines further. */
  ghost predicate PassesBefore(f: Route, from: int, tlno: int, offset: int) {
    forall c: Claim {:trigger f(c)} ::
      c.owner == Target && from <= c.at < tlno ==> f(c) == Claim(c.line, Parent, c.at + offset)
  }

  function Shifted(e: Entry, offset: int): Entry { e.(owner := Parent, sLno := e.sLno + offset) }

  lemma {:induction false} ShiftRouted(e: Entry, f: Route, from: int, tlno: int, offset: int, c: Claim)
    requires PassesBefore(f, from, tlno, offset) && from <= e.sLno && e.sLno + e.num <= tlno && e.owner == Target
    ensures Count(e, f, c) == Count(Shifted(e, offset), Same(), c)
  {
    forall i | 0 <= i < e.num ensures f(LineOf(e, i)) == Same()(LineOf(Shifted(e, offset), i)) {
      assert f(LineOf(e, i)) == Claim(e.lno + i, Parent, e.sLno + i + offset);
    }
    CountAlike(e, Shifted(e, offset), f, Same(), e.num, c);
  }

  /** The part of an entry before line `tlno`. */
  function Before(e: Entry, tlno: int): Entry {
    if e.sLno + e.num > tlno then Head(e, tlno - e.sLno) else e
  }

  /** The lines of an entry before and after a line. */
  lemma {:induction false} CutRouted(e: Entry, t: int, f: Route, c: Claim)
    requires e.num > 0 && e.sLno < t
    ensures Count(e, f, c) == Count(Before(e, t), f, c) + CountAll(ClipOne(e, t), f, c)
  {
    if e.sLno + e.num > t {
      SplitConserves(e, t - e.sLno, f, c);
      CountOne(Tail(e, t - e.sLno), f, c);
    }
  }

  /** One entry that starts before the chunk: what is before it goes to the parent, what reaches
      into it is split off. */
  method PassOne(e: Entry, tlno: int, offset: int, ghost f: Route, ghost from: int)
    returns (moved: Entry, over: seq<Entry>)
    requires PassesBefore(f, from, tlno, offset) && from <= e.sLno < tlno && e.num > 0 && e.owner == Target
    ensures forall c :: Count(e, f, c) == Count(moved, Same(), c) + CountAll(over, f, c)
    ensures MovedTo(moved, e, offset, from + offset, tlno + offset) && over == ClipOne(e, tlno)
  {
    forall c
      ensures Count(e, f, c) == Count(Shifted(Before(e, tlno), offset), Same(), c) + CountAll(ClipOne(e, tlno), f, c)
    {
      CutRouted(e, tlno, f, c);
      ShiftRouted(Before(e, tlno), f, from, tlno, offset, c);
    }
    moved, over := e, [];
    if e.sLno + e.num > tlno {
      moved, over := Head(e, tlno - e.sLno), [Tail(e, tlno - e.sLno)];
    }
    moved := moved.(owner := Parent, sLno := moved.sLno + offset);
  }

  ghost predicate Within(es: seq<Entry>, bound: int) {
    forall i :: 0 <= i < |es| ==> es[i].sLno + es[i].num <= bound
  }

  ghost predicate From(es: seq<Entry>, at: int) {
    forall i :: 0 <= i < |es| ==> es[i].sLno >= at
  }

  /** Entries of the target, in order, in [from, bound). */
  ghost predicate Listed(es: seq<Entry>, from: int, bound: int) {
    Proper(es) && Ordered(es) && From(es, from) && Within(es, bound)
  }

  /** Entries passed to the parent lie in [lo, hi) there, in order. */
  ghost predicate Passed(es: seq<Entry>, lo: int, hi: int) {
    && Ordered(es)
    && forall i :: 0 <= i < |es| ==>
         es[i].owner == Parent && es[i].num > 0 && lo <= es[i].sLno && es[i].sLno + es[i].num <= hi
  }

  ghost predicate MovedTo(e': Entry, e: Entry, offset: int, lo: int, hi: int) {
    e'.sLno == e.sLno + offset && e'.owner == Parent && e'.num > 0 && lo <= e'.sLno && e'.sLno + e'.num <= hi
  }

  ghost predicate AllMoved(src: seq<Entry>, moved: seq<Entry>, offset: int, lo: int, hi: int) {
    |moved| <= |src| && forall k :: 0 <= k < |moved| ==> MovedTo(moved[k], src[k], offset, lo, hi)
  }

  lemma {:induction false} MovedInOrder(src: seq<Entry>, moved: seq<Entry>, offset: int, lo: int, hi: int)
    requires Ordered(src) && AllMoved(src, moved, offset, lo, hi)
    ensures Passed(moved, lo, hi)
  {
    forall k, l | 0 <= k < l < |moved| ensures NotAfter(moved[k], moved[l]) {
      assert NotAfter(src[k], src[l]);
      assert MovedTo(moved[k], src[k], offset, lo, hi) && MovedTo(moved[l], src[l], offset, lo, hi);
    }
    forall k | 0 <= k < |moved|
      ensures moved[k].owner == Parent && moved[k].num > 0 && lo <= moved[k].sLno && moved[k].sLno + moved[k].num <= hi
    {
      assert MovedTo(moved[k], src[k], offset, lo, hi);
    }
  }

  /** The lines of the first `i` entries are in `done`, or in `diff` and still to come. */
  ghost predicate Balanced(src: seq<Entry>, i: nat, done: seq<Entry>, more: seq<Entry>, diff: seq<Entry>, f: Route) {
    i <= |src| && forall c :: CountFirst(src, i, f, c) == All(done, c) + All(more, c) + CountAll(diff, f, c)
  }

  lemma {:induction false} BalanceStart(src: seq<Entry>, f: Route)
    ensures Balanced(src, 0, [], [], [], f)
  {
  }

  lemma {:induction false} BalanceStep(src: seq<Entry>, i: nat, done: seq<Entry>, more: seq<Entry>, diff: seq<Entry>,
                                       f: Route, d: seq<Entry>, m: seq<Entry>, over: seq<Entry>)
    requires Balanced(src, i, done, more, diff, f) && i < |src|
    requires forall c :: Count(src[i], f, c) == All(d, c) + All(m, c) + CountAll(over, f, c)
    ensures Balanced(src, i + 1, done + d, more + m, diff + over, f)
  {
    forall c ensures CountFirst(src, i + 1, f, c) == All(done + d, c) + All(more + m, c) + CountAll(diff + over, f, c) {
      CountJoin(done, d, Same(), c);
      CountJoin(more, m, Same(), c);
      CountJoin(diff, over, f, c);
      assert CountFirst(src, i + 1, f, c) == CountFirst(src, i, f, c) + Count(src[i], f, c);
    }
  }

  /** All the lines of `src` are in `done` and `more`, or in `rest`. */
  ghost predicate Conserved(src: seq<Entry>, done: seq<Entry>, more: seq<Entry>, rest: seq<Entry>, f: Route) {
    forall c :: CountAll(src, f, c) == All(done, c) + All(more, c) + CountAll(rest, f, c)
  }

  lemma {:induction false} BalanceEnd(src: seq<Entry>, i: nat, done: seq<Entry>, more: seq<Entry>, diff: seq<Entry>,
                                      f: Route)
    requires Balanced(src, i, done, more, diff, f)
    ensures Conserved(src, done, more, diff + src[i..], f)
  {
    forall c ensures CountAll(src, f, c) == All(done, c) + All(more, c) + CountAll(diff + src[i..], f, c) {
      CountSuffix(src, i, f, c);
      CountJoin(diff, src[i..], f, c);
    }
  }

  /** What the first loop of blame_chunk has made of the first `i` entries. */
  ghost predicate PassedSoFar(src: seq<Entry>, i: nat, moved: seq<Entry>, diff: seq<Entry>, tlno: int, offset: int,
                              from: int) {
    && i <= |src| && |moved| == i && AllMoved(src, moved, offset, from + offset, tlno + offset)
    && diff == Clip(src, i, tlno)
  }

  /** The first loop of blame_chunk. */
  method PassBefore(src: seq<Entry>, tlno: int, offset: int, ghost f: Route, ghost from: int, ghost bound: int)
    returns (moved: seq<Entry>, rest: seq<Entry>)
    requires Listed(src, from, bound) && PassesBefore(f, from, tlno, offset) && from <= tlno
    ensures Conserved(src, moved, [], rest, f) && Passed(moved, from + offset, tlno + offset)
    ensures rest == Clip(src, |src|, tlno) && Listed(rest, tlno, bound)
  {
    var i, diff := 0, [];
    moved := [];
    BalanceStart(src, f);
    while i < |src| && src[i].sLno < tlno
      invariant Balanced(src, i, moved, [], diff, f) && PassedSoFar(src, i, moved, diff, tlno, offset, from)
    {
      moved, diff := PassStep(src, i, moved, diff, tlno, offset, f, from);
      i := i + 1;
    }
    PassedAll(src, i, moved, diff, tlno, offset, f, from, bound);
    rest := diff + src[i..];
  }

  lemma {:induction false} PassedAll(src: seq<Entry>, i: nat, moved: seq<Entry>, diff: seq<Entry>, tlno: int,
                                     offset: int, f: Route, from: int, bound: int)
    requires Listed(src, from, bound) && (i < |src| ==> src[i].sLno >= tlno)
    requires Balanced(src, i, moved, [], diff, f) && PassedSoFar(src, i, moved, diff, tlno, offset, from)
    ensures Conserved(src, moved, [], diff + src[i..], f) && Passed(moved, from + offset, tlno + offset)
    ensures diff + src[i..] == Clip(src, |src|, tlno) && Listed(diff + src[i..], tlno, bound)
  {
    BalanceEnd(src, i, moved, [], diff, f);
    MovedInOrder(src, moved, offset, from + offset, tlno + offset);
    RestClipped(src, i, tlno, from, bound);
  }

  /** One turn of the first loop. */
  method PassStep(src: seq<Entry>, i: nat, moved: seq<Entry>, diff: seq<Entry>, tlno: int, offset: int,
                  ghost f: Route, ghost from: int)
    returns (moved': seq<Entry>, diff': seq<Entry>)
    requires PassesBefore(f, from, tlno, offset) && i < |src| && from <= src[i].sLno < tlno && Proper(src)
    requires Balanced(src, i, moved, [], diff, f) && PassedSoFar(src, i, moved, diff, tlno, offset, from)
    ensures Balanced(src, i + 1, moved', [], diff', f) && PassedSoFar(src, i + 1, moved', diff', tlno, offset, from)
  {
    var one, over := PassOne(src[i], tlno, offset, f, from);
    forall c ensures Count(src[i], f, c) == All([one], c) + All([], c) + CountAll(over, f, c) {
      CountOne(one, Same(), c);
    }
    BalanceStep(src, i, moved, [], diff, f, [one], [], over);
    return moved + [one], diff + over;
  }

  /** The entries from `i` on start at `at` or later, and what is split off before them starts there. */
  lemma {:induction false} RestClipped(src: seq<Entry>, i: nat, at: int, from: int, bound: int)
    requires Listed(src, from, bound) && i <= |src| && (i < |src| ==> src[i].sLno >= at)
    ensures Clip(src, |src|, at) == Clip(src, i, at) + src[i..]
    ensures Listed(Clip(src, |src|, at), at, bound)
  {
    if i < |src| { OrderedAround(src, i); }
    ClipEnd(src, i, |src|, at);
    ClipListed(src, |src|, at, from, bound);
  }

  lemma {:induction false} ClipListed(es: seq<Entry>, n: nat, at: int, from: int, bound: int)
    requires Listed(es, from, bound) && n <= |es|
    ensures Listed(Clip(es, n, at), at, bound)
    ensures n < |es| ==> forall k :: 0 <= k < |Clip(es, n, at)| ==> Clip(es, n, at)[k].sLno <= Low(es[n], at)
  {
    if n > 0 {
      ClipListed(es, n - 1, at, from, bound);
      ListedMore(Clip(es, n - 1, at), es[n - 1], at, bound);
      if n < |es| { OrderedAround(es, n); }
    }
  }

  lemma {:induction false} ListedMore(es: seq<Entry>, e: Entry, at: int, bound: int)
    requires Listed(es, at, bound) && e.num > 0 && e.owner == Target && e.sLno + e.num <= bound
    requires forall k :: 0 <= k < |es| ==> es[k].sLno <= Low(e, at)
    ensures Listed(es + ClipOne(e, at), at, bound)
    ensures forall k :: 0 <= k < |es + ClipOne(e, at)| ==> (es + ClipOne(e, at))[k].sLno <= Low(e, at)
  {
    var all := es + ClipOne(e, at);
    forall k, l | 0 <= k < l < |all| ensures NotAfter(all[k], all[l]) {
      if l < |es| { assert NotAfter(es[k], es[l]); }
    }
  }

  // ---- ignored commits ----

  function Guessed(c: Claim, b: LineBlame): Claim { if b.isParent then Claim(c.line, Parent, b.sLno) else c }

  /** Lines inside the chunk go where `blames` says; without it they stay. */
  ghost predicate Inside(f: Route, tlno: int, same: int, blames: seq<LineBlame>) {
    && (blames != [] ==> |blames| == same - tlno) && OwnNumbers(blames, tlno)
    && forall c: Claim {:trigger f(c)} :: c.owner == Target && tlno <= c.at < same ==>
         f(c) == if blames == [] then c else Guessed(c, blames[c.at - tlno])
  }

  /** are_lines_adjacent */
  predicate AreLinesAdjacent(first: LineBlame, second: LineBlame) {
    first.isParent == second.isParent && first.sLno + 1 == second.sLno
  }

  /** Lines `s` to `i` are adjacent. */
  ghost predicate Chain(blames: seq<LineBlame>, s: int, i: int) {
    && 0 <= s <= i < |blames|
    && forall t :: s <= t <= i ==>
         blames[t].isParent == blames[s].isParent && blames[t].sLno == blames[s].sLno + (t - s)
  }

  /** A stretch of adjacent lines, given to the parent or kept. */
  function Carved(piece: Entry, b: LineBlame): Entry {
    if b.isParent then piece.(ignored := true, owner := Parent, sLno := b.sLno) else piece.(unblamable := true)
  }

  /** The lines of `e` lie in the chunk, and `blames` are theirs. */
  ghost predicate InChunk(e: Entry, blames: seq<LineBlame>, f: Route, tlno: int, all: seq<LineBlame>) {
    && e.num > 0 && e.owner == Target && tlno <= e.sLno && e.sLno + e.num <= tlno + |all|
    && Inside(f, tlno, tlno + |all|, all) && blames == all[e.sLno - tlno..]
  }

  lemma {:induction false} PieceRouted(piece: Entry, e: Entry, blames: seq<LineBlame>, s: int, i: int, f: Route,
                                       tlno: int, all: seq<LineBlame>, c: Claim)
    requires InChunk(e, blames, f, tlno, all) && Chain(blames, s, i) && i < e.num
    requires piece.num == i - s + 1 && piece.owner == Target && piece.sLno == e.sLno + s
    ensures Count(piece, f, c) == Count(Carved(piece, blames[s]), Same(), c)
  {
    var p := Carved(piece, blames[s]);
    forall t | 0 <= t < piece.num ensures f(LineOf(piece, t)) == Same()(LineOf(p, t)) {
      assert f(LineOf(piece, t)) == Guessed(LineOf(piece, t), blames[s + t]);
    }
    CountAlike(piece, p, f, Same(), piece.num, c);
  }

  lemma {:induction false} PieceRoutedAll(piece: Entry, e: Entry, blames: seq<LineBlame>, s: int, i: int, f: Route,
                                          tlno: int, all: seq<LineBlame>)
    requires InChunk(e, blames, f, tlno, all) && Chain(blames, s, i)
    requires i < e.num && piece == Head(Tail(e, s), i + 1 - s)
    ensures forall c :: Count(piece, f, c) == Count(Carved(piece, blames[s]), Same(), c)
  {
    forall c ensures Count(piece, f, c) == Count(Carved(piece, blames[s]), Same(), c) {
      PieceRouted(piece, e, blames, s, i, f, tlno, all, c);
    }
  }

  ghost predicate Unblamable(es: seq<Entry>) {
    forall k :: 0 <= k < |es| ==> es[k].unblamable
  }

  ghost predicate Ignored(es: seq<Entry>) {
    forall k :: 0 <= k < |es| ==> es[k].owner == Parent && es[k].ignored
  }

  /** The variables of ignore_blame_entry: what is left of the entry, the length of the stretch
      looked at, and the entries made so far. */
  datatype Carve = Carve(cur: Option<Entry>, len: int, kept: seq<Entry>, ignored: seq<Entry>)

  /** What is left of an entry from its line `s` on. */
  function Rest(e: Entry, s: int): Option<Entry> { if s == e.num then None else Some(Tail(e, s)) }

  /** The first `s` lines are carved off. */
  ghost predicate CarvedLines(e: Entry, c: Carve, s: int, f: Route, blames: seq<LineBlame>) {
    && 0 <= s <= e.num && c.cur == Rest(e, s) && CarvedSum(e, c, s, f) && CarvedPlaces(e, c, s, blames)
  }

  ghost predicate CarvedSum(e: Entry, c: Carve, s: int, f: Route) {
    forall x :: CountTo(e, s, f, x) == All(c.kept, x) + All(c.ignored, x)
  }

  ghost predicate CarvedPlaces(e: Entry, c: Carve, s: int, blames: seq<LineBlame>) {
    && Proper(c.kept) && Unblamable(c.kept) && Ignored(c.ignored)
    && Places(c.kept) == Starts(blames, e.sLno, e.sLno, e.sLno + s)
  }

  /** Lines `s` to `i` are the stretch looked at, and it starts where it has to. */
  ghost predicate Stretch(blames: seq<LineBlame>, s: int, i: int) {
    Chain(blames, s, i) && (s > 0 ==> !AreLinesAdjacent(blames[s - 1], blames[s]))
  }

  /** After `i` lines. */
  ghost predicate CarvedTo(e: Entry, c: Carve, i: int, f: Route, blames: seq<LineBlame>) {
    if i == e.num then CarvedLines(e, c, i, f, blames)
    else 0 <= i < e.num && CarvedLines(e, c, i + 1 - c.len, f, blames) && Stretch(blames, i + 1 - c.len, i)
  }

  /** One turn of the loop of ignore_blame_entry. */
  method CarveLine(e: Entry, c: Carve, i: int, blames: seq<LineBlame>, ghost f: Route, ghost tlno: int,
                   ghost all: seq<LineBlame>)
    returns (c': Carve)
    requires InChunk(e, blames, f, tlno, all) && 0 <= i < e.num && CarvedTo(e, c, i, f, blames)
    ensures CarvedTo(e, c', i + 1, f, blames)
  {
    if i + 1 < e.num && AreLinesAdjacent(blames[i], blames[i + 1]) {
      StretchMore(blames, i + 1 - c.len, i);
      return c.(len := c.len + 1);
    }
    // The first closing assertion of the source: the piece is as long as the stretch.
    var piece := if i + 1 < e.num then Head(c.cur.value, c.len) else c.cur.value;
    assert piece.num == c.len;
    var next := if i + 1 < e.num then Some(Tail(c.cur.value, c.len)) else None;
    CarveOffKeeps(e, c, i, piece, next, blames, f, tlno, all);
    return CarveOff(c, piece, next, blames[i - c.len + 1]);
  }

  lemma {:induction false} CarveOffKeeps(e: Entry, c: Carve, i: int, piece: Entry, next: Option<Entry>,
                                         blames: seq<LineBlame>, f: Route, tlno: int, all: seq<LineBlame>)
    requires InChunk(e, blames, f, tlno, all) && 0 <= i < e.num && CarvedTo(e, c, i, f, blames)
    requires piece == (if i + 1 < e.num then Head(c.cur.value, c.len) else c.cur.value)
    requires next == if i + 1 < e.num then Some(Tail(c.cur.value, c.len)) else None
    requires i + 1 < e.num ==> !AreLinesAdjacent(blames[i], blames[i + 1])
    ensures CarvedTo(e, CarveOff(c, piece, next, blames[i - c.len + 1]), i + 1, f, blames)
  {
    CarveOffLines(e, c, i + 1 - c.len, i, piece, next, blames, f, tlno, all);
    CarvedNext(e, CarveOff(c, piece, next, blames[i - c.len + 1]), i, f, blames);
  }

  lemma {:induction false} StretchMore(blames: seq<LineBlame>, s: int, i: int)
    requires Stretch(blames, s, i) && i + 1 < |blames| && AreLinesAdjacent(blames[i], blames[i + 1])
    ensures Stretch(blames, s, i + 1)
  {
  }

  lemma {:induction false} CarvedNext(e: Entry, c: Carve, i: int, f: Route, blames: seq<LineBlame>)
    requires 0 <= i < e.num <= |blames| && c.len == 1 && CarvedLines(e, c, i + 1, f, blames)
    requires i + 1 < e.num ==> !AreLinesAdjacent(blames[i], blames[i + 1])
    ensures CarvedTo(e, c, i + 1, f, blames)
  {
  }

  /** ignore_blame_entry: stretches of adjacent lines go to the parent or stay. */
  method IgnoreBlameEntry(e: Entry, blames: seq<LineBlame>, ghost f: Route, ghost tlno: int, ghost all: seq<LineBlame>)
    returns (kept: seq<Entry>, ignored: seq<Entry>)
    requires InChunk(e, blames, f, tlno, all)
    ensures forall c :: Count(e, f, c) == All(kept, c) + All(ignored, c)
    ensures Proper(kept) && Unblamable(kept) && Ignored(ignored)
    ensures Places(kept) == Starts(all, tlno, e.sLno, e.sLno + e.num)
  {
    var c := Carve(Some(e), 1, [], []);
    assert Tail(e, 0) == e;
    for i := 0 to e.num
      invariant CarvedTo(e, c, i, f, blames)
    {
      c := CarveLine(e, c, i, blames, f, tlno, all);
    }
    // The second one: nothing of the entry is left.
    assert c.cur.None?;
    AllCarved(e, c, f, blames, tlno, all);
    return c.kept, c.ignored;
  }

  lemma {:induction false} AllCarved(e: Entry, c: Carve, f: Route, blames: seq<LineBlame>, tlno: int,
                                     all: seq<LineBlame>)
    requires InChunk(e, blames, f, tlno, all) && CarvedLines(e, c, e.num, f, blames)
    ensures Places(c.kept) == Starts(all, tlno, e.sLno, e.sLno + e.num)
  {
    StartsShift(all, tlno, e.sLno, e.sLno + e.num);
  }

  /** The piece goes on a list, and `next` is left. */
  function CarveOff(c: Carve, piece: Entry, next: Option<Entry>, b: LineBlame): Carve {
    var p := Carved(piece, b);
    Carve(next, 1, if b.isParent then c.kept else c.kept + [p], if b.isParent then c.ignored + [p] else c.ignored)
  }

  lemma {:induction false} CarveOffLines(e: Entry, c: Carve, s: int, i: int, piece: Entry, next: Option<Entry>,
                                         blames: seq<LineBlame>, f: Route, tlno: int, all: seq<LineBlame>)
    requires InChunk(e, blames, f, tlno, all) && i < e.num && CarvedLines(e, c, s, f, blames) && Stretch(blames, s, i)
    requires piece == Head(Tail(e, s), i + 1 - s) && next == Rest(e, i + 1)
    ensures CarvedLines(e, CarveOff(c, piece, next, blames[s]), i + 1, f, blames)
  {
    PieceRoutedAll(piece, e, blames, s, i, f, tlno, all);
    CarveOffSum(e, c, s, i + 1, piece, next, blames[s], f);
    CarvePlaces(c, piece, next, blames, e, s, i);
  }

  lemma {:induction false} CarveOffSum(e: Entry, c: Carve, s: int, i: int, piece: Entry, next: Option<Entry>,
                                       b: LineBlame, f: Route)
    requires CarvedSum(e, c, s, f) && forall x :: Count(piece, f, x) == Count(Carved(piece, b), Same(), x)
    requires 0 <= s <= i && piece == Head(Tail(e, s), i - s)
    ensures CarvedSum(e, CarveOff(c, piece, next, b), i, f)
  {
    var c', p := CarveOff(c, piece, next, b), Carved(piece, b);
    forall x ensures CountTo(e, i, f, x) == All(c'.kept, x) + All(c'.ignored, x) {
      CarveOffAt(e, c, c', s, i, piece, p, next, b, f, x);
    }
  }

  lemma {:induction false} CarveOffAt(e: Entry, c: Carve, c': Carve, s: int, i: int, piece: Entry, p: Entry,
                                      next: Option<Entry>, b: LineBlame, f: Route, x: Claim)
    requires CountTo(e, s, f, x) == All(c.kept, x) + All(c.ignored, x) && Count(piece, f, x) == Count(p, Same(), x)
    requires 0 <= s <= i && piece == Head(Tail(e, s), i - s)
    requires p == Carved(piece, b) && c' == CarveOff(c, piece, next, b)
    ensures CountTo(e, i, f, x) == All(c'.kept, x) + All(c'.ignored, x)
  {
    PieceCount(e, s, i, piece, f, x);
    CarveOffCount(c, piece, next, b, x);
  }

  lemma {:induction false} PieceCount(e: Entry, s: int, i: int, piece: Entry, f: Route, x: Claim)
    requires 0 <= s <= i && piece == Head(Tail(e, s), i - s)
    ensures CountTo(e, i, f, x) == CountTo(e, s, f, x) + Count(piece, f, x)
  {
    SplitTo(e, s, i - s, f, x);
    CountAlike(Tail(e, s), piece, f, f, i - s, x);
  }

  lemma {:induction false} CarveOffCount(c: Carve, piece: Entry, next: Option<Entry>, b: LineBlame, x: Claim)
    ensures var c' := CarveOff(c, piece, next, b);
            All(c'.kept, x) + All(c'.ignored, x) == All(c.kept, x) + All(c.ignored, x) +
              Count(Carved(piece, b), Same(), x)
  {
    var p := Carved(piece, b);
    CountOne(p, Same(), x);
    CountJoin(c.kept, [p], Same(), x);
    CountJoin(c.ignored, [p], Same(), x);
  }

  /** A stretch that stays begins where no line before it stays. */
  lemma {:induction false} CarvePlaces(c: Carve, piece: Entry, next: Option<Entry>, blames: seq<LineBlame>, e: Entry,
                                       s: int, i: int)
    requires CarvedPlaces(e, c, s, blames) && OwnNumbers(blames, e.sLno) && Stretch(blames, s, i)
    requires e.owner == Target && piece == Head(Tail(e, s), i + 1 - s)
    ensures CarvedPlaces(e, CarveOff(c, piece, next, blames[s]), i + 1, blames)
  {
    StretchStarts(blames, e.sLno, s, i);
    PlaceMore(c.kept, Carved(piece, blames[s]));
    CarvedKinds(c, piece, next, blames[s]);
  }

  lemma {:induction false} PlaceMore(es: seq<Entry>, e: Entry)
    ensures Places(es + [e]) == Places(es) + [e.sLno]
  {
  }

  lemma {:induction false} CarvedKinds(c: Carve, piece: Entry, next: Option<Entry>, b: LineBlame)
    requires Proper(c.kept) && Unblamable(c.kept) && Ignored(c.ignored) && piece.owner == Target && piece.num > 0
    ensures var r := CarveOff(c, piece, next, b); Proper(r.kept) && Unblamable(r.kept) && Ignored(r.ignored)
  {
  }

  lemma {:induction false} StretchStarts(blames: seq<LineBlame>, lo: int, s: int, i: int)
    requires OwnNumbers(blames, lo) && Stretch(blames, s, i)
    ensures Starts(blames, lo, lo, lo + (i + 1)) ==
            Starts(blames, lo, lo, lo + s) + if blames[s].isParent then [] else [lo + s]
    decreases i
  {
    var x := lo + i;
    assert Stays(blames, lo, x) == !blames[i].isParent == !blames[s].isParent;
    if s < i {
      StretchStarts(blames, lo, s, i - 1);
      assert Stays(blames, lo, x - 1) == !blames[i - 1].isParent;
      assert !Begins(blames, lo, lo, x);
    } else if s > 0 {
      assert Stays(blames, lo, x - 1) == !blames[s - 1].isParent;
    }
  }

  // ---- the second loop of blame_chunk ----

  lemma {:induction false} StaysRouted(e: Entry, f: Route, tlno: int, same: int, c: Claim)
    requires Inside(f, tlno, same, []) && tlno <= e.sLno && e.sLno + e.num <= same && e.owner == Target
    ensures Count(e, f, c) == All([e], c)
  {
    forall i | 0 <= i < e.num ensures f(LineOf(e, i)) == Same()(LineOf(e, i)) {
      assert f(LineOf(e, i)) == LineOf(e, i);
    }
    CountAlike(e, e, f, Same(), e.num, c);
    CountOne(e, Same(), c);
  }

  /** What is inside the chunk is kept, or carved up if the commit is ignored. */
  method KeepPiece(piece: Entry, tlno: int, same: int, blames: seq<LineBlame>, ghost f: Route)
    returns (kept: seq<Entry>, ignored: seq<Entry>)
    requires piece.num > 0 && piece.owner == Target && tlno <= piece.sLno && piece.sLno + piece.num <= same
    requires Inside(f, tlno, same, blames)
    ensures forall c :: Count(piece, f, c) == All(kept, c) + All(ignored, c)
    ensures Proper(kept) && Ignored(ignored) && (blames == [] ==> ignored == [])
    ensures Places(kept) == Starts(blames, tlno, piece.sLno, piece.sLno + piece.num)
  {
    if blames == [] {
      forall c ensures Count(piece, f, c) == All([piece], c) { StaysRouted(piece, f, tlno, same, c); }
      StartsPlain(tlno, piece.sLno, piece.sLno + piece.num);
      kept, ignored := [piece], [];
      assert Places(kept) == [piece.sLno];
    } else {
      kept, ignored := IgnoreBlameEntry(piece, blames[piece.sLno - tlno..], f, tlno, blames);
    }
  }

  /** One entry that starts in the chunk: what is after the chunk is split off. */
  method KeepOne(e: Entry, tlno: int, same: int, blames: seq<LineBlame>, ghost f: Route)
    returns (kept: seq<Entry>, ignored: seq<Entry>, over: seq<Entry>)
    requires e.num > 0 && e.owner == Target && tlno <= e.sLno < same && Inside(f, tlno, same, blames)
    ensures forall c :: Count(e, f, c) == All(kept, c) + All(ignored, c) + CountAll(over, f, c)
    ensures over == ClipOne(e, same) && Proper(kept) && Ignored(ignored) && (blames == [] ==> ignored == [])
    ensures Places(kept) == EntryPlaces(e, tlno, same, blames)
  {
    forall c ensures Count(e, f, c) == Count(Before(e, same), f, c) + CountAll(ClipOne(e, same), f, c) {
      CutRouted(e, same, f, c);
    }
    var piece := e;
    over := [];
    if e.sLno + e.num > same {
      piece, over := Head(e, same - e.sLno), [Tail(e, same - e.sLno)];
    }
    kept, ignored := KeepPiece(piece, tlno, same, blames, f);
  }

  /** What the second loop has made of the first `i` entries. */
  ghost predicate KeptSoFar(src: seq<Entry>, i: nat, kept: seq<Entry>, ignored: seq<Entry>, samep: seq<Entry>,
                            tlno: int, same: int, blames: seq<LineBlame>) {
    && i <= |src| && Proper(kept) && Ignored(ignored) && (blames == [] ==> ignored == [])
    && samep == Clip(src, i, same) && Places(kept) == ChunkPlaces(src, i, tlno, same, blames)
  }

  /** One turn of the second loop. */
  method KeepStep(src: seq<Entry>, i: nat, kept: seq<Entry>, ignored: seq<Entry>, samep: seq<Entry>, tlno: int,
                  same: int, blames: seq<LineBlame>, ghost f: Route)
    returns (kept': seq<Entry>, ignored': seq<Entry>, samep': seq<Entry>)
    requires i < |src| && Proper(src) && tlno <= src[i].sLno < same && Inside(f, tlno, same, blames)
    requires Balanced(src, i, kept, ignored, samep, f) && KeptSoFar(src, i, kept, ignored, samep, tlno, same, blames)
    ensures Balanced(src, i + 1, kept', ignored', samep', f)
    ensures KeptSoFar(src, i + 1, kept', ignored', samep', tlno, same, blames)
  {
    var k, g, over := KeepOne(src[i], tlno, same, blames, f);
    BalanceStep(src, i, kept, ignored, samep, f, k, g, over);
    PlacesMore(kept, k);
    return kept + k, ignored + g, samep + over;
  }

  /** The second loop of blame_chunk; no `blames` means that nothing is ignored. */
  method KeepInside(src: seq<Entry>, tlno: int, same: int, blames: seq<LineBlame>, ghost f: Route, ghost bound: int)
    returns (kept: seq<Entry>, ignored: seq<Entry>, rest: seq<Entry>)
    requires Listed(src, tlno, bound) && Inside(f, tlno, same, blames) && tlno <= same
    ensures Conserved(src, kept, ignored, rest, f)
    ensures Proper(kept) && Ignored(ignored) && (blames == [] ==> ignored == [])
    ensures Places(kept) == ChunkPlaces(src, |src|, tlno, same, blames)
    ensures rest == Clip(src, |src|, same) && Listed(rest, same, bound)
  {
    var i, samep := 0, [];
    kept, ignored := [], [];
    BalanceStart(src, f);
    while i < |src| && src[i].sLno < same
      invariant Balanced(src, i, kept, ignored, samep, f) && KeptSoFar(src, i, kept, ignored, samep, tlno, same, blames)
    {
      kept, ignored, samep := KeepStep(src, i, kept, ignored, samep, tlno, same, blames, f);
      i := i + 1;
    }
    BalanceEnd(src, i, kept, ignored, samep, f);
    RestClipped(src, i, same, tlno, bound);
    ChunkOver(src, i, tlno, same, blames);
    rest := samep + src[i..];
  }

  lemma {:induction false} ChunkOver(src: seq<Entry>, i: nat, tlno: int, same: int, blames: seq<LineBlame>)
    requires Ordered(src) && i <= |src| && (i < |src| ==> src[i].sLno >= same)
    ensures ChunkPlaces(src, |src|, tlno, same, blames) == ChunkPlaces(src, i, tlno, same, blames)
  {
    if i < |src| { OrderedAround(src, i); }
    ChunkEnd(src, i, |src|, tlno, same, blames);
  }

  /** blame_chunk: every line of the entries goes where the route says. */
  method BlameChunk(src: seq<Entry>, tlno: int, offset: int, same: int, blames: seq<LineBlame>, ghost f: Route,
                    ghost from: int, ghost bound: int)
    returns (moved: seq<Entry>, kept: seq<Entry>, ignored: seq<Entry>, rest: seq<Entry>)
    requires Listed(src, from, bound) && from <= tlno <= same
    requires PassesBefore(f, from, tlno, offset) && Inside(f, tlno, same, blames)
    ensures forall c :: CountAll(src, f, c) == All(moved, c) + All(kept, c) + All(ignored, c) + CountAll(rest, f, c)
    ensures Passed(moved, from + offset, tlno + offset)
    ensures Proper(kept) && Ignored(ignored) && (blames == [] ==> ignored == [])
    ensures Places(kept) == ChunkPlaces(src, |src|, tlno, same, blames)
    ensures rest == Clip(src, |src|, same) && Listed(rest, same, bound)
  {
    var list;
    moved, list := PassBefore(src, tlno, offset, f, from, bound);
    kept, ignored, rest := KeepInside(list, tlno, same, blames, f, bound);
    ClipTwice(src, |src|, tlno, same);
    ClipPlaces(src, |src|, tlno, tlno, same, blames);
  }

  // ---- all hunks ----

  /** The line of the parent that the diff equates with a line outside the hunks, and the line
      itself, or the guess for it, inside. */
  function Destination(hs: seq<Hunk>, guesses: seq<seq<LineBlame>>, i: nat, c: Claim): Claim
    requires i <= |hs| && |guesses| == |hs|
    decreases |hs| - i
  {
    if i == |hs| || c.at < hs[i].startB then Claim(c.line, Parent, c.at + EndA(hs, i) - EndB(hs, i))
    else if c.at < hs[i].startB + hs[i].countB then
      (if 0 <= c.at - hs[i].startB < |guesses[i]| then Guessed(c, guesses[i][c.at - hs[i].startB]) else c)
    else Destination(hs, guesses, i + 1, c)
  }

  /** The hunks are a diff of the two files: outside them the lines are the same. */
  ghost predicate DiffOf<T>(hs: seq<Hunk>, parent: seq<T>, target: seq<T>) {
    InOrder(hs) && forall i, k {:trigger SameLine(hs, parent, target, i, k)} ::
      0 <= i <= |hs| && EndB(hs, i) <= k < |target| && (i < |hs| ==> k < hs[i].startB) ==>
      SameLine(hs, parent, target, i, k)
  }

  ghost predicate SameLine<T>(hs: seq<Hunk>, parent: seq<T>, target: seq<T>, i: nat, k: int) {
    && i <= |hs| && 0 <= k < |target| && 0 <= k - EndB(hs, i) + EndA(hs, i) < |parent|
    && parent[k - EndB(hs, i) + EndA(hs, i)] == target[k]
  }

  /** The line is inside hunk `i`. */
  predicate InHunk(hs: seq<Hunk>, i: nat, at: int) {
    i < |hs| && hs[i].startB <= at < hs[i].startB + hs[i].countB
  }

  /** The claim goes where guess `k` for hunk `j` says. */
  ghost predicate GuessedIn(guesses: seq<seq<LineBlame>>, j: nat, k: int, c: Claim, r: Claim) {
    j < |guesses| && 0 <= k < |guesses[j]| && r == Guessed(c, guesses[j][k])
  }

  /** Blame moves only along lines that are the same: a line outside the hunks goes to a line of the
      parent with the same text, a line inside one stays, or goes where the guess for it says. */
  lemma {:induction false} DestinationMeans<T>(hs: seq<Hunk>, guesses: seq<seq<LineBlame>>, ignoring: bool, i: nat,
                                               parent: seq<T>, target: seq<T>, c: Claim)
    requires DiffOf(hs, parent, target) && Guesses(hs, guesses, ignoring) && i <= |hs|
    requires 0 <= c.at < |target| && EndB(hs, i) <= c.at
    ensures var r := Destination(hs, guesses, i, c);
            && r.line == c.line
            && ((forall j :: i <= j < |hs| ==> !InHunk(hs, j, c.at)) ==>
                 r.owner == Parent && 0 <= r.at < |parent| && parent[r.at] == target[c.at])
            && (forall j :: i <= j < |hs| && InHunk(hs, j, c.at) ==>
                 if ignoring then GuessedIn(guesses, j, c.at - hs[j].startB, c, r) else r == c)
    decreases |hs| - i
  {
    if i < |hs| { assert HunkInOrder(hs, i) && GuessesFor(hs[i], guesses[i], ignoring); }
    if i == |hs| || c.at < hs[i].startB {
      assert SameLine(hs, parent, target, i, c.at);
      forall j | i <= j < |hs| ensures !InHunk(hs, j, c.at) { StartsAfter(hs, i, j); }
    } else if InHunk(hs, i, c.at) {
      forall j | i < j < |hs| ensures !InHunk(hs, j, c.at) { StartsAfter(hs, i + 1, j); }
    } else {
      DestinationMeans(hs, guesses, ignoring, i + 1, parent, target, c);
    }
  }

  lemma {:induction false} StartsAfter(hs: seq<Hunk>, i: nat, j: nat)
    requires InOrder(hs) && i <= j < |hs|
    ensures hs[i].startB <= hs[j].startB && EndB(hs, i) <= hs[j].startB
    decreases j - i
  {
    assert HunkInOrder(hs, i) && HunkInOrder(hs, j);
    if i < j { StartsAfter(hs, i + 1, j); }
  }

  lemma {:induction false} DestinationFrom(hs: seq<Hunk>, guesses: seq<seq<LineBlame>>, i: nat, c: Claim)
    requires InOrder(hs) && |guesses| == |hs| && i <= |hs| && c.at >= EndB(hs, i)
    ensures Destination(hs, guesses, 0, c) == Destination(hs, guesses, i, c)
  {
    if i > 0 {
      assert HunkInOrder(hs, i - 1);
      DestinationFrom(hs, guesses, i - 1, c);
    }
  }

  lemma {:induction false} BeforeRoute(hs: seq<Hunk>, guesses: seq<seq<LineBlame>>, i: nat, c: Claim)
    requires InOrder(hs) && |guesses| == |hs| && i <= |hs| && EndB(hs, i) <= c.at && (i < |hs| ==> c.at < hs[i].startB)
    ensures Destination(hs, guesses, 0, c) == Claim(c.line, Parent, c.at + (EndA(hs, i) - EndB(hs, i)))
  {
    DestinationFrom(hs, guesses, i, c);
  }

  lemma {:induction false} InsideRoute(hs: seq<Hunk>, guesses: seq<seq<LineBlame>>, ignoring: bool, i: nat, c: Claim)
    requires InOrder(hs) && Guesses(hs, guesses, ignoring) && i < |hs| && 0 <= c.at - hs[i].startB < hs[i].countB
    ensures if guesses[i] == [] then Destination(hs, guesses, 0, c) == c
            else
              && |guesses[i]| == hs[i].countB
              && Destination(hs, guesses, 0, c) == Guessed(c, guesses[i][c.at - hs[i].startB])
  {
    assert HunkInOrder(hs, i) && GuessesFor(hs[i], guesses[i], ignoring);
    DestinationFrom(hs, guesses, i, c);
  }

  lemma {:induction false} HunkRoutes(hs: seq<Hunk>, guesses: seq<seq<LineBlame>>, ignoring: bool, i: nat, f: Route)
    requires InOrder(hs) && Guesses(hs, guesses, ignoring) && i < |hs|
    requires forall c {:trigger f(c)} :: f(c) == Destination(hs, guesses, 0, c)
    ensures PassesBefore(f, EndB(hs, i), hs[i].startB, EndA(hs, i) - EndB(hs, i))
    ensures Inside(f, hs[i].startB, hs[i].startB + hs[i].countB, guesses[i])
  {
    assert GuessesFor(hs[i], guesses[i], ignoring);
    forall c: Claim | EndB(hs, i) <= c.at < hs[i].startB
      ensures f(c) == Claim(c.line, Parent, c.at + (EndA(hs, i) - EndB(hs, i)))
    {
      BeforeRoute(hs, guesses, i, c);
    }
    forall c: Claim | hs[i].startB <= c.at < hs[i].startB + hs[i].countB
      ensures f(c) == if guesses[i] == [] then c else Guessed(c, guesses[i][c.at - hs[i].startB])
    {
      InsideRoute(hs, guesses, ignoring, i, c);
    }
  }

  lemma {:induction false} LastRoutes(hs: seq<Hunk>, guesses: seq<seq<LineBlame>>, f: Route, bound: int)
    requires InOrder(hs) && |guesses| == |hs|
    requires forall c {:trigger f(c)} :: f(c) == Destination(hs, guesses, 0, c)
    ensures PassesBefore(f, EndB(hs, |hs|), bound, EndA(hs, |hs|) - EndB(hs, |hs|)) && Inside(f, bound, bound, [])
  {
    forall c: Claim | EndB(hs, |hs|) <= c.at
      ensures f(c) == Claim(c.line, Parent, c.at + (EndA(hs, |hs|) - EndB(hs, |hs|)))
    {
      BeforeRoute(hs, guesses, |hs|, c);
    }
  }

  lemma {:induction false} PassedJoin(s: seq<Entry>, t: seq<Entry>, lo: int, mid: int, hi: int, hi': int)
    requires Passed(s, lo, mid) && Passed(t, mid, hi) && lo <= mid <= hi <= hi'
    ensures Passed(s + t, lo, hi')
  {
    var all := s + t;
    forall k, l | 0 <= k < l < |all| ensures NotAfter(all[k], all[l]) {
      if l < |s| {
        assert NotAfter(s[k], s[l]);
      } else if |s| <= k {
        assert NotAfter(t[k - |s|], t[l - |s|]);
      }
    }
  }

  /** The lists while the hunks are gone through: passed to the parent, kept, and still to do. */
  datatype Lists = Lists(dst: seq<Entry>, kept: seq<Entry>, rest: seq<Entry>)

  /** What holds before hunk `i`. */
  ghost predicate Passing(suspects: seq<Entry>, hs: seq<Hunk>, guesses: seq<seq<LineBlame>>, i: nat, l: Lists,
                          f: Route, plain: bool, bound: int) {
    && i <= |hs| == |guesses| && Conserved(suspects, l.dst, l.kept, l.rest, f)
    && l.rest == Clip(suspects, |suspects|, EndB(hs, i)) && Listed(l.rest, EndB(hs, i), bound)
    && Places(l.kept) == KeptPlaces(suspects, hs, guesses, i)
    && (plain ==> Passed(l.dst, 0, EndA(hs, i)))
  }

  lemma {:induction false} AddUp(suspects: seq<Entry>, l: Lists, moved: seq<Entry>, k: seq<Entry>, g: seq<Entry>,
                                 rest: seq<Entry>, f: Route)
    requires Conserved(suspects, l.dst, l.kept, l.rest, f)
    requires forall c :: CountAll(l.rest, f, c) == All(moved, c) + All(k, c) + All(g, c) + CountAll(rest, f, c)
    ensures Conserved(suspects, l.dst + moved + g, l.kept + k, rest, f)
  {
    forall c ensures CountAll(suspects, f, c) == All(l.dst + moved + g, c) + All(l.kept + k, c) + CountAll(rest, f, c) {
      CountJoin(l.dst, moved, Same(), c);
      CountJoin(l.dst + moved, g, Same(), c);
      CountJoin(l.kept, k, Same(), c);
    }
  }

  /** The ends of the hunks, as far as they are ordered. */
  lemma {:induction false} EndsOrdered(hs: seq<Hunk>, i: nat)
    requires InOrder(hs) && i <= |hs|
    ensures 0 <= EndB(hs, i) && 0 <= EndA(hs, i)
  {
    if i > 0 {
      assert HunkInOrder(hs, i - 1);
      EndsOrdered(hs, i - 1);
    }
  }

  /** blame_chunk_cb for hunk `i`; the internal error it guards against cannot happen. */
  method BlameChunkCb(ghost suspects: seq<Entry>, hs: seq<Hunk>, guesses: seq<seq<LineBlame>>, i: nat, l: Lists,
                      ghost f: Route, ghost plain: bool, ghost bound: int)
    returns (l': Lists)
    requires Proper(suspects) && InOrder(hs) && i < |hs| && Passing(suspects, hs, guesses, i, l, f, plain, bound)
    requires plain ==> guesses[i] == []
    requires PassesBefore(f, EndB(hs, i), hs[i].startB, EndA(hs, i) - EndB(hs, i))
    requires Inside(f, hs[i].startB, hs[i].startB + hs[i].countB, guesses[i])
    ensures Passing(suspects, hs, guesses, i + 1, l', f, plain, bound)
  {
    var h := hs[i];
    assert HunkInOrder(hs, i) && h.startA - h.startB == EndA(hs, i) - EndB(hs, i);
    var moved, kept, ignored, rest :=
      BlameChunk(l.rest, h.startB, h.startA - h.startB, h.startB + h.countB, guesses[i], f, EndB(hs, i), bound);
    l' := Lists(l.dst + moved + ignored, l.kept + kept, rest);
    AddUp(suspects, l, moved, kept, ignored, rest, f);
    NextPlaces(suspects, hs, guesses, i, l, kept);
    NextRest(suspects, hs, i, l.rest, rest);
    if plain { NextPassed(hs, i, l.dst, moved, ignored); }
  }

  lemma {:induction false} NextPlaces(suspects: seq<Entry>, hs: seq<Hunk>, guesses: seq<seq<LineBlame>>, i: nat,
                                      l: Lists, kept: seq<Entry>)
    requires i < |hs| == |guesses| && Proper(suspects) && HunkInOrder(hs, i)
    requires l.rest == Clip(suspects, |suspects|, EndB(hs, i)) && Places(l.kept) == KeptPlaces(suspects, hs, guesses, i)
    requires Places(kept) == HunkPlaces(l.rest, hs[i], guesses[i])
    ensures Places(l.kept + kept) == KeptPlaces(suspects, hs, guesses, i + 1)
  {
    ClipPlaces(suspects, |suspects|, EndB(hs, i), hs[i].startB, hs[i].startB + hs[i].countB, guesses[i]);
    PlacesMore(l.kept, kept);
  }

  lemma {:induction false} NextRest(suspects: seq<Entry>, hs: seq<Hunk>, i: nat, was: seq<Entry>, rest: seq<Entry>)
    requires Proper(suspects) && HunkInOrder(hs, i) && was == Clip(suspects, |suspects|, EndB(hs, i))
    requires rest == Clip(was, |was|, hs[i].startB + hs[i].countB)
    ensures rest == Clip(suspects, |suspects|, EndB(hs, i + 1))
  {
    ClipTwice(suspects, |suspects|, EndB(hs, i), EndB(hs, i + 1));
  }

  lemma {:induction false} NextPassed(hs: seq<Hunk>, i: nat, dst: seq<Entry>, moved: seq<Entry>, ignored: seq<Entry>)
    requires InOrder(hs) && HunkInOrder(hs, i) && ignored == []
    requires Passed(dst, 0, EndA(hs, i)) && Passed(moved, EndA(hs, i), hs[i].startA)
    ensures Passed(dst + moved + ignored, 0, EndA(hs, i + 1))
  {
    EndsOrdered(hs, i);
    PassedJoin(dst, moved, 0, EndA(hs, i), hs[i].startA, EndA(hs, i + 1));
    assert dst + moved + [] == dst + moved;
  }

  const INT_MAX := 0x7fff_ffff

  /** pass_blame_to_parent: every suspected line ends up in exactly one list, where the diff says.
      The list for the parent is in order; so are the entries kept, unless a commit is ignored and
      inside a hunk a suspect reaches more than two lines past where a later one starts. */
  method PassBlameToParent(suspects: seq<Entry>, hs: seq<Hunk>, guesses: seq<seq<LineBlame>>, ignoreDiffs: bool)
    returns (newdest: seq<Entry>, kept: seq<Entry>)
    requires Listed(suspects, 0, INT_MAX)
    requires InOrder(hs) && Guesses(hs, guesses, ignoreDiffs) && EndB(hs, |hs|) <= INT_MAX
    ensures forall c :: CountAll(suspects, d => Destination(hs, guesses, 0, d), c) == All(newdest, c) + All(kept, c)
    ensures Ordered(newdest) && Places(kept) == KeptPlaces(suspects, hs, guesses, |hs|)
    ensures !ignoreDiffs || Narrow(suspects, hs) ==> Ordered(kept)
  {
    ghost var f: Route := d => Destination(hs, guesses, 0, d);
    if suspects == [] {
      NothingKept(hs, guesses, |hs|);
      return [], [];
    }
    var l := PassHunks(suspects, hs, guesses, ignoreDiffs, f);
    newdest, kept := PassTheRest(suspects, hs, guesses, ignoreDiffs, l, f);
    if ignoreDiffs {
      var sorted := SortBlameEntries(newdest);
      forall c ensures All(newdest, c) == All(sorted, c) { CountPermuted(newdest, sorted, Same(), c); }
      newdest := sorted;
    }
    if !ignoreDiffs || Narrow(suspects, hs) {
      KeptSorted(suspects, hs, guesses, ignoreDiffs, |hs|);
      SortedPlaces(kept);
    }
  }

  lemma {:induction false} NothingKept(hs: seq<Hunk>, guesses: seq<seq<LineBlame>>, i: nat)
    requires i <= |hs| == |guesses|
    ensures KeptPlaces([], hs, guesses, i) == []
  {
    if i > 0 { NothingKept(hs, guesses, i - 1); }
  }

  /** All hunks of the diff. */
  method PassHunks(suspects: seq<Entry>, hs: seq<Hunk>, guesses: seq<seq<LineBlame>>, ghost ignoring: bool,
                   ghost f: Route)
    returns (l: Lists)
    requires Listed(suspects, 0, INT_MAX) && InOrder(hs) && Guesses(hs, guesses, ignoring)
    requires forall c {:trigger f(c)} :: f(c) == Destination(hs, guesses, 0, c)
    ensures Passing(suspects, hs, guesses, |hs|, l, f, !ignoring, INT_MAX)
  {
    l := Lists([], [], suspects);
    ClipNone(suspects, 0);
    for i := 0 to |hs|
      invariant Passing(suspects, hs, guesses, i, l, f, !ignoring, INT_MAX)
    {
      HunkRoutes(hs, guesses, ignoring, i, f);
      assert GuessesFor(hs[i], guesses[i], ignoring);
      l := BlameChunkCb(suspects, hs, guesses, i, l, f, !ignoring, INT_MAX);
    }
  }

  /** Nothing is left, or kept, beyond the last line. */
  lemma {:induction false} NothingBeyond(es: seq<Entry>, n: nat, bound: int)
    requires Within(es, bound) && n <= |es|
    ensures Clip(es, n, bound) == [] && ChunkPlaces(es, n, bound, bound, []) == []
  {
    if n > 0 {
      NothingBeyond(es, n - 1, bound);
      EntryWithin(es, n - 1, bound);
    }
  }

  lemma {:induction false} EntryWithin(es: seq<Entry>, i: nat, bound: int)
    requires Within(es, bound) && i < |es|
    ensures ClipOne(es[i], bound) == [] && EntryPlaces(es[i], bound, bound, []) == []
  {
  }

  /** The rest is the same as in the parent. */
  method PassTheRest(ghost suspects: seq<Entry>, hs: seq<Hunk>, ghost guesses: seq<seq<LineBlame>>,
                     ghost ignoring: bool, l: Lists, ghost f: Route)
    returns (newdest: seq<Entry>, kept: seq<Entry>)
    requires InOrder(hs) && EndB(hs, |hs|) <= INT_MAX && Passing(suspects, hs, guesses, |hs|, l, f, !ignoring, INT_MAX)
    requires forall c {:trigger f(c)} :: f(c) == Destination(hs, guesses, 0, c)
    ensures forall c :: CountAll(suspects, f, c) == All(newdest, c) + All(kept, c)
    ensures kept == l.kept && (!ignoring ==> Ordered(newdest))
  {
    LastRoutes(hs, guesses, f, INT_MAX);
    EndsOrdered(hs, |hs|);
    var offset := EndA(hs, |hs|) - EndB(hs, |hs|);
    var moved, k, ignored, rest := BlameChunk(l.rest, INT_MAX, offset, INT_MAX, [], f, EndB(hs, |hs|), INT_MAX);
    NothingBeyond(l.rest, |l.rest|, INT_MAX);
    assert Places(k) == [];
    AddUp(suspects, l, moved, k, ignored, rest, f);
    newdest, kept := l.dst + moved, l.kept;
    assert l.dst + moved + ignored == newdest && l.kept + k == kept;
    if !ignoring {
      PassedJoin(l.dst, moved, 0, EndA(hs, |hs|), INT_MAX + offset, INT_MAX + offset);
    }
  }

  // ---- splitting an entry around a copied stretch ----

  /** The three parts of split_overlap: before the stretch, blamed on the parent, after it. */
  datatype Split = Split(before: Option<Entry>, blamed: Option<Entry>, after: Option<Entry>)

  /** split_overlap: target lines [tlno, same) are lines from `plno` of the parent. */
  function SplitOverlap(e: Entry, tlno: int, plno: int, same: int): Split {
    var before := if e.sLno < tlno then Some(e.(num := tlno - e.sLno)) else None;
    var lno := if e.sLno < tlno then e.lno + tlno - e.sLno else e.lno;
    var sLno := if e.sLno < tlno then plno else plno + (e.sLno - tlno);
    var after := if same < e.sLno + e.num
      then Some(e.(lno := e.lno + (same - e.sLno), sLno := e.sLno + (same - e.sLno), num := e.sLno + e.num - same))
      else None;
    var end := if after.Some? then after.value.lno else e.lno + e.num;
    var blamed := if end - lno < 1 then None else Some(e.(owner := Parent, lno := lno, sLno := sLno, num := end - lno));
    Split(before, blamed, after)
  }

  /** split_blame: what goes to the parent and what stays. */
  function SplitBlame(s: Split): (seq<Entry>, seq<Entry>)
    requires s.blamed.Some?
  {
    ([s.blamed.value],
     (if s.before.Some? then [s.before.value] else []) + (if s.after.Some? then [s.after.value] else []))
  }

  /** There is something to blame the parent for exactly if the stretch and the entry overlap. */
  lemma {:induction false} SplitsOnOverlap(e: Entry, tlno: int, plno: int, same: int)
    requires e.num > 0
    ensures SplitOverlap(e, tlno, plno, same).blamed.Some? <==> tlno < same && tlno < e.sLno + e.num && e.sLno < same
  {
  }

  /** The entry cut at both ends of the stretch. */
  function CutA(e: Entry, tlno: int): int { if e.sLno < tlno then tlno - e.sLno else 0 }
  function CutB(e: Entry, same: int): int { if same < e.sLno + e.num then same - e.sLno else e.num }

  /** The parts of the split are the pieces between the cuts. */
  lemma {:induction false} Pieces(e: Entry, tlno: int, plno: int, same: int)
    requires e.num > 0 && SplitOverlap(e, tlno, plno, same).blamed.Some?
    ensures var s, a, b := SplitOverlap(e, tlno, plno, same), CutA(e, tlno), CutB(e, same);
            var h, m, t := Head(e, a), Head(Tail(e, a), b - a), Tail(Tail(e, a), b - a);
            && 0 <= a <= b <= e.num && tlno <= m.sLno && m.sLno + m.num <= same
            && s.blamed.value == m.(owner := Parent, sLno := plno + (m.sLno - tlno)) && m.num > 0
            && (if s.before.Some? then s.before.value == h && h.num > 0 && h.sLno + h.num <= tlno else h.num == 0)
            && (if s.after.Some? then s.after.value == t && t.num > 0 && same <= t.sLno else t.num == 0)
  {
    SplitsOnOverlap(e, tlno, plno, same);
  }

  /** Lines of the stretch belong to their line of the parent, the others stay. */
  ghost predicate Copies(f: Route, tlno: int, plno: int, same: int) {
    forall c {:trigger f(c)} :: f(c) == if tlno <= c.at < same then Claim(c.line, Parent, plno + (c.at - tlno)) else c
  }

  /** Every line of the entry ends up in one part: lines of the stretch on their line of the parent,
      the others as they were. */
  lemma {:induction false} SplitBlameConserves(e: Entry, tlno: int, plno: int, same: int, f: Route, c: Claim)
    requires e.num > 0 && e.owner == Target && SplitOverlap(e, tlno, plno, same).blamed.Some?
    requires Copies(f, tlno, plno, same)
    ensures var (blamed, unblamed) := SplitBlame(SplitOverlap(e, tlno, plno, same));
            Count(e, f, c) == All(blamed, c) + All(unblamed, c)
  {
    Pieces(e, tlno, plno, same);
    var s, a, b := SplitOverlap(e, tlno, plno, same), CutA(e, tlno), CutB(e, same);
    var h, m, t := Head(e, a), Head(Tail(e, a), b - a), Tail(Tail(e, a), b - a);
    SplitConserves(e, a, f, c);
    SplitConserves(Tail(e, a), b - a, f, c);
    CountAlike(m, s.blamed.value, f, Same(), m.num, c);
    CountAlike(h, h, f, Same(), h.num, c);
    CountAlike(t, t, f, Same(), t.num, c);
    PartsAll(s, h, t, c);
    CountOne(s.blamed.value, Same(), c);
  }

  lemma {:induction false} PartsAll(s: Split, h: Entry, t: Entry, c: Claim)
    requires s.blamed.Some? && (if s.before.Some? then s.before.value == h else h.num == 0)
    requires if s.after.Some? then s.after.value == t else t.num == 0
    ensures All(SplitBlame(s).1, c) == Count(h, Same(), c) + Count(t, Same(), c)
  {
    CountOne(h, Same(), c);
    CountOne(t, Same(), c);
    CountJoin(if s.before.Some? then [h] else [], if s.after.Some? then [t] else [], Same(), c);
  }
}
