/** The order of blame entries: which source lines the entries left with a target start at, when
they are in order, and the merge sort of the list passed to the parent. */
module BlameOrder {
  import opened BlameLines

  /** A hunk of the diff from the parent to the target. */
  datatype Hunk = Hunk(startA: int, countA: int, startB: int, countB: int)

  /** Where a line inside a chunk goes if the commit is to be ignored (struct blame_line_tracker). */
  datatype LineBlame = LineBlame(isParent: bool, sLno: int)

  /** A line that stays keeps its number (guess_line_blames). */
  ghost predicate OwnNumbers(blames: seq<LineBlame>, tlno: int) {
    forall k :: 0 <= k < |blames| && !blames[k].isParent ==> blames[k].sLno == tlno + k
  }

  /** One guess for every line of a chunk, if the commit is to be ignored. */
  ghost predicate GuessesFor(h: Hunk, blames: seq<LineBlame>, ignoring: bool) {
    |blames| == (if ignoring then h.countB else 0) && OwnNumbers(blames, h.startB)
  }

  ghost predicate Guesses(hs: seq<Hunk>, guesses: seq<seq<LineBlame>>, ignoring: bool) {
    |guesses| == |hs| && forall i :: 0 <= i < |hs| ==> GuessesFor(hs[i], guesses[i], ignoring)
  }

  ghost predicate Sorted(s: seq<int>) {
    forall i, j :: 0 <= i < j < |s| ==> s[i] <= s[j]
  }

  /** All of `s` is at most all of `t`. */
  ghost predicate AtMost(s: seq<int>, t: seq<int>) {
    forall x, y :: x in s && y in t ==> x <= y
  }

  lemma {:induction false} SortedJoin(s: seq<int>, t: seq<int>)
    requires Sorted(s) && Sorted(t) && AtMost(s, t)
    ensures Sorted(s + t)
  {
    forall i, j | 0 <= i < j < |s + t| ensures (s + t)[i] <= (s + t)[j] {
      if i < |s| <= j { assert s[i] in s && t[j - |s|] in t; }
    }
  }

  lemma {:induction false} UnsortedJoin(s: seq<int>, t: seq<int>)
    requires !Sorted(s) || !Sorted(t)
    ensures !Sorted(s + t)
  {
    if !Sorted(s) {
      var k, l :| 0 <= k < l < |s| && s[k] > s[l];
      assert (s + t)[k] > (s + t)[l];
    } else {
      var k, l :| 0 <= k < l < |t| && t[k] > t[l];
      assert (s + t)[|s| + k] > (s + t)[|s| + l];
    }
  }

  /** A place `x` of `s` comes before a smaller place `y` of `t`. */
  lemma {:induction false} CrossedJoin(s: seq<int>, t: seq<int>, u: seq<int>, x: int, y: int)
    requires x in s && y in t && x > y && s + t <= u
    ensures !Sorted(u)
  {
    var k :| 0 <= k < |s| && s[k] == x;
    var l :| 0 <= l < |t| && t[l] == y;
    assert u[k] == (s + t)[k] == x && u[|s| + l] == (s + t)[|s| + l] == y;
  }

  /** The source lines at which entries start. */
  function Places(es: seq<Entry>): seq<int> {
    seq(|es|, k requires 0 <= k < |es| => es[k].sLno)
  }

  lemma {:induction false} PlacesMore(s: seq<Entry>, t: seq<Entry>)
    ensures Places(s + t) == Places(s) + Places(t)
  {
  }

  lemma {:induction false} SortedPlaces(es: seq<Entry>)
    ensures Sorted(Places(es)) <==> Ordered(es)
  {
    if Sorted(Places(es)) {
      forall i, j | 0 <= i < j < |es| ensures NotAfter(es[i], es[j]) { assert Places(es)[i] <= Places(es)[j]; }
    } else {
      var i, j :| 0 <= i < j < |es| && Places(es)[i] > Places(es)[j];
      assert !NotAfter(es[i], es[j]);
    }
  }

  // ---- where kept entries start ----

  /** Whether line `x` stays with the target; `blames` begin at line `tlno`. */
  predicate Stays(blames: seq<LineBlame>, tlno: int, x: int) {
    0 <= x - tlno < |blames| ==> !blames[x - tlno].isParent
  }

  /** Line `x` begins a stretch of lines that stay, among the lines from `lo`. */
  predicate Begins(blames: seq<LineBlame>, tlno: int, lo: int, x: int) {
    Stays(blames, tlno, x) && (x == lo || !Stays(blames, tlno, x - 1))
  }

  /** The lines in [lo, hi) that begin such a stretch. */
  function Starts(blames: seq<LineBlame>, tlno: int, lo: int, hi: int): seq<int>
    decreases hi - lo
  {
    if hi <= lo then []
    else Starts(blames, tlno, lo, hi - 1) + if Begins(blames, tlno, lo, hi - 1) then [hi - 1] else []
  }

  lemma {:induction false} InStarts(blames: seq<LineBlame>, tlno: int, lo: int, hi: int, x: int)
    ensures x in Starts(blames, tlno, lo, hi) <==> lo <= x < hi && Begins(blames, tlno, lo, x)
    decreases hi - lo
  {
    if lo < hi {
      InStarts(blames, tlno, lo, hi - 1, x);
      InJoin(Starts(blames, tlno, lo, hi - 1), if Begins(blames, tlno, lo, hi - 1) then [hi - 1] else [], x);
    }
  }

  lemma {:induction false} InJoin(s: seq<int>, t: seq<int>, x: int)
    ensures x in s + t <==> x in s || x in t
  {
  }

  lemma {:induction false} StartsAre(blames: seq<LineBlame>, tlno: int, lo: int, hi: int)
    ensures forall x :: x in Starts(blames, tlno, lo, hi) <==> lo <= x < hi && Begins(blames, tlno, lo, x)
  {
    forall x ensures x in Starts(blames, tlno, lo, hi) <==> lo <= x < hi && Begins(blames, tlno, lo, x) {
      InStarts(blames, tlno, lo, hi, x);
    }
  }

  lemma {:induction false} StartsSorted(blames: seq<LineBlame>, tlno: int, lo: int, hi: int)
    ensures Sorted(Starts(blames, tlno, lo, hi))
    decreases hi - lo
  {
    if lo < hi && Begins(blames, tlno, lo, hi - 1) {
      StartsSorted(blames, tlno, lo, hi - 1);
      StartsAre(blames, tlno, lo, hi - 1);
      SortedJoin(Starts(blames, tlno, lo, hi - 1), [hi - 1]);
    } else if lo < hi {
      StartsSorted(blames, tlno, lo, hi - 1);
    }
  }

  /** The guesses cut off before `lo`. */
  lemma {:induction false} StartsShift(blames: seq<LineBlame>, tlno: int, lo: int, hi: int)
    requires 0 <= lo - tlno <= |blames|
    ensures Starts(blames, tlno, lo, hi) == Starts(blames[lo - tlno..], lo, lo, hi)
    decreases hi - lo
  {
    if lo < hi {
      StartsShift(blames, tlno, lo, hi - 1);
      var x := hi - 1;
      assert Stays(blames, tlno, x) == Stays(blames[lo - tlno..], lo, x);
      assert x > lo ==> Stays(blames, tlno, x - 1) == Stays(blames[lo - tlno..], lo, x - 1);
    }
  }

  /** A stretch that stays as a whole begins once. */
  lemma {:induction false} StartsPlain(tlno: int, lo: int, hi: int)
    requires lo < hi
    ensures Starts([], tlno, lo, hi) == [lo]
    decreases hi - lo
  {
    if lo + 1 < hi { StartsPlain(tlno, lo, hi - 1); }
  }

  /** The part of an entry inside a chunk. */
  function Low(e: Entry, tlno: int): int { if e.sLno < tlno then tlno else e.sLno }
  function High(e: Entry, same: int): int { if e.sLno + e.num > same then same else e.sLno + e.num }

  /** Where the parts of an entry start that stay in the chunk [tlno, same). */
  function EntryPlaces(e: Entry, tlno: int, same: int, blames: seq<LineBlame>): seq<int> {
    Starts(blames, tlno, Low(e, tlno), High(e, same))
  }

  /** The same for the first `n` entries of a list. */
  function ChunkPlaces(es: seq<Entry>, n: nat, tlno: int, same: int, blames: seq<LineBlame>): seq<int>
    requires n <= |es|
  {
    if n == 0 then []
    else ChunkPlaces(es, n - 1, tlno, same, blames) + EntryPlaces(es[n - 1], tlno, same, blames)
  }

  lemma {:induction false} ChunkDepends(s: seq<Entry>, t: seq<Entry>, n: nat, tlno: int, same: int,
                                        blames: seq<LineBlame>)
    requires n <= |s| && n <= |t| && forall k :: 0 <= k < n ==> s[k] == t[k]
    ensures ChunkPlaces(s, n, tlno, same, blames) == ChunkPlaces(t, n, tlno, same, blames)
  {
    if n > 0 { ChunkDepends(s, t, n - 1, tlno, same, blames); }
  }

  /** Entries that start after the chunk have no part in it. */
  lemma {:induction false} ChunkEnd(es: seq<Entry>, i: nat, j: nat, tlno: int, same: int, blames: seq<LineBlame>)
    requires i <= j <= |es| && forall k :: i <= k < j ==> es[k].sLno >= same
    ensures ChunkPlaces(es, j, tlno, same, blames) == ChunkPlaces(es, i, tlno, same, blames)
    decreases j - i
  {
    if i < j { ChunkEnd(es, i, j - 1, tlno, same, blames); }
  }

  function HunkPlaces(es: seq<Entry>, h: Hunk, blames: seq<LineBlame>): seq<int> {
    ChunkPlaces(es, |es|, h.startB, h.startB + h.countB, blames)
  }

  /** Where the kept entries start after the first `i` hunks. */
  function KeptPlaces(suspects: seq<Entry>, hs: seq<Hunk>, guesses: seq<seq<LineBlame>>, i: nat): seq<int>
    requires i <= |hs| && |guesses| == |hs|
  {
    if i == 0 then []
    else KeptPlaces(suspects, hs, guesses, i - 1) + HunkPlaces(suspects, hs[i - 1], guesses[i - 1])
  }

  // ---- entries cut off at a line ----

  /** What is left of an entry from line `t` on. */
  function ClipOne(e: Entry, t: int): seq<Entry> {
    if e.sLno + e.num <= t then [] else if e.sLno < t then [Tail(e, t - e.sLno)] else [e]
  }

  /** The same for the first `n` entries of a list. */
  function Clip(es: seq<Entry>, n: nat, t: int): seq<Entry>
    requires n <= |es|
  {
    if n == 0 then [] else Clip(es, n - 1, t) + ClipOne(es[n - 1], t)
  }

  lemma {:induction false} ClipDepends(s: seq<Entry>, s': seq<Entry>, n: nat, t: int)
    requires n <= |s| && n <= |s'| && forall k :: 0 <= k < n ==> s[k] == s'[k]
    ensures Clip(s, n, t) == Clip(s', n, t)
  {
    if n > 0 { ClipDepends(s, s', n - 1, t); }
  }

  /** Entries that start later are left as they are. */
  lemma {:induction false} ClipEnd(es: seq<Entry>, i: nat, j: nat, t: int)
    requires i <= j <= |es| && forall k :: i <= k < j ==> es[k].sLno >= t && es[k].num > 0
    ensures Clip(es, j, t) == Clip(es, i, t) + es[i..j]
    decreases j - i
  {
    if i < j {
      ClipEnd(es, i, j - 1, t);
      Regroup(Clip(es, i, t), es[i..j - 1], es[j - 1]);
      assert es[i..j] == es[i..j - 1] + [es[j - 1]];
    }
  }

  lemma {:induction false} Regroup(s: seq<Entry>, t: seq<Entry>, e: Entry)
    ensures (s + t) + [e] == s + (t + [e])
  {
  }

  lemma {:induction false} ClipNone(es: seq<Entry>, t: int)
    requires Proper(es) && forall k :: 0 <= k < |es| ==> es[k].sLno >= t
    ensures Clip(es, |es|, t) == es
  {
    ClipEnd(es, 0, |es|, t);
    assert es[..|es|] == es;
  }

  /** One more entry, or none. */
  lemma {:induction false} ClipMore(es: seq<Entry>, part: seq<Entry>, t: int)
    requires |part| <= 1
    ensures Clip(es + part, |es + part|, t) == Clip(es, |es|, t) + if part == [] then [] else ClipOne(part[0], t)
  {
    ClipDepends(es + part, es, |es|, t);
  }

  lemma {:induction false} ClipOneTwice(e: Entry, t: int, t': int)
    requires t <= t' && e.num > 0
    ensures if ClipOne(e, t) == [] then ClipOne(e, t') == [] else ClipOne(ClipOne(e, t)[0], t') == ClipOne(e, t')
  {
  }

  lemma {:induction false} ClipTwice(es: seq<Entry>, n: nat, t: int, t': int)
    requires t <= t' && Proper(es) && n <= |es|
    ensures Clip(Clip(es, n, t), |Clip(es, n, t)|, t') == Clip(es, n, t')
  {
    if n > 0 {
      ClipTwice(es, n - 1, t, t');
      ClipOneTwice(es[n - 1], t, t');
      ClipMore(Clip(es, n - 1, t), ClipOne(es[n - 1], t), t');
    }
  }

  lemma {:induction false} ChunkMore(es: seq<Entry>, part: seq<Entry>, tlno: int, same: int, blames: seq<LineBlame>)
    requires |part| <= 1
    ensures ChunkPlaces(es + part, |es + part|, tlno, same, blames) ==
            ChunkPlaces(es, |es|, tlno, same, blames) + if part == []
              then [] else EntryPlaces(part[0], tlno, same, blames)
  {
    ChunkDepends(es + part, es, |es|, tlno, same, blames);
  }

  lemma {:induction false} ClipOnePlaces(e: Entry, t: int, tlno: int, same: int, blames: seq<LineBlame>)
    requires t <= tlno && e.num > 0
    ensures EntryPlaces(e, tlno, same, blames) ==
            if ClipOne(e, t) == [] then [] else EntryPlaces(ClipOne(e, t)[0], tlno, same, blames)
  {
  }

  /** Cutting off what comes before a chunk changes nothing in it. */
  lemma {:induction false} ClipPlaces(es: seq<Entry>, n: nat, t: int, tlno: int, same: int, blames: seq<LineBlame>)
    requires t <= tlno && Proper(es) && n <= |es|
    ensures ChunkPlaces(Clip(es, n, t), |Clip(es, n, t)|, tlno, same, blames) == ChunkPlaces(es, n, tlno, same, blames)
  {
    if n > 0 {
      ClipPlaces(es, n - 1, t, tlno, same, blames);
      ClipPlacesStep(es[n - 1], Clip(es, n - 1, t), t, tlno, same, blames);
    }
  }

  lemma {:induction false} ClipPlacesStep(e: Entry, es: seq<Entry>, t: int, tlno: int, same: int,
                                          blames: seq<LineBlame>)
    requires t <= tlno && e.num > 0
    ensures ChunkPlaces(es + ClipOne(e, t), |es + ClipOne(e, t)|, tlno, same, blames) ==
            ChunkPlaces(es, |es|, tlno, same, blames) + EntryPlaces(e, tlno, same, blames)
  {
    ClipOnePlaces(e, t, tlno, same, blames);
    ChunkMore(es, ClipOne(e, t), tlno, same, blames);
  }

  // ---- when kept entries are in order ----

  ghost predicate HunkInOrder(hs: seq<Hunk>, i: nat) {
    && i < |hs| && hs[i].countA >= 0 && hs[i].countB >= 0
    && EndB(hs, i) <= hs[i].startB && hs[i].startA - EndA(hs, i) == hs[i].startB - EndB(hs, i)
  }

  /** Where the hunks before hunk `i` end. */
  function EndA(hs: seq<Hunk>, i: nat): int
    requires i <= |hs|
  {
    if i == 0 then 0 else hs[i - 1].startA + hs[i - 1].countA
  }

  function EndB(hs: seq<Hunk>, i: nat): int
    requires i <= |hs|
  {
    if i == 0 then 0 else hs[i - 1].startB + hs[i - 1].countB
  }

  /** Hunks in order, with as many lines between them on both sides. */
  ghost predicate InOrder(hs: seq<Hunk>) {
    forall i :: 0 <= i < |hs| ==> HunkInOrder(hs, i)
  }

  /** If `e` meets the chunk [tlno, same), an entry `d` before it in the list reaches at most two lines
      past where `e` starts inside the chunk. */
  ghost predicate NarrowPair(d: Entry, e: Entry, tlno: int, same: int) {
    Low(e, tlno) < High(e, same) ==> High(d, same) <= Low(e, tlno) + 2
  }

  ghost predicate NarrowIn(es: seq<Entry>, tlno: int, same: int) {
    forall i, j :: 0 <= i < j < |es| ==> NarrowPair(es[i], es[j], tlno, same)
  }

  /** In no hunk does a suspect reach more than two lines past where a later suspect starts in it. */
  ghost predicate Narrow(suspects: seq<Entry>, hs: seq<Hunk>) {
    forall h :: 0 <= h < |hs| ==> NarrowIn(suspects, hs[h].startB, hs[h].startB + hs[h].countB)
  }

  /** If there is nothing to ignore, every part starts where its entry does. */
  lemma {:induction false} PairAtMost(d: Entry, e: Entry, tlno: int, same: int, blames: seq<LineBlame>)
    requires d.sLno <= e.sLno && (blames == [] || NarrowPair(d, e, tlno, same))
    ensures AtMost(EntryPlaces(d, tlno, same, blames), EntryPlaces(e, tlno, same, blames))
  {
    StartsAre(blames, tlno, Low(d, tlno), High(d, same));
    StartsAre(blames, tlno, Low(e, tlno), High(e, same));
    forall x, y | x in EntryPlaces(d, tlno, same, blames) && y in EntryPlaces(e, tlno, same, blames) ensures x <= y {
      assert x == Low(d, tlno) || !Stays(blames, tlno, x - 1);
      assert Stays(blames, tlno, y);
    }
  }

  lemma {:induction false} AllAtMost(es: seq<Entry>, i: nat, e: Entry, tlno: int, same: int, blames: seq<LineBlame>)
    requires i <= |es|
    requires forall k :: 0 <= k < i ==> es[k].sLno <= e.sLno && (blames == [] || NarrowPair(es[k], e, tlno, same))
    ensures AtMost(ChunkPlaces(es, i, tlno, same, blames), EntryPlaces(e, tlno, same, blames))
  {
    if i > 0 {
      AllAtMost(es, i - 1, e, tlno, same, blames);
      PairAtMost(es[i - 1], e, tlno, same, blames);
    }
  }

  lemma {:induction false} ChunkSorted(es: seq<Entry>, i: nat, tlno: int, same: int, blames: seq<LineBlame>)
    requires i <= |es| && Ordered(es) && (blames == [] || NarrowIn(es, tlno, same))
    ensures Sorted(ChunkPlaces(es, i, tlno, same, blames))
    ensures forall x :: x in ChunkPlaces(es, i, tlno, same, blames) ==> tlno <= x < same
  {
    if i > 0 {
      ChunkSorted(es, i - 1, tlno, same, blames);
      OrderedAround(es, i - 1);
      AllAtMost(es, i - 1, es[i - 1], tlno, same, blames);
      StartsAre(blames, tlno, Low(es[i - 1], tlno), High(es[i - 1], same));
      StartsSorted(blames, tlno, Low(es[i - 1], tlno), High(es[i - 1], same));
      SortedJoin(ChunkPlaces(es, i - 1, tlno, same, blames), EntryPlaces(es[i - 1], tlno, same, blames));
    }
  }

  /** Kept entries are in order if nothing is ignored, or overlaps are narrow. */
  lemma {:induction false} KeptSorted(suspects: seq<Entry>, hs: seq<Hunk>, guesses: seq<seq<LineBlame>>,
                                      ignoring: bool, i: nat)
    requires i <= |hs| && Ordered(suspects) && InOrder(hs) && Guesses(hs, guesses, ignoring)
    requires ignoring ==> Narrow(suspects, hs)
    ensures Sorted(KeptPlaces(suspects, hs, guesses, i))
    ensures forall x :: x in KeptPlaces(suspects, hs, guesses, i) ==> x < EndB(hs, i)
  {
    if i > 0 {
      var h := hs[i - 1];
      KeptSorted(suspects, hs, guesses, ignoring, i - 1);
      assert HunkInOrder(hs, i - 1) && GuessesFor(h, guesses[i - 1], ignoring);
      ChunkSorted(suspects, |suspects|, h.startB, h.startB + h.countB, guesses[i - 1]);
      SortedJoin(KeptPlaces(suspects, hs, guesses, i - 1),
                 HunkPlaces(suspects, h, guesses[i - 1]));
    }
  }

  /** Guesses that send line `x` to the parent and keep the others. */
  function OneLine(h: Hunk, x: int): (r: seq<LineBlame>)
    ensures h.countB >= 0 ==> GuessesFor(h, r, true)
    ensures forall y :: Stays(r, h.startB, y) <==> y != x || !(h.startB <= x < h.startB + h.countB)
  {
    seq(if h.countB < 0 then 0 else h.countB, k requires 0 <= k =>
      if h.startB + k == x then LineBlame(true, 0) else LineBlame(false, h.startB + k))
  }

  function OneLineOfAll(hs: seq<Hunk>, x: int): (r: seq<seq<LineBlame>>)
    ensures |r| == |hs| && forall i :: 0 <= i < |hs| ==> r[i] == OneLine(hs[i], x)
  {
    seq(|hs|, i requires 0 <= i < |hs| => OneLine(hs[i], x))
  }

  lemma {:induction false} OneLineGuesses(hs: seq<Hunk>, x: int)
    requires InOrder(hs)
    ensures Guesses(hs, OneLineOfAll(hs, x), true)
  {
    forall i | 0 <= i < |hs| ensures GuessesFor(hs[i], OneLineOfAll(hs, x)[i], true) { assert HunkInOrder(hs, i); }
  }

  /** Two places of a later and an earlier entry in the wrong order. */
  lemma {:induction false} ChunkUnsorted(es: seq<Entry>, i: nat, j: nat, tlno: int, same: int, blames: seq<LineBlame>,
                                         x: int, y: int)
    requires i < j < |es| && x > y
    requires x in EntryPlaces(es[i], tlno, same, blames) && y in EntryPlaces(es[j], tlno, same, blames)
    ensures !Sorted(ChunkPlaces(es, |es|, tlno, same, blames))
  {
    var before := ChunkPlaces(es, j, tlno, same, blames);
    EntryIn(es, i, j, tlno, same, blames, x);
    ChunkGrows(es, j + 1, |es|, tlno, same, blames);
    CrossedJoin(before, EntryPlaces(es[j], tlno, same, blames), ChunkPlaces(es, |es|, tlno, same, blames), x, y);
  }

  lemma {:induction false} EntryIn(es: seq<Entry>, i: nat, j: nat, tlno: int, same: int, blames: seq<LineBlame>, x: int)
    requires i < j <= |es| && x in EntryPlaces(es[i], tlno, same, blames)
    ensures x in ChunkPlaces(es, j, tlno, same, blames)
  {
    ChunkGrows(es, i + 1, j, tlno, same, blames);
    InJoin(ChunkPlaces(es, i, tlno, same, blames), EntryPlaces(es[i], tlno, same, blames), x);
    InPrefix(ChunkPlaces(es, i + 1, tlno, same, blames), ChunkPlaces(es, j, tlno, same, blames), x);
  }

  lemma {:induction false} InPrefix(s: seq<int>, t: seq<int>, x: int)
    requires s <= t && x in s
    ensures x in t
  {
  }

  lemma {:induction false} ChunkGrows(es: seq<Entry>, i: nat, j: nat, tlno: int, same: int, blames: seq<LineBlame>)
    requires i <= j <= |es|
    ensures ChunkPlaces(es, i, tlno, same, blames) <= ChunkPlaces(es, j, tlno, same, blames)
    decreases j
  {
    if i < j { ChunkGrows(es, i, j - 1, tlno, same, blames); }
  }

  lemma {:induction false} KeptHolds(suspects: seq<Entry>, hs: seq<Hunk>, guesses: seq<seq<LineBlame>>, h: nat, i: nat)
    requires h < i <= |hs| == |guesses|
    requires !Sorted(HunkPlaces(suspects, hs[h], guesses[h]))
    ensures !Sorted(KeptPlaces(suspects, hs, guesses, i))
  {
    if h < i - 1 { KeptHolds(suspects, hs, guesses, h, i - 1); }
    UnsortedJoin(KeptPlaces(suspects, hs, guesses, i - 1),
                 HunkPlaces(suspects, hs[i - 1], guesses[i - 1]));
  }

  /** A wide overlap goes wrong: keep the line where the later entry starts and the one after next,
      and pass on the line between them. */
  lemma {:induction false} WideUnsorted(suspects: seq<Entry>, hs: seq<Hunk>, h: nat, i: nat, j: nat)
    returns (guesses: seq<seq<LineBlame>>)
    requires Ordered(suspects) && InOrder(hs) && h < |hs| && i < j < |suspects|
    requires !NarrowPair(suspects[i], suspects[j], hs[h].startB, hs[h].startB + hs[h].countB)
    ensures Guesses(hs, guesses, true) && !Sorted(KeptPlaces(suspects, hs, guesses, |hs|))
  {
    var tlno, same := hs[h].startB, hs[h].startB + hs[h].countB;
    var y := Low(suspects[j], tlno);
    guesses := OneLineOfAll(hs, y + 1);
    OneLineGuesses(hs, y + 1);
    OrderedAround(suspects, j);
    WidePlaces(suspects[i], suspects[j], tlno, same, guesses[h], y);
    ChunkUnsorted(suspects, i, j, tlno, same, guesses[h], y + 2, y);
    KeptHolds(suspects, hs, guesses, h, |hs|);
  }

  lemma {:induction false} WidePlaces(d: Entry, e: Entry, tlno: int, same: int, blames: seq<LineBlame>, y: int)
    requires d.sLno <= e.sLno && !NarrowPair(d, e, tlno, same) && y == Low(e, tlno)
    requires Stays(blames, tlno, y) && !Stays(blames, tlno, y + 1) && Stays(blames, tlno, y + 2)
    ensures y + 2 in EntryPlaces(d, tlno, same, blames) && y in EntryPlaces(e, tlno, same, blames)
  {
    StartsAre(blames, tlno, Low(d, tlno), High(d, same));
    StartsAre(blames, tlno, Low(e, tlno), High(e, same));
    assert Begins(blames, tlno, Low(e, tlno), y) && Begins(blames, tlno, Low(d, tlno), y + 2);
  }

  /** When a commit is ignored, the kept entries are in order whatever the guesses exactly if in no
      hunk a suspect reaches more than two lines past where a later suspect starts. */
  lemma {:induction false} OrderExact(suspects: seq<Entry>, hs: seq<Hunk>)
    requires Ordered(suspects) && InOrder(hs)
    ensures Narrow(suspects, hs) <==>
            forall guesses :: Guesses(hs, guesses, true) ==> Sorted(KeptPlaces(suspects, hs, guesses, |hs|))
  {
    if Narrow(suspects, hs) {
      forall guesses | Guesses(hs, guesses, true) ensures Sorted(KeptPlaces(suspects, hs, guesses, |hs|)) {
        KeptSorted(suspects, hs, guesses, true, |hs|);
      }
    } else {
      var h :| 0 <= h < |hs| && !NarrowIn(suspects, hs[h].startB, hs[h].startB + hs[h].countB);
      var i, j :| 0 <= i < j < |suspects|
        && !NarrowPair(suspects[i], suspects[j], hs[h].startB, hs[h].startB + hs[h].countB);
      var guesses := WideUnsorted(suspects, hs, h, i, j);
    }
  }

  /** An entry of three lines and one of a single line, both of the same source line. */
  function OverlappingSuspects(): seq<Entry> {
    [Entry(0, 3, Target, 0, false, false), Entry(10, 1, Target, 0, false, false)]
  }

  function OverlapGuesses(): seq<LineBlame> { [LineBlame(false, 0), LineBlame(true, 0), LineBlame(false, 2)] }

  lemma {:induction false} OverlapStarts()
    ensures Starts(OverlapGuesses(), 0, 0, 1) == [0] && Starts(OverlapGuesses(), 0, 0, 3) == [0, 2]
  {
    var blames := OverlapGuesses();
    assert Starts(blames, 0, 0, 0) == [];
    assert Starts(blames, 0, 0, 1) == [0];
    assert Starts(blames, 0, 0, 2) == [0];
  }

  lemma {:induction false} OverlapUnsorted()
    ensures var hs := [Hunk(0, 3, 0, 3)];
            && Ordered(OverlappingSuspects()) && InOrder(hs) && Guesses(hs, [OverlapGuesses()], true)
            && KeptPlaces(OverlappingSuspects(), hs, [OverlapGuesses()], 1) == [0, 2, 0]
  {
    var blames, es := OverlapGuesses(), OverlappingSuspects();
    OverlapStarts();
    assert ChunkPlaces(es, 0, 0, 3, blames) == [];
    assert ChunkPlaces(es, 1, 0, 3, blames) == [0, 2];
    assert ChunkPlaces(es, 2, 0, 3, blames) == [0, 2, 0];
    assert KeptPlaces(es, [Hunk(0, 3, 0, 3)], [blames], 0) == [];
  }

  // ---- sorting the entries passed to the parent ----

  /** Merging two sorted lists, `s` first where they tie. */
  function Merge(s: seq<Entry>, t: seq<Entry>): (r: seq<Entry>)
    decreases |s| + |t|
  {
    if s == [] then t
    else if t == [] then s
    else if s[|s| - 1].sLno <= t[|t| - 1].sLno then Merge(s, t[..|t| - 1]) + [t[|t| - 1]]
    else Merge(s[..|s| - 1], t) + [s[|s| - 1]]
  }

  lemma {:induction false} LastOut(s: seq<Entry>)
    requires s != []
    ensures multiset(s) == multiset(s[..|s| - 1]) + multiset{s[|s| - 1]}
  {
    assert s == s[..|s| - 1] + [s[|s| - 1]];
  }

  lemma {:induction false} MergeHolds(s: seq<Entry>, t: seq<Entry>)
    ensures multiset(Merge(s, t)) == multiset(s) + multiset(t)
    decreases |s| + |t|
  {
    if s != [] && t != [] {
      if s[|s| - 1].sLno <= t[|t| - 1].sLno {
        MergeHolds(s, t[..|t| - 1]);
        LastOut(t);
      } else {
        MergeHolds(s[..|s| - 1], t);
        LastOut(s);
      }
    }
  }

  /** No entry starts after line `x`. */
  ghost predicate UpTo(s: seq<Entry>, x: int) {
    forall k :: 0 <= k < |s| ==> s[k].sLno <= x
  }

  lemma {:induction false} OrderedMore(s: seq<Entry>, e: Entry)
    requires Ordered(s) && UpTo(s, e.sLno)
    ensures Ordered(s + [e])
  {
  }

  lemma {:induction false} MergeOrdered(s: seq<Entry>, t: seq<Entry>, x: int)
    requires Ordered(s) && Ordered(t) && UpTo(s, x) && UpTo(t, x)
    ensures Ordered(Merge(s, t)) && UpTo(Merge(s, t), x)
    decreases |s| + |t|
  {
    if s != [] && t != [] {
      var e, d := s[|s| - 1], t[|t| - 1];
      OrderedAround(s, |s| - 1);
      OrderedAround(t, |t| - 1);
      if e.sLno <= d.sLno {
        MergeOrdered(s, t[..|t| - 1], d.sLno);
        OrderedMore(Merge(s, t[..|t| - 1]), d);
      } else {
        MergeOrdered(s[..|s| - 1], t, e.sLno);
        OrderedMore(Merge(s[..|s| - 1], t), e);
      }
    }
  }

  lemma {:induction false} MergeSorted(s: seq<Entry>, t: seq<Entry>)
    requires Ordered(s) && Ordered(t)
    ensures Ordered(Merge(s, t)) && multiset(Merge(s, t)) == multiset(s) + multiset(t)
  {
    MergeHolds(s, t);
    var x, y := if s == [] then 0 else s[|s| - 1].sLno, if t == [] then 0 else t[|t| - 1].sLno;
    if s != [] { OrderedAround(s, |s| - 1); }
    if t != [] { OrderedAround(t, |t| - 1); }
    MergeOrdered(s, t, if x < y then y else x);
  }

  /** All entries of the first `n` sub-lists of the merge sort. */
  function Contents(ranks: seq<seq<Entry>>, n: nat): multiset<Entry>
    requires n <= |ranks|
  {
    if n == 0 then multiset{} else Contents(ranks, n - 1) + multiset(ranks[n - 1])
  }

  ghost predicate AllOrdered(ranks: seq<seq<Entry>>) {
    forall i :: 0 <= i < |ranks| ==> Ordered(ranks[i])
  }

  lemma {:induction false} Exchange<T>(a: multiset<T>, b: multiset<T>, c: multiset<T>, d: multiset<T>, x: multiset<T>)
    requires a + b == c + d
    ensures (a + x) + b == (c + x) + d
  {
    assert (a + x) + b == (a + b) + x == (c + d) + x == (c + x) + d;
  }

  lemma {:induction false} ContentsDepend(ranks: seq<seq<Entry>>, other: seq<seq<Entry>>, n: nat)
    requires n <= |ranks| && n <= |other| && forall k :: 0 <= k < n ==> ranks[k] == other[k]
    ensures Contents(ranks, n) == Contents(other, n)
  {
    if n > 0 { ContentsDepend(ranks, other, n - 1); }
  }

  lemma {:induction false} Swapped(ranks: seq<seq<Entry>>, i: nat, list: seq<Entry>, n: nat)
    requires i < n <= |ranks|
    ensures Contents(ranks[i := list], n) + multiset(ranks[i]) == Contents(ranks, n) + multiset(list)
  {
    if i < n - 1 {
      Swapped(ranks, i, list, n - 1);
      Exchange(Contents(ranks[i := list], n - 1), multiset(ranks[i]), Contents(ranks, n - 1), multiset(list),
               multiset(ranks[n - 1]));
    } else {
      ContentsDepend(ranks, ranks[i := list], i);
      Around(Contents(ranks, i), multiset(ranks[i]), multiset(list));
    }
  }

  lemma {:induction false} Around<T>(a: multiset<T>, b: multiset<T>, c: multiset<T>)
    ensures (a + c) + b == (a + b) + c
  {
  }

  lemma {:induction false} Taken<T>(c: multiset<T>, c': multiset<T>, rank: multiset<T>, list: multiset<T>,
                                    total: multiset<T>)
    requires c' + rank == c && c + list == total
    ensures c' + (rank + list) == total
  {
  }

  /** Put a list in the sub-lists from rank `i` on, as if adding to a binary number: it is merged
      with every sub-list met, up to a free rank. */
  method Carry(ranks: seq<seq<Entry>>, item: seq<Entry>) returns (r: seq<seq<Entry>>)
    requires AllOrdered(ranks) && Ordered(item)
    ensures AllOrdered(r) && Contents(r, |r|) == Contents(ranks, |ranks|) + multiset(item)
  {
    var i, list := 0, item;
    r := ranks;
    while i < |r| && r[i] != []
      invariant i <= |r| && AllOrdered(r) && Ordered(list)
      invariant Contents(r, |r|) + multiset(list) == Contents(ranks, |ranks|) + multiset(item)
      decreases |r| - i
    {
      MergeSorted(r[i], list);
      Swapped(r, i, [], |r|);
      Taken(Contents(r, |r|), Contents(r[i := []], |r|), multiset(r[i]), multiset(list),
            Contents(ranks, |ranks|) + multiset(item));
      list, r, i := Merge(r[i], list), r[i := []], i + 1;
    }
    if i < |r| {
      Swapped(r, i, list, |r|);
      r := r[i := list];
    } else {
      ContentsDepend(r, r + [list], |r|);
      r := r + [list];
    }
  }

  /** sort_blame_entries for entries with one suspect: the merge sort of linked lists. */
  method SortBlameEntries(es: seq<Entry>) returns (sorted: seq<Entry>)
    ensures Ordered(sorted) && multiset(sorted) == multiset(es)
  {
    var ranks: seq<seq<Entry>> := [];
    for k := 0 to |es|
      invariant AllOrdered(ranks) && Contents(ranks, |ranks|) == multiset(es[..k])
    {
      assert es[..k + 1] == es[..k] + [es[k]];
      ranks := Carry(ranks, [es[k]]);
    }
    assert es[..|es|] == es;
    sorted := [];
    for i := 0 to |ranks|
      invariant Ordered(sorted) && multiset(sorted) == Contents(ranks, i)
    {
      MergeSorted(ranks[i], sorted);
      sorted := Merge(ranks[i], sorted);
    }
  }

  lemma {:induction false} CountWithout(es: seq<Entry>, i: nat, f: Route, c: Claim)
    requires i < |es|
    ensures CountAll(es, f, c) == CountAll(es[..i] + es[i + 1..], f, c) + Count(es[i], f, c)
  {
    CountSuffix(es, i, f, c);
    CountSuffix(es, i + 1, f, c);
    CountJoin(es[..i], es[i + 1..], f, c);
    CountDepends(es, es[..i], i, f, c);
  }

  lemma {:induction false} Without(t: seq<Entry>, i: nat, m: multiset<Entry>)
    requires i < |t| && multiset(t) == m + multiset{t[i]}
    ensures multiset(t[..i] + t[i + 1..]) == m
  {
    assert t == t[..i] + ([t[i]] + t[i + 1..]);
    var rest := multiset(t[..i] + t[i + 1..]);
    assert multiset(t) == rest + multiset{t[i]};
    assert rest == (rest + multiset{t[i]}) - multiset{t[i]} == (m + multiset{t[i]}) - multiset{t[i]} == m;
  }

  /** The lines of entries do not depend on their order. */
  lemma {:induction false} CountPermuted(s: seq<Entry>, t: seq<Entry>, f: Route, c: Claim)
    requires multiset(s) == multiset(t)
    ensures CountAll(s, f, c) == CountAll(t, f, c)
    decreases |s|
  {
    if s == [] {
      assert |multiset(t)| == 0;
    } else {
      var e := s[|s| - 1];
      LastOut(s);
      assert e in multiset(t);
      var i :| 0 <= i < |t| && t[i] == e;
      Without(t, i, multiset(s[..|s| - 1]));
      CountPermuted(s[..|s| - 1], t[..i] + t[i + 1..], f, c);
      CountWithout(t, i, f, c);
      CountDepends(s, s[..|s| - 1], |s| - 1, f, c);
    }
  }
}
