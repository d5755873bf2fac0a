/** Fuzzy matching of the lines of a diff chunk (fuzzy_find_matching_lines).

`Naive` states what the matcher means: match the most certain line, take its fingerprint
away, and go on before and after it with everything recomputed. The matcher keeps
similarities and certainties across these steps and discards only a window of them. */
module FuzzyMatch {

  /** A line's fingerprint: the multiset of its byte pairs. */
  type Fingerprint = multiset<nat>

  /** map_line_number: the line of a range of `lengthA` lines from `startA` in proportion to line
      `k` of a range of `lengthB` lines. */
  function MapLineNumber(k: nat, startA: nat, lengthA: nat, lengthB: nat): int
    requires lengthB > 0
  {
    (k * 2 + 1) * lengthA / (lengthB * 2) + startA
  }

  /** The parent line that holds the centre of the target line when both ranges are stretched to the
      same length: it is in the range, and the line in the same place if both are as long. */
  lemma {:induction false} MapCentred(k: nat, startA: nat, lengthA: nat, lengthB: nat, r: int)
    requires k < lengthB && 0 < lengthA && r == MapLineNumber(k, startA, lengthA, lengthB)
    ensures startA <= r < startA + lengthA
    ensures (r - startA) * (2 * lengthB) <= (2 * k + 1) * lengthA < (r - startA + 1) * (2 * lengthB)
    ensures lengthA == lengthB ==> r == startA + k
  {
    var x, y := (k * 2 + 1) * lengthA, lengthB * 2;
    assert x == x / y * y + x % y;
    Scale(k * 2 + 1, y - 1, lengthA);
    assert (y - 1) * lengthA < lengthA * y;
    Quotient(x, y, x / y, x % y, lengthA);
    if lengthA == lengthB { MapEqual(k, lengthA); }
  }

  lemma {:induction false} MapEqual(k: nat, n: nat)
    requires n > 0
    ensures (k * 2 + 1) * n / (n * 2) == k
  {
    var x, y := (k * 2 + 1) * n, n * 2;
    assert x == k * y + n;
    assert x == x / y * y + x % y;
    Quotient(x, y, x / y, x % y, k + 1);
    DivideAtLeast(x, k, y);
  }

  lemma {:induction false} Quotient(x: int, y: nat, q: int, r: int, bound: nat)
    requires x == q * y + r && 0 <= r < y && 0 <= x < bound * y
    ensures 0 <= q < bound && q * y <= x < (q + 1) * y
  {
    assert (q + 1) * y == q * y + y;
    if q >= bound { Scale(bound, q, y); }
    if q < 0 { Scale(q, -1, y); }
  }

  /** Two lines and ten: the first five of ten map to the first of two, the others to the second; of
      two, the first maps to the third of ten and the second to the eighth. */
  lemma {:induction false} MapExamples(k: nat, startA: nat)
    requires k < 10
    ensures MapLineNumber(k, startA, 2, 10) == startA + if k < 5 then 0 else 1
    ensures MapLineNumber(0, startA, 10, 2) == startA + 2 && MapLineNumber(1, startA, 10, 2) == startA + 7
  {
  }

  /** max_search_distance_a */
  function MaxSearchDistanceA(lengthA: nat): nat {
    if 10 >= lengthA then (if lengthA > 0 then lengthA - 1 else 0) else 10
  }

  /** max_search_distance_b */
  function MaxSearchDistanceB(distanceA: nat, lengthA: nat, lengthB: nat): int
    requires lengthA > 0
  {
    ((2 * distanceA + 1) * lengthB - 1) / lengthA
  }

  /** The target side of a chunk: fingerprints `b`, for every line the parent line mapped to it,
      and the two search distances. */
  datatype Chunk = Chunk(b: seq<Fingerprint>, closest: seq<int>, distance: nat, window: nat) {
    predicate Valid() {
      |closest| == |b| && distance < 1000
    }

    /** Target line `k` is compared with parent line `a`. */
    predicate Near(k: nat, a: nat)
      requires k < |closest|
    {
      a <= closest[k] + distance && closest[k] <= a + distance
    }

    function Offset(k: nat, a: nat): nat
      requires k < |closest|
    {
      if a < closest[k] then closest[k] - a else a - closest[k]
    }

    /** Target lines more than `window` apart are compared with disjoint stretches of the parent. */
    ghost predicate Wide() {
      forall k, l :: 0 <= k < l < |closest| && l - k > window ==> closest[k] + distance < closest[l] - distance
    }
  }

  lemma {:induction false} Scale(x: int, y: int, m: nat)
    requires x <= y
    ensures x * m <= y * m
  {
  }

  lemma {:induction false} DivideAtLeast(y: int, t: int, m: nat)
    requires m > 0 && y >= t * m
    ensures y / m >= t
  {
    assert y == y / m * m + y % m;
    if y / m < t { Scale(y / m + 1, t, m); }
  }

  lemma {:induction false} DivideGap(x: int, y: int, m: nat, q: int)
    requires m > 0 && y >= x + q * m
    ensures y / m >= x / m + q
  {
    assert x == x / m * m + x % m;
    assert (x / m + q) * m == x / m * m + q * m;
    DivideAtLeast(y, x / m + q, m);
  }

  /** The integer-division bound behind the window: with g = ((2d+1)n - 1) / m, lines more than
      g apart lie at least (2d+1) n / m lines apart. */
  lemma {:induction false} GapBound(d: nat, n: nat, m: nat, gap: nat)
    requires n > 0 && m > 0 && gap > ((2 * d + 1) * n - 1) / m
    ensures gap * m >= (2 * d + 1) * n
  {
    var w := (2 * d + 1) * n - 1;
    assert w == w / m * m + w % m;
    Scale(w / m + 1, gap, m);
    assert (w / m + 1) * m == w / m * m + m;
  }

  /** The invalidation window is wide enough. */
  lemma {:induction false} WindowIsWide(startA: nat, lengthA: nat, lengthB: nat, k: nat, l: nat)
    requires lengthA > 0 && k < l < lengthB
    requires l - k > MaxSearchDistanceB(MaxSearchDistanceA(lengthA), lengthA, lengthB)
    ensures MapLineNumber(k, startA, lengthA, lengthB) + MaxSearchDistanceA(lengthA) <
            MapLineNumber(l, startA, lengthA, lengthB) - MaxSearchDistanceA(lengthA)
  {
    var d := MaxSearchDistanceA(lengthA);
    GapBound(d, lengthB, lengthA, l - k);
    LinearGap(k, l, lengthA);
    WidenedGap((k * 2 + 1) * lengthA, (l * 2 + 1) * lengthA, (l - k) * lengthA, d, lengthB);
  }

  lemma {:induction false} WidenedGap(x: int, y: int, gap: int, d: nat, n: nat)
    requires n > 0 && y - x == 2 * gap && gap >= (2 * d + 1) * n
    ensures y / (n * 2) >= x / (n * 2) + (2 * d + 1)
  {
    assert (2 * d + 1) * (n * 2) == 2 * ((2 * d + 1) * n);
    DivideGap(x, y, n * 2, 2 * d + 1);
  }

  lemma {:induction false} LinearGap(k: int, l: int, m: nat)
    ensures (l * 2 + 1) * m - (k * 2 + 1) * m == 2 * ((l - k) * m)
  {
  }

  /** Scores scaled by closeness, so that nearer lines win ties. */
  function Score(c: Chunk, a: seq<Fingerprint>, k: nat, i: nat): int
    requires c.Valid() && k < |c.b| && i < |a| && c.Near(k, i)
  {
    |c.b[k] * a[i]| * (1000 - c.Offset(k, i))
  }

  /** The best and the second best line seen, with their scores. */
  datatype Top = Top(best: int, index: nat, second: int, index2: nat)

  function Rank(t: Top, i: nat, score: int): Top {
    if score > t.best then Top(score, i, t.best, t.index)
    else if score > t.second then Top(t.best, t.index, score, i)
    else t
  }

  predicate InReach(c: Chunk, a: seq<Fingerprint>, k: nat, lo: nat, hi: nat) {
    c.Valid() && k < |c.b| && (lo < hi ==> hi <= |a|) && forall i :: lo <= i < hi ==> c.Near(k, i)
  }

  /** Ranking the parent lines lo, ..., hi - 1 for target line `k`; `start` stands for no line. */
  function Scan(c: Chunk, a: seq<Fingerprint>, k: nat, start: nat, lo: nat, hi: nat): (t: Top)
    requires InReach(c, a, k, lo, hi)
    ensures 0 <= t.second <= t.best && (t.best > 0 ==> lo <= t.index < hi)
    decreases hi
  {
    if hi <= lo then Top(0, start, 0, start) else Rank(Scan(c, a, k, start, lo, hi - 1), hi - 1, Score(c, a, k, hi - 1))
  }

  function Max(x: int, y: int): int { if x < y then y else x }
  function Min(x: int, y: int): int { if x < y then x else y }

  function SearchStart(c: Chunk, k: nat, a0: nat): nat
    requires c.Valid() && k < |c.b|
  {
    Max(c.closest[k] - c.distance, a0)
  }

  function SearchEnd(c: Chunk, k: nat, a1: nat): nat
    requires c.Valid() && k < |c.b|
  {
    Max(Min(c.closest[k] + c.distance + 1, a1), 0)
  }

  /** The ranking of the lines of [a0, a1) near enough to target line `k`. */
  function Ranking(c: Chunk, a: seq<Fingerprint>, k: nat, a0: nat, a1: nat): (t: Top)
    requires c.Valid() && k < |c.b| && a1 <= |a|
    ensures 0 <= t.second <= t.best && (t.best > 0 ==> a0 <= t.index < a1)
  {
    Scan(c, a, k, a0, SearchStart(c, k, a0), SearchEnd(c, k, a1))
  }

  const CERTAIN_NOTHING_MATCHES := -2
  const CERTAINTY_NOT_CALCULATED := -1

  function Certainty(t: Top): int {
    if t.best == 0 then CERTAIN_NOTHING_MATCHES else t.best * 2 - t.second
  }

  /** The first target line of [b0, b1) matched with most certainty, or -1. */
  function Choice(c: Chunk, a: seq<Fingerprint>, a0: nat, a1: nat, b0: nat, b1: nat): (k: int)
    requires c.Valid() && a1 <= |a| && b1 <= |c.b|
    ensures k == -1 || (b0 <= k < b1 && Ranking(c, a, k, a0, a1).best > 0)
  {
    if b1 <= b0 then -1
    else
      var k := Choice(c, a, a0, a1, b0, b1 - 1);
      var most := if k < 0 then -1 else Certainty(Ranking(c, a, k, a0, a1));
      if Certainty(Ranking(c, a, b1 - 1, a0, a1)) > most then b1 - 1 else k
  }

  /** How certain the match of target line `k` is. */
  ghost function Sure(c: Chunk, a: seq<Fingerprint>, a0: nat, a1: nat, k: nat): int
    requires c.Valid() && k < |c.b| && a1 <= |a|
  {
    Certainty(Ranking(c, a, k, a0, a1))
  }

  lemma {:induction false} ChoiceStep(c: Chunk, a: seq<Fingerprint>, a0: nat, a1: nat, b0: nat, b1: nat)
    requires c.Valid() && a1 <= |a| && b0 < b1 <= |c.b|
    ensures var k := Choice(c, a, a0, a1, b0, b1 - 1);
            var most := if k < 0 then -1 else Sure(c, a, a0, a1, k);
            Choice(c, a, a0, a1, b0, b1) == if Sure(c, a, a0, a1, b1 - 1) > most then b1 - 1 else k
  {
  }

  datatype Matched = Matched(lines: seq<int>, a: seq<Fingerprint>)

  function Glue(before: Matched, m: nat, after: Matched): Matched {
    Matched(before.lines + [m] + after.lines, after.a)
  }

  /** The parent's fingerprints once line `m` is matched with target line `k`. */
  function Less(c: Chunk, a: seq<Fingerprint>, k: nat, m: nat): (less: seq<Fingerprint>)
    requires k < |c.b| && m < |a|
    ensures |less| == |a|
  {
    a[m := a[m] - c.b[k]]
  }

  /** Matching target lines [b0, b1) with parent lines [a0, a1), nothing remembered. */
  function Naive(c: Chunk, a: seq<Fingerprint>, a0: nat, a1: nat, b0: nat, b1: nat): (r: Matched)
    requires c.Valid() && a1 <= |a| && b0 <= b1 <= |c.b|
    ensures |r.lines| == b1 - b0 && |r.a| == |a|
    decreases b1 - b0, 1
  {
    var k := Choice(c, a, a0, a1, b0, b1);
    if k < 0 then Matched(seq(b1 - b0, _ => -1), a)
    else NaiveAround(c, a, a0, a1, b0, b1, k, Ranking(c, a, k, a0, a1).index)
  }

  /** The lines before and after a match of `k` with `m`. */
  function NaiveAround(c: Chunk, a: seq<Fingerprint>, a0: nat, a1: nat, b0: nat, b1: nat, k: nat, m: nat): (r: Matched)
    requires c.Valid() && a0 <= m < a1 <= |a| && b0 <= k < b1 <= |c.b|
    ensures |r.lines| == b1 - b0 && |r.a| == |a|
    decreases b1 - b0, 0
  {
    var before := Naive(c, Less(c, a, k, m), a0, m + 1, b0, k);
    var after := Naive(c, before.a, m, a1, k + 1, b1);
    Glue(before, m, after)
  }

  /** Matches are in the parent range and in order. */
  ghost predicate Ordered(lines: seq<int>, a0: int, a1: int) {
    && (forall i :: 0 <= i < |lines| ==> lines[i] == -1 || a0 <= lines[i] < a1)
    && (forall i, j :: 0 <= i < j < |lines| && lines[i] >= 0 && lines[j] >= 0 ==> lines[i] <= lines[j])
  }

  /** One step of `Naive`: line `k` is matched with `m`. */
  lemma {:induction false} NaiveSplit(c: Chunk, a: seq<Fingerprint>, a0: nat, a1: nat, b0: nat, b1: nat)
    returns (k: nat, m: nat)
    requires c.Valid() && a1 <= |a| && b0 <= b1 <= |c.b| && Choice(c, a, a0, a1, b0, b1) >= 0
    ensures k == Choice(c, a, a0, a1, b0, b1) && b0 <= k < b1
    ensures m == Ranking(c, a, k, a0, a1).index && a0 <= m < a1
    ensures Naive(c, a, a0, a1, b0, b1) == NaiveAround(c, a, a0, a1, b0, b1, k, m)
  {
    k := Choice(c, a, a0, a1, b0, b1);
    m := Ranking(c, a, k, a0, a1).index;
  }

  lemma {:induction false} NaiveStop(c: Chunk, a: seq<Fingerprint>, a0: nat, a1: nat, b0: nat, b1: nat)
    requires c.Valid() && a1 <= |a| && b0 <= b1 <= |c.b| && Choice(c, a, a0, a1, b0, b1) < 0
    ensures Naive(c, a, a0, a1, b0, b1) == Matched(seq(b1 - b0, _ => -1), a)
  {
  }

  /** Matches never cross: `Naive` recurses into parent ranges that meet only in the match. */
  lemma {:induction false} NaiveOrdered(c: Chunk, a: seq<Fingerprint>, a0: nat, a1: nat, b0: nat, b1: nat)
    requires c.Valid() && a1 <= |a| && b0 <= b1 <= |c.b|
    ensures Ordered(Naive(c, a, a0, a1, b0, b1).lines, a0, a1)
    decreases b1 - b0, 1
  {
    if Choice(c, a, a0, a1, b0, b1) >= 0 {
      var k, m := NaiveSplit(c, a, a0, a1, b0, b1);
      AroundOrdered(c, a, a0, a1, b0, b1, k, m);
    } else {
      NaiveStop(c, a, a0, a1, b0, b1);
    }
  }

  lemma {:induction false} AroundOrdered(c: Chunk, a: seq<Fingerprint>, a0: nat, a1: nat, b0: nat, b1: nat, k: nat,
                                         m: nat)
    requires c.Valid() && a0 <= m < a1 <= |a| && b0 <= k < b1 <= |c.b|
    ensures Ordered(NaiveAround(c, a, a0, a1, b0, b1, k, m).lines, a0, a1)
    decreases b1 - b0, 0
  {
    var before := Naive(c, Less(c, a, k, m), a0, m + 1, b0, k);
    var after := Naive(c, before.a, m, a1, k + 1, b1);
    NaiveOrdered(c, Less(c, a, k, m), a0, m + 1, b0, k);
    NaiveOrdered(c, before.a, m, a1, k + 1, b1);
    JoinOrdered(before.lines, m, after.lines, a0, a1);
  }

  lemma {:induction false} JoinOrdered(before: seq<int>, m: int, after: seq<int>, a0: int, a1: int)
    requires Ordered(before, a0, m + 1) && Ordered(after, m, a1) && 0 <= a0 <= m < a1
    ensures Ordered(before + [m] + after, a0, a1)
  {
    var all := before + [m] + after;
    assert forall i :: 0 <= i < |all| ==>
      all[i] == (if i < |before| then before[i] else if i == |before| then m else after[i - |before| - 1]);
  }
}
