/** What the matches of a chunk are, stated of the lines themselves: shared byte pairs, distances, and
what is left of the parent's fingerprints. */
module FuzzyMeaning {
  import opened FuzzyMatch
  import opened FuzzyMemo

  // ---- scores ----

  ghost predicate Disjoint(s: Fingerprint, t: Fingerprint) { s * t == multiset{} }

  lemma {:induction false} ScorePositive(c: Chunk, a: seq<Fingerprint>, k: nat, i: nat)
    requires c.Valid() && k < |c.b| && i < |a| && c.Near(k, i)
    ensures Score(c, a, k, i) >= 0 && (Score(c, a, k, i) == 0 <==> Disjoint(c.b[k], a[i]))
  {
    var n, f := |c.b[k] * a[i]|, 1000 - c.Offset(k, i);
    if n > 0 { Scale(1, n, f); }
  }

  /** Of two lines that share as many byte pairs the closer one scores more. */
  lemma {:induction false} CloserWins(c: Chunk, a: seq<Fingerprint>, k: nat, i: nat, j: nat)
    requires c.Valid() && k < |c.b| && i < |a| && j < |a| && c.Near(k, i) && c.Near(k, j)
    requires |c.b[k] * a[i]| == |c.b[k] * a[j]| > 0 && c.Offset(k, i) < c.Offset(k, j)
    ensures Score(c, a, k, i) > Score(c, a, k, j)
  {
    var n, x, y := |c.b[k] * a[i]|, 1000 - c.Offset(k, i), 1000 - c.Offset(k, j);
    Scale(y + 1, x, n);
    assert x * n == n * x && (y + 1) * n == n * y + n;
  }

  /** A line that shares n + 1 byte pairs at distance `x` scores more than one that shares `n` at `y`. */
  predicate Beats(n: nat, x: nat, y: nat) { (n + 1) * (1000 - x) > n * (1000 - y) }

  /** Closeness only breaks ties among lines that share fewer than (1000 - d) / d byte pairs: exactly
      then does one more shared byte pair win at every distance up to `d`. */
  lemma {:induction false} MoreSharedWins(n: nat, d: nat)
    requires d < 1000
    ensures n * d < 1000 - d <==> forall x: nat, y: nat :: x <= d && y <= d ==> Beats(n, x, y)
  {
    assert (n + 1) * (1000 - d) == n * 1000 - n * d + (1000 - d);
    if n * d < 1000 - d {
      forall x: nat, y: nat | x <= d && y <= d ensures Beats(n, x, y) {
        Scale(1000 - d, 1000 - x, n + 1);
        Scale(1000 - y, 1000, n);
        assert (1000 - x) * (n + 1) == (n + 1) * (1000 - x) && (1000 - d) * (n + 1) == (n + 1) * (1000 - d);
        assert (1000 - y) * n == n * (1000 - y);
      }
    } else {
      assert !Beats(n, d, 0);
    }
  }

  /** So up to 98 shared byte pairs one more wins at every distance up to ten, and with 99 against a
      hundred ten lines of distance make it even. */
  lemma {:induction false} SharedAgainstClose(c: Chunk, a: seq<Fingerprint>, k: nat, i: nat, j: nat, n: nat)
    requires c.Valid() && k < |c.b| && i < |a| && j < |a| && c.Near(k, i) && c.Near(k, j)
    requires |c.b[k] * a[i]| == n + 1 && |c.b[k] * a[j]| == n
    ensures n <= 98 && c.Offset(k, i) <= 10 && c.Offset(k, j) <= 10 ==> Score(c, a, k, i) > Score(c, a, k, j)
    ensures n == 99 && c.Offset(k, i) == 10 && c.Offset(k, j) == 0 ==> Score(c, a, k, i) == Score(c, a, k, j)
  {
    MoreSharedWins(n, 10);
    if n <= 98 && c.Offset(k, i) <= 10 && c.Offset(k, j) <= 10 { assert Beats(n, c.Offset(k, i), c.Offset(k, j)); }
  }

  ghost function Sevens(n: nat): Fingerprint { multiset{}[7 := n] }

  /** A line of a hundred equal byte pairs, in its place a line with 99 of them, and ten lines on the line
      itself: both score the same, so the first one is taken. */
  lemma {:induction false} DrawExample(c: Chunk, a: seq<Fingerprint>, window: nat)
    requires c == Chunk([Sevens(100)], [0], 10, window) && |a| == 11 && a[0] == Sevens(99) && a[10] == Sevens(100)
    ensures c.Near(0, 0) && c.Near(0, 10) && Score(c, a, 0, 0) == Score(c, a, 0, 10)
  {
    assert Sevens(100) * Sevens(99) == Sevens(99) && Sevens(100) * Sevens(100) == Sevens(100);
    assert |Sevens(99)| == 99 && |Sevens(100)| == 100;
  }

  // ---- the order of matching ----

  /** Of the lines of [a0, a1) near target line `k`, `m` is the first with the most score, `s`, and `t`
      is the most any other has. */
  ghost predicate TopTwo(c: Chunk, a: seq<Fingerprint>, a0: nat, a1: nat, k: nat, m: nat, s: int, t: int) {
    && c.Valid() && k < |c.b| && a1 <= |a| && a0 <= m < a1 && c.Near(k, m) && Score(c, a, k, m) == s && s > 0 && t >= 0
    && (forall i :: a0 <= i < a1 && c.Near(k, i) ==> Score(c, a, k, i) <= s && (i < m ==> Score(c, a, k, i) < s))
    && (forall i :: a0 <= i < a1 && c.Near(k, i) && i != m ==> Score(c, a, k, i) <= t)
    && (t > 0 ==> exists i :: a0 <= i < a1 && c.Near(k, i) && i != m && Score(c, a, k, i) == t)
  }

  /** No line of [b0, b1) that has a best match beats 2s - t, or reaches it before `k`. */
  ghost predicate MostCertain(c: Chunk, a: seq<Fingerprint>, a0: nat, a1: nat, b0: nat, b1: nat, k: nat, s: int,
                              t: int) {
    forall l, m', s', t' {:trigger TopTwo(c, a, a0, a1, l, m', s', t')} ::
      b0 <= l < b1 && TopTwo(c, a, a0, a1, l, m', s', t') ==>
        2 * s' - t' <= 2 * s - t && (l < k ==> 2 * s' - t' < 2 * s - t)
  }

  /** No line of [b0, b1) is matched with more certainty than `k` with `m`, and none before it with as much. */
  ghost predicate Certain(c: Chunk, a: seq<Fingerprint>, a0: nat, a1: nat, b0: nat, b1: nat, k: nat, m: nat, s: int,
                          t: int) {
    TopTwo(c, a, a0, a1, k, m, s, t) && MostCertain(c, a, a0, a1, b0, b1, k, s, t)
  }

  ghost predicate AllSettled(c: Chunk, a: seq<Fingerprint>, a0: nat, a1: nat, b0: nat, b1: nat) {
    forall k, i :: b0 <= k < b1 && a0 <= i < a1 ==> SettledAt(c, a, k, i)
  }

  lemma {:induction false} RankingIsTop(c: Chunk, a: seq<Fingerprint>, a0: nat, a1: nat, k: nat)
    requires c.Valid() && k < |c.b| && a1 <= |a| && Ranking(c, a, k, a0, a1).best > 0
    ensures var t := Ranking(c, a, k, a0, a1); TopTwo(c, a, a0, a1, k, t.index, t.best, t.second)
  {
    ScanRanked(c, a, k, a0, SearchStart(c, k, a0), SearchEnd(c, k, a1));
  }

  lemma {:induction false} TopIsRanking(c: Chunk, a: seq<Fingerprint>, a0: nat, a1: nat, k: nat, m: nat, s: int, t: int)
    requires TopTwo(c, a, a0, a1, k, m, s, t)
    ensures var u := Ranking(c, a, k, a0, a1); u.best == s && u.second == t && u.index == m
  {
    var lo, hi := SearchStart(c, k, a0), SearchEnd(c, k, a1);
    var u := Ranking(c, a, k, a0, a1);
    ScanRanked(c, a, k, a0, lo, hi);
    assert Score(c, a, k, m) <= u.best;
    if u.second > 0 { assert Score(c, a, k, u.index2) == u.second; }
  }

  lemma {:induction false} ChoiceIsMost(c: Chunk, a: seq<Fingerprint>, a0: nat, a1: nat, b0: nat, b1: nat, l: nat)
    requires c.Valid() && a1 <= |a| && b1 <= |c.b| && Choice(c, a, a0, a1, b0, b1) >= 0 && b0 <= l < b1
    ensures var k := Choice(c, a, a0, a1, b0, b1);
            && Sure(c, a, a0, a1, l) <= Sure(c, a, a0, a1, k) && (l < k ==>
               Sure(c, a, a0, a1, l) < Sure(c, a, a0, a1, k))
    decreases b1
  {
    ChoiceStep(c, a, a0, a1, b0, b1);
    if l < b1 - 1 {
      if Choice(c, a, a0, a1, b0, b1 - 1) >= 0 {
        ChoiceIsMost(c, a, a0, a1, b0, b1 - 1, l);
      } else {
        NoChoice(c, a, a0, a1, b0, b1 - 1, l);
      }
    }
  }

  lemma {:induction false} ChoiceIsMostCertain(c: Chunk, a: seq<Fingerprint>, a0: nat, a1: nat, b0: nat, b1: nat,
                                               k: nat, u: Top)
    requires c.Valid() && a1 <= |a| && b1 <= |c.b| && k == Choice(c, a, a0, a1, b0, b1)
    requires u == Ranking(c, a, k, a0, a1)
    ensures TopTwo(c, a, a0, a1, k, u.index, u.best, u.second)
    ensures MostCertain(c, a, a0, a1, b0, b1, k, u.best, u.second)
  {
    RankingIsTop(c, a, a0, a1, k);
    forall l, m', s', t' | b0 <= l < b1 && TopTwo(c, a, a0, a1, l, m', s', t')
      ensures 2 * s' - t' <= 2 * u.best - u.second && (l < k ==> 2 * s' - t' < 2 * u.best - u.second)
    {
      TopIsRanking(c, a, a0, a1, l, m', s', t');
      ChoiceIsMost(c, a, a0, a1, b0, b1, l);
    }
  }

  /** The line chosen, and how certain it is. */
  lemma {:induction false} ChosenMatch(c: Chunk, a: seq<Fingerprint>, a0: nat, a1: nat, b0: nat, b1: nat, k: nat,
                                       m: nat)
    returns (s: int, t: int)
    requires c.Valid() && a1 <= |a| && b1 <= |c.b| && k == Choice(c, a, a0, a1, b0, b1)
    requires m == Ranking(c, a, k, a0, a1).index
    ensures Certain(c, a, a0, a1, b0, b1, k, m, s, t) && SharesAt(c, a, k, m)
  {
    var u := Ranking(c, a, k, a0, a1);
    ChoiceIsMostCertain(c, a, a0, a1, b0, b1, k, u);
    ScorePositive(c, a, k, m);
    s, t := u.best, u.second;
  }

  lemma {:induction false} ChosenShares(c: Chunk, a: seq<Fingerprint>, a0: nat, a1: nat, b0: nat, b1: nat, k: nat,
                                        m: nat)
    requires c.Valid() && a1 <= |a| && b1 <= |c.b| && k == Choice(c, a, a0, a1, b0, b1)
    requires m == Ranking(c, a, k, a0, a1).index
    ensures SharesAt(c, a, k, m)
  {
    var _, _ := ChosenMatch(c, a, a0, a1, b0, b1, k, m);
  }

  lemma {:induction false} NothingChosen(c: Chunk, a: seq<Fingerprint>, a0: nat, a1: nat, b0: nat, b1: nat)
    requires c.Valid() && a1 <= |a| && b0 <= b1 <= |c.b| && Choice(c, a, a0, a1, b0, b1) < 0
    ensures AllSettled(c, a, a0, a1, b0, b1)
  {
    forall k, i | b0 <= k < b1 && a0 <= i < a1 ensures SettledAt(c, a, k, i) {
      NoChoice(c, a, a0, a1, b0, b1, k);
      NothingNear(c, a, k, a0, a1, i);
    }
  }

  /** The most certain line of all is matched with its best match, unless no line shares anything with
      a near one. */
  lemma {:induction false} MostCertainMatched(c: Chunk, a: seq<Fingerprint>, a0: nat, a1: nat, b0: nat, b1: nat,
                                              r: Matched)
    returns (k: nat, m: nat, s: int, t: int)
    requires c.Valid() && a1 <= |a| && b0 <= b1 <= |c.b| && r == Naive(c, a, a0, a1, b0, b1)
    ensures if AllSettled(c, a, a0, a1, b0, b1) then forall j :: 0 <= j < |r.lines| ==> r.lines[j] == -1
            else b0 <= k < b1 && Certain(c, a, a0, a1, b0, b1, k, m, s, t) && r.lines[k - b0] == m
  {
    if Choice(c, a, a0, a1, b0, b1) >= 0 {
      k, m := NaiveSplit(c, a, a0, a1, b0, b1);
      s, t := ChosenMatch(c, a, a0, a1, b0, b1, k, m);
      assert !SettledAt(c, a, k, m);
    } else {
      k, m, s, t := 0, 0, 0, 0;
      NaiveStop(c, a, a0, a1, b0, b1);
      NothingChosen(c, a, a0, a1, b0, b1);
    }
  }

  lemma {:induction false} ShrunkTwice(a: seq<Fingerprint>, b: seq<Fingerprint>, c: seq<Fingerprint>,
                                       d: seq<Fingerprint>)
    requires Shrunk(a, b) && Shrunk(b, c) && Shrunk(c, d)
    ensures Shrunk(a, d)
  {
  }

  // ---- matches ----

  /** Matched lines share a byte pair with their match, and are near it. */
  ghost predicate Sharing(c: Chunk, a: seq<Fingerprint>, b0: nat, lines: seq<int>)
    requires c.Valid() && b0 + |lines| <= |c.b|
  {
    forall j :: 0 <= j < |lines| && lines[j] >= 0 ==> SharesAt(c, a, b0 + j, lines[j])
  }

  ghost predicate SharesAt(c: Chunk, a: seq<Fingerprint>, k: nat, m: nat) {
    c.Valid() && k < |c.b| && m < |a| && c.Near(k, m) && !Disjoint(c.b[k], a[m])
  }

  lemma {:induction false} SharesMore(c: Chunk, a: seq<Fingerprint>, a': seq<Fingerprint>, k: nat, m: nat)
    requires SharesAt(c, a', k, m) && Shrunk(a, a')
    ensures SharesAt(c, a, k, m)
  {
    assert c.b[k] * a'[m] <= c.b[k] * a[m];
  }

  lemma {:induction false} JoinSharing(c: Chunk, a: seq<Fingerprint>, less: seq<Fingerprint>, mid: seq<Fingerprint>,
                                       b0: nat, before: seq<int>, m: nat, after: seq<int>)
    requires c.Valid() && b0 + |before| + 1 + |after| <= |c.b| && Shrunk(a, less) && Shrunk(less, mid)
    requires Sharing(c, less, b0, before) && Sharing(c, mid, b0 + |before| + 1, after)
    requires SharesAt(c, a, b0 + |before|, m)
    ensures Sharing(c, a, b0, before + [m] + after)
  {
    var lines := before + [m] + after;
    forall j | 0 <= j < |lines| && lines[j] >= 0 ensures SharesAt(c, a, b0 + j, lines[j]) {
      if j < |before| {
        assert lines[j] == before[j];
        SharesMore(c, a, less, b0 + j, lines[j]);
      } else if j > |before| {
        var i := j - |before| - 1;
        assert lines[j] == after[i] && SharesAt(c, mid, b0 + |before| + 1 + i, after[i]);
        SharesMore(c, a, mid, b0 + j, lines[j]);
      }
    }
  }

  // ---- what is left ----

  /** How often byte pair `x` is in the target lines matched with parent line `i`. */
  function Taken(c: Chunk, b0: nat, lines: seq<int>, n: nat, i: nat, x: nat): nat
    requires n <= |lines| && b0 + |lines| <= |c.b|
  {
    if n == 0 then 0 else Taken(c, b0, lines, n - 1, i, x) + if lines[n - 1] == i then c.b[b0 + n - 1][x] else 0
  }

  lemma {:induction false} TakenDepends(c: Chunk, b0: nat, s: seq<int>, t: seq<int>, n: nat, m: nat, i: nat, x: nat)
    requires n + m <= |s| && m <= |t| && b0 + |s| <= |c.b| && b0 + n + |t| <= |c.b|
    requires forall j :: 0 <= j < m ==> s[n + j] == t[j]
    ensures Taken(c, b0, s, n + m, i, x) == Taken(c, b0, s, n, i, x) + Taken(c, b0 + n, t, m, i, x)
  {
    if m > 0 { TakenDepends(c, b0, s, t, n, m - 1, i, x); }
  }

  lemma {:induction false} TakenJoin(c: Chunk, b0: nat, before: seq<int>, m: int, after: seq<int>, i: nat, x: nat)
    requires b0 + |before| + 1 + |after| <= |c.b|
    ensures var lines := before + [m] + after;
            Taken(c, b0, lines, |lines|, i, x) ==
            Taken(c, b0, before, |before|, i, x) + (if m == i then c.b[b0 + |before|][x] else 0) +
            Taken(c, b0 + |before| + 1, after, |after|, i, x)
  {
    var lines, n := before + [m] + after, |before|;
    TakenDepends(c, b0, lines, before, 0, n, i, x);
    TakenDepends(c, b0, lines, after, n + 1, |after|, i, x);
  }

  /** What is left of a parent line is what its matches did not take. */
  ghost predicate LeftAt(c: Chunk, a: seq<Fingerprint>, left: seq<Fingerprint>, b0: nat, lines: seq<int>, i: nat,
                         x: nat) {
    && b0 + |lines| <= |c.b| && i < |a| && i < |left|
    && left[i][x] == Max(a[i][x] - Taken(c, b0, lines, |lines|, i, x), 0)
  }

  ghost predicate Leaving(c: Chunk, a: seq<Fingerprint>, left: seq<Fingerprint>, b0: nat, lines: seq<int>) {
    && |left| == |a|
    && forall i, x: nat {:trigger LeftAt(c, a, left, b0, lines, i, x)} :: 0 <= i < |a| ==>
       LeftAt(c, a, left, b0, lines, i, x)
  }

  lemma {:induction false} JoinLeftAt(c: Chunk, a: seq<Fingerprint>, k: nat, m: nat, mid: seq<Fingerprint>,
                                      left: seq<Fingerprint>, b0: nat, before: seq<int>, after: seq<int>, i: nat,
                                      x: nat)
    requires k < |c.b| && m < |a| && k == b0 + |before| && k + 1 + |after| <= |c.b|
    requires LeftAt(c, Less(c, a, k, m), mid, b0, before, i, x) && LeftAt(c, mid, left, k + 1, after, i, x)
    ensures LeftAt(c, a, left, b0, before + [m] + after, i, x)
  {
    TakenJoin(c, b0, before, m, after, i, x);
    var had: int, takes: int := a[i][x], c.b[k][x];
    if m == i { assert Less(c, a, k, m)[i][x] == Max(had - takes, 0); }
  }

  lemma {:induction false} JoinLeaving(c: Chunk, a: seq<Fingerprint>, k: nat, m: nat, mid: seq<Fingerprint>,
                                       left: seq<Fingerprint>, b0: nat, before: seq<int>, after: seq<int>)
    requires k < |c.b| && m < |a| && k == b0 + |before| && k + 1 + |after| <= |c.b|
    requires Leaving(c, Less(c, a, k, m), mid, b0, before) && Leaving(c, mid, left, k + 1, after)
    ensures Leaving(c, a, left, b0, before + [m] + after)
  {
    forall i, x: nat | 0 <= i < |a| ensures LeftAt(c, a, left, b0, before + [m] + after, i, x) {
      assert LeftAt(c, Less(c, a, k, m), mid, b0, before, i, x) && LeftAt(c, mid, left, k + 1, after, i, x);
      JoinLeftAt(c, a, k, m, mid, left, b0, before, after, i, x);
    }
  }

  lemma {:induction false} NothingTaken(c: Chunk, b0: nat, lines: seq<int>, n: nat, i: nat, x: nat)
    requires n <= |lines| && b0 + |lines| <= |c.b| && forall j :: 0 <= j < |lines| ==> lines[j] == -1
    ensures Taken(c, b0, lines, n, i, x) == 0
  {
    if n > 0 { NothingTaken(c, b0, lines, n - 1, i, x); }
  }

  // ---- lines without a match ----

  /** Parent line `i` lies between the matches around target line `j`. */
  ghost predicate Between(lines: seq<int>, j: nat, i: int) {
    && (forall l :: 0 <= l < j < |lines| && lines[l] >= 0 ==> lines[l] <= i)
    && (forall l :: j < l < |lines| && lines[l] >= 0 ==> i <= lines[l])
  }

  /** A line without a match shares nothing with what is left of the near lines between its neighbours. */
  ghost predicate Settled(c: Chunk, left: seq<Fingerprint>, a0: nat, a1: nat, b0: nat, lines: seq<int>)
    requires c.Valid() && b0 + |lines| <= |c.b| && a1 <= |left|
  {
    forall j, i {:trigger Between(lines, j, i)} ::
      (0 <= j < |lines| && lines[j] == -1 && a0 <= i < a1 && Between(lines, j, i)) ==> SettledAt(c, left, b0 + j, i)
  }

  ghost predicate SettledAt(c: Chunk, left: seq<Fingerprint>, k: nat, i: nat) {
    c.Valid() && k < |c.b| && i < |left| && (c.Near(k, i) ==> Disjoint(c.b[k], left[i]))
  }

  lemma {:induction false} SettledLess(c: Chunk, a: seq<Fingerprint>, a': seq<Fingerprint>, k: nat, i: nat)
    requires SettledAt(c, a, k, i) && Shrunk(a, a')
    ensures SettledAt(c, a', k, i)
  {
    assert c.b[k] * a'[i] <= c.b[k] * a[i];
  }

  lemma {:induction false} NothingNear(c: Chunk, a: seq<Fingerprint>, k: nat, a0: nat, a1: nat, i: nat)
    requires c.Valid() && k < |c.b| && a1 <= |a| && Ranking(c, a, k, a0, a1).best == 0 && a0 <= i < a1
    ensures SettledAt(c, a, k, i)
  {
    if c.Near(k, i) {
      ScanRanked(c, a, k, a0, SearchStart(c, k, a0), SearchEnd(c, k, a1));
      ScorePositive(c, a, k, i);
    }
  }

  lemma {:induction false} JoinSettled(c: Chunk, mid: seq<Fingerprint>, left: seq<Fingerprint>, a0: nat, a1: nat,
                                       b0: nat, before: seq<int>, m: nat, after: seq<int>)
    requires c.Valid() && b0 + |before| + 1 + |after| <= |c.b| && a0 <= m < a1 <= |mid| && Shrunk(mid, left)
    requires Settled(c, mid, a0, m + 1, b0, before) && Settled(c, left, m, a1, b0 + |before| + 1, after)
    ensures Settled(c, left, a0, a1, b0, before + [m] + after)
  {
    var lines, n := before + [m] + after, |before|;
    forall j, i | 0 <= j < |lines| && lines[j] == -1 && a0 <= i < a1 && Between(lines, j, i)
      ensures SettledAt(c, left, b0 + j, i)
    {
      assert lines[n] == m;
      if j < n {
        BetweenFront(before, m, after, j, i);
        assert before[j] == -1;
        assert SettledAt(c, mid, b0 + j, i);
        SettledLess(c, mid, left, b0 + j, i);
      } else {
        BetweenBack(before, m, after, j, i);
        assert after[j - n - 1] == -1;
        assert SettledAt(c, left, b0 + n + 1 + (j - n - 1), i);
      }
    }
  }

  lemma {:induction false} BetweenFront(before: seq<int>, m: nat, after: seq<int>, j: nat, i: int)
    requires j < |before| && Between(before + [m] + after, j, i)
    ensures Between(before, j, i) && i <= m
  {
    var lines := before + [m] + after;
    assert forall l :: 0 <= l < |before| ==> lines[l] == before[l];
    assert lines[|before|] == m;
  }

  lemma {:induction false} BetweenBack(before: seq<int>, m: nat, after: seq<int>, j: nat, i: int)
    requires |before| < j < |before| + 1 + |after| && Between(before + [m] + after, j, i)
    ensures Between(after, j - |before| - 1, i) && m <= i
  {
    var lines, n := before + [m] + after, |before| + 1;
    assert forall l :: 0 <= l < |after| ==> lines[n + l] == after[l];
    assert lines[|before|] == m;
  }

  // ---- what every course leads to ----

  /** Matched lines share something with their match, byte pairs are taken once, and a line without a
      match shares nothing with what is left. */
  ghost predicate Meaning(c: Chunk, a: seq<Fingerprint>, a0: nat, a1: nat, b0: nat, r: Matched) {
    && c.Valid() && b0 + |r.lines| <= |c.b| && a1 <= |a| && Shrunk(a, r.a) && Sharing(c, a, b0, r.lines)
    && Leaving(c, a, r.a, b0, r.lines) && Settled(c, r.a, a0, a1, b0, r.lines)
  }

  lemma {:induction false} JoinMeaning(c: Chunk, a: seq<Fingerprint>, a0: nat, a1: nat, b0: nat, k: nat, m: nat,
                                       before: Matched, after: Matched)
    requires c.Valid() && a0 <= m < a1 <= |a| && k == b0 + |before.lines| && SharesAt(c, a, k, m)
    requires Meaning(c, Less(c, a, k, m), a0, m + 1, b0, before) && Meaning(c, before.a, m, a1, k + 1, after)
    ensures Meaning(c, a, a0, a1, b0, Matched(before.lines + [m] + after.lines, after.a))
  {
    var less := Less(c, a, k, m);
    ShrunkTwice(a, less, before.a, after.a);
    JoinSharing(c, a, less, before.a, b0, before.lines, m, after.lines);
    JoinLeaving(c, a, k, m, before.a, after.a, b0, before.lines, after.lines);
    JoinSettled(c, before.a, after.a, a0, a1, b0, before.lines, m, after.lines);
  }

  lemma {:induction false} StopMeaning(c: Chunk, a: seq<Fingerprint>, a0: nat, a1: nat, b0: nat, b1: nat,
                                       lines: seq<int>)
    requires c.Valid() && a1 <= |a| && b0 <= b1 <= |c.b| && lines == seq(b1 - b0, _ => -1)
    requires AllSettled(c, a, a0, a1, b0, b1)
    ensures Meaning(c, a, a0, a1, b0, Matched(lines, a))
  {
    forall i, x: nat | 0 <= i < |a| ensures LeftAt(c, a, a, b0, lines, i, x) {
      NothingTaken(c, b0, lines, |lines|, i, x);
    }
  }

  lemma {:induction false} NaiveMeans(c: Chunk, a: seq<Fingerprint>, a0: nat, a1: nat, b0: nat, b1: nat)
    requires c.Valid() && a1 <= |a| && b0 <= b1 <= |c.b|
    ensures Meaning(c, a, a0, a1, b0, Naive(c, a, a0, a1, b0, b1))
    decreases b1 - b0, 1
  {
    if Choice(c, a, a0, a1, b0, b1) >= 0 {
      var k, m := NaiveSplit(c, a, a0, a1, b0, b1);
      ChosenShares(c, a, a0, a1, b0, b1, k, m);
      AroundMeans(c, a, a0, a1, b0, b1, k, m);
    } else {
      NaiveStop(c, a, a0, a1, b0, b1);
      NothingChosen(c, a, a0, a1, b0, b1);
      StopMeaning(c, a, a0, a1, b0, b1, seq(b1 - b0, _ => -1));
    }
  }

  lemma {:induction false} AroundMeans(c: Chunk, a: seq<Fingerprint>, a0: nat, a1: nat, b0: nat, b1: nat, k: nat,
                                       m: nat)
    requires c.Valid() && a0 <= m < a1 <= |a| && b0 <= k < b1 <= |c.b| && SharesAt(c, a, k, m)
    ensures Meaning(c, a, a0, a1, b0, NaiveAround(c, a, a0, a1, b0, b1, k, m))
    decreases b1 - b0, 0
  {
    var before := Naive(c, Less(c, a, k, m), a0, m + 1, b0, k);
    var after := Naive(c, before.a, m, a1, k + 1, b1);
    NaiveMeans(c, Less(c, a, k, m), a0, m + 1, b0, k);
    NaiveMeans(c, before.a, m, a1, k + 1, b1);
    JoinMeaning(c, a, a0, a1, b0, k, m, before, after);
  }

  // ---- a chunk that did not change ----

  /** Target line `k` is parent line `s + k`, and shares nothing with any other of the chunk. */
  ghost predicate Copied(c: Chunk, a: seq<Fingerprint>, s: nat, b0: nat, b1: nat) {
    && c.Valid() && b1 <= |c.b| && s + |c.b| <= |a|
    && (forall k :: b0 <= k < b1 ==> CopiedAt(c, a, s, k))
    && (forall k, i {:trigger Apart(c, a, k, i)} :: b0 <= k < b1 && s <= i < s + |c.b| && i != s + k ==>
          Apart(c, a, k, i))
  }

  ghost predicate CopiedAt(c: Chunk, a: seq<Fingerprint>, s: nat, k: nat) {
    c.Valid() && k < |c.b| && s + k < |a| && c.closest[k] == s + k && !Disjoint(c.b[k], a[s + k])
  }

  ghost predicate Apart(c: Chunk, a: seq<Fingerprint>, k: nat, i: nat) {
    k < |c.b| && i < |a| && Disjoint(c.b[k], a[i])
  }

  lemma {:induction false} CopiedLess(c: Chunk, a: seq<Fingerprint>, a': seq<Fingerprint>, s: nat, b0: nat, b1: nat,
                                      b0': nat, b1': nat)
    requires Copied(c, a, s, b0, b1) && b0 <= b0' && b1' <= b1 && Shrunk(a, a')
    requires forall i :: s + b0' <= i < s + b1' ==> a'[i] == a[i]
    ensures Copied(c, a', s, b0', b1')
  {
    forall k | b0' <= k < b1' ensures CopiedAt(c, a', s, k) { assert CopiedAt(c, a, s, k) && a'[s + k] == a[s + k]; }
    forall k, i | b0' <= k < b1' && s <= i < s + |c.b| && i != s + k ensures Apart(c, a', k, i) {
      assert Apart(c, a, k, i) && c.b[k] * a'[i] <= c.b[k] * a[i];
    }
  }

  /** Every line is matched with the line it is a copy of; other parent lines are left alone. */
  ghost predicate Copies(a: seq<Fingerprint>, s: nat, b0: nat, b1: nat, r: Matched) {
    && b0 <= b1 && |r.lines| == b1 - b0 && |r.a| == |a|
    && (forall j :: 0 <= j < b1 - b0 ==> r.lines[j] == s + b0 + j)
    && (forall i :: 0 <= i < |a| && !(s + b0 <= i < s + b1) ==> r.a[i] == a[i])
  }

  lemma {:induction false} JoinCopies(c: Chunk, a: seq<Fingerprint>, s: nat, b0: nat, b1: nat, k: nat,
                                      before: Matched, after: Matched)
    requires k < |c.b| && b0 <= k < b1 && s + b1 <= |a|
    requires Copies(Less(c, a, k, s + k), s, b0, k, before) && Copies(before.a, s, k + 1, b1, after)
    ensures Copies(a, s, b0, b1, Matched(before.lines + [s + k] + after.lines, after.a))
  {
  }

  lemma {:induction false} NaiveCopies(c: Chunk, a: seq<Fingerprint>, s: nat, a0: nat, a1: nat, b0: nat, b1: nat)
    requires Copied(c, a, s, b0, b1) && b0 <= b1 && a1 <= |a| && s <= a0 && a1 <= s + |c.b|
    requires b0 < b1 ==> a0 <= s + b0 && s + b1 <= a1
    ensures Copies(a, s, b0, b1, Naive(c, a, a0, a1, b0, b1))
    decreases b1 - b0, 1
  {
    if Choice(c, a, a0, a1, b0, b1) >= 0 {
      var k, m := NaiveSplit(c, a, a0, a1, b0, b1);
      CopyIsBest(c, a, s, a0, a1, b0, b1, k, m);
      AroundCopies(c, a, s, a0, a1, b0, b1, k);
    } else {
      StopCopies(c, a, s, a0, a1, b0, b1);
    }
  }

  lemma {:induction false} StopCopies(c: Chunk, a: seq<Fingerprint>, s: nat, a0: nat, a1: nat, b0: nat, b1: nat)
    requires Copied(c, a, s, b0, b1) && b0 <= b1 && a1 <= |a| && Choice(c, a, a0, a1, b0, b1) < 0
    requires b0 < b1 ==> a0 <= s + b0 && s + b1 <= a1
    ensures Copies(a, s, b0, b1, Naive(c, a, a0, a1, b0, b1))
  {
    NaiveStop(c, a, a0, a1, b0, b1);
    NothingChosen(c, a, a0, a1, b0, b1);
    if b0 < b1 { NotStopped(c, a, s, a0, a1, b0, b1); }
  }

  lemma {:induction false} CopyIsBest(c: Chunk, a: seq<Fingerprint>, s: nat, a0: nat, a1: nat, b0: nat, b1: nat, k: nat,
                                      m: nat)
    requires Copied(c, a, s, b0, b1) && a1 <= |a| && k == Choice(c, a, a0, a1, b0, b1) && b0 <= k < b1
    requires m == Ranking(c, a, k, a0, a1).index && s <= m < s + |c.b|
    ensures m == s + k && Copied(c, Less(c, a, k, m), s, b0, k)
  {
    ChosenShares(c, a, a0, a1, b0, b1, k, m);
    CopiedBefore(c, a, s, b0, b1, k, m);
  }

  lemma {:induction false} AroundCopies(c: Chunk, a: seq<Fingerprint>, s: nat, a0: nat, a1: nat, b0: nat, b1: nat,
                                        k: nat)
    requires Copied(c, a, s, b0, b1) && b0 <= k < b1 && s <= a0 <= s + b0 && s + b1 <= a1 <= s + |c.b|
    requires Copied(c, Less(c, a, k, s + k), s, b0, k)
    ensures Copies(a, s, b0, b1, NaiveAround(c, a, a0, a1, b0, b1, k, s + k))
    decreases b1 - b0, 0, 1
  {
    var before := Naive(c, Less(c, a, k, s + k), a0, s + k + 1, b0, k);
    FirstCopies(c, a, s, a0, b0, b1, k, before);
    RestCopies(c, a, s, a1, b0, b1, k, before);
    JoinCopies(c, a, s, b0, b1, k, before, Naive(c, before.a, s + k, a1, k + 1, b1));
  }

  lemma {:induction false} FirstCopies(c: Chunk, a: seq<Fingerprint>, s: nat, a0: nat, b0: nat, b1: nat, k: nat,
                                       before: Matched)
    requires c.Valid() && b0 <= k < b1 && k < |c.b| && s <= a0 <= s + b0 && s + k < |a|
    requires Copied(c, Less(c, a, k, s + k), s, b0, k)
    requires before == Naive(c, Less(c, a, k, s + k), a0, s + k + 1, b0, k)
    ensures Copies(Less(c, a, k, s + k), s, b0, k, before) && Shrunk(Less(c, a, k, s + k), before.a)
    decreases b1 - b0, 0, 0
  {
    NaiveCopies(c, Less(c, a, k, s + k), s, a0, s + k + 1, b0, k);
    NaiveShrinks(c, Less(c, a, k, s + k), a0, s + k + 1, b0, k);
  }

  lemma {:induction false} RestCopies(c: Chunk, a: seq<Fingerprint>, s: nat, a1: nat, b0: nat, b1: nat, k: nat,
                                      before: Matched)
    requires Copied(c, a, s, b0, b1) && b0 <= k < b1 && s + b1 <= a1 <= s + |c.b|
    requires Copies(Less(c, a, k, s + k), s, b0, k, before) && Shrunk(Less(c, a, k, s + k), before.a)
    ensures Copies(before.a, s, k + 1, b1, Naive(c, before.a, s + k, a1, k + 1, b1))
    decreases b1 - b0, 0, 0
  {
    CopiedAfter(c, a, s, b0, b1, k, before);
    NaiveCopies(c, before.a, s, s + k, a1, k + 1, b1);
  }

  lemma {:induction false} CopiedBefore(c: Chunk, a: seq<Fingerprint>, s: nat, b0: nat, b1: nat, k: nat, m: nat)
    requires Copied(c, a, s, b0, b1) && b0 <= k < b1 && SharesAt(c, a, k, m) && s <= m < s + |c.b|
    ensures m == s + k && Copied(c, Less(c, a, k, m), s, b0, k)
  {
    assert m == s + k || Apart(c, a, k, m);
    CopiedLess(c, a, Less(c, a, k, m), s, b0, b1, b0, k);
  }

  lemma {:induction false} CopiedAfter(c: Chunk, a: seq<Fingerprint>, s: nat, b0: nat, b1: nat, k: nat,
                                       before: Matched)
    requires Copied(c, a, s, b0, b1) && b0 <= k < b1 && Copies(Less(c, a, k, s + k), s, b0, k, before)
    requires Shrunk(Less(c, a, k, s + k), before.a)
    ensures Copied(c, before.a, s, k + 1, b1)
  {
    CopiedLess(c, a, before.a, s, b0, b1, k + 1, b1);
  }

  lemma {:induction false} NotStopped(c: Chunk, a: seq<Fingerprint>, s: nat, a0: nat, a1: nat, b0: nat, b1: nat)
    requires Copied(c, a, s, b0, b1) && b0 < b1 && a0 <= s + b0 < a1
    ensures !AllSettled(c, a, a0, a1, b0, b1)
  {
    assert CopiedAt(c, a, s, b0);
    assert !SettledAt(c, a, b0, s + b0);
  }

  // ---- the answer for a chunk ----

  datatype Matches = NoParentLines | Lines(lines: seq<int>)

  /** Parent line `i` is at most ten lines from the line that target line `k` is mapped to. */
  predicate Within(lengthB: nat, startA: nat, lengthA: nat, k: nat, i: int)
    requires lengthB > 0
  {
    -10 <= i - MapLineNumber(k, startA, lengthA, lengthB) <= 10
  }

  /** In the parent range a line is near exactly if it is at most ten lines away. */
  lemma {:induction false} NearMeans(b: seq<Fingerprint>, startA: nat, lengthA: nat, k: nat, i: nat)
    requires k < |b| && startA <= i < startA + lengthA
    ensures MakeChunk(b, startA, lengthA).Near(k, i) <==> Within(|b|, startA, lengthA, k, i)
  {
    MapCentred(k, startA, lengthA, |b|, MapLineNumber(k, startA, lengthA, |b|));
  }

  /** The answer, in terms of the lines: matches ascend and share a byte pair with the target line at
      most ten lines from its place; byte pairs of a parent line are used up by its matches; a line
      without a match shares nothing with what is left of the lines within ten lines between the
      matches around it. */
  ghost predicate Answers(a: seq<Fingerprint>, b: seq<Fingerprint>, startA: nat, lengthA: nat, lines: seq<int>,
                          left: seq<Fingerprint>)
    requires |b| > 0 && 0 < lengthA && startA + lengthA <= |a|
  {
    && |lines| == |b| && |left| == |a| && Ordered(lines, startA, startA + lengthA)
    && (forall k :: 0 <= k < |b| && lines[k] >= 0 ==>
          Within(|b|, startA, lengthA, k, lines[k]) && lines[k] < |a| && b[k] * a[lines[k]] != multiset{})
    && Leaving(MakeChunk(b, startA, lengthA), a, left, 0, lines)
    && (forall k, i {:trigger Between(lines, k, i)} ::
          (0 <= k < |b| && lines[k] == -1 && startA <= i < startA + lengthA && Between(lines, k, i)) ==>
          (Within(|b|, startA, lengthA, k, i) ==> b[k] * left[i] == multiset{}))
  }

  lemma {:induction false} MeaningAnswers(a: seq<Fingerprint>, b: seq<Fingerprint>, startA: nat, lengthA: nat,
                                          r: Matched)
    requires |b| > 0 && 0 < lengthA && startA + lengthA <= |a| && |r.lines| == |b|
    requires Ordered(r.lines, startA, startA + lengthA)
    requires Meaning(MakeChunk(b, startA, lengthA), a, startA, startA + lengthA, 0, r)
    ensures Answers(a, b, startA, lengthA, r.lines, r.a)
  {
    var c := MakeChunk(b, startA, lengthA);
    forall k | 0 <= k < |b| && r.lines[k] >= 0
      ensures Within(|b|, startA, lengthA, k, r.lines[k]) && b[k] * a[r.lines[k]] != multiset{}
    {
      assert SharesAt(c, a, 0 + k, r.lines[k]);
      NearMeans(b, startA, lengthA, k, r.lines[k]);
    }
    forall k, i | 0 <= k < |b| && r.lines[k] == -1 && startA <= i < startA + lengthA && Between(r.lines, k, i)
                  && Within(|b|, startA, lengthA, k, i)
      ensures b[k] * r.a[i] == multiset{}
    {
      assert SettledAt(c, r.a, 0 + k, i);
      NearMeans(b, startA, lengthA, k, i);
    }
  }

  /** The target lines are the parent lines; none is without byte pairs, and no two share one. */
  ghost predicate Unchanged(a: seq<Fingerprint>, b: seq<Fingerprint>, startA: nat, lengthA: nat)
    requires startA + lengthA <= |a|
  {
    && |b| == lengthA
    && (forall k :: 0 <= k < |b| ==> b[k] == a[startA + k] && b[k] != multiset{})
    && (forall k, l :: 0 <= k < |b| && 0 <= l < |b| && k != l ==> b[k] * b[l] == multiset{})
  }

  lemma {:induction false} UnchangedCopied(a: seq<Fingerprint>, b: seq<Fingerprint>, startA: nat, lengthA: nat)
    requires |b| > 0 && startA + lengthA <= |a| && Unchanged(a, b, startA, lengthA)
    ensures Copied(MakeChunk(b, startA, lengthA), a, startA, 0, |b|)
  {
    var c := MakeChunk(b, startA, lengthA);
    forall k | 0 <= k < |b| ensures CopiedAt(c, a, startA, k) {
      MapCentred(k, startA, lengthA, |b|, MapLineNumber(k, startA, lengthA, |b|));
      assert b[k] * a[startA + k] == b[k];
    }
    forall k, i | 0 <= k < |b| && startA <= i < startA + |b| && i != startA + k ensures Apart(c, a, k, i) {
      assert b[i - startA] == a[i] && b[k] * b[i - startA] == multiset{};
    }
  }

  /** What matching without memory means for a chunk. */
  lemma {:induction false} ChunkAnswers(a: seq<Fingerprint>, b: seq<Fingerprint>, startA: nat, lengthA: nat, r: Matched)
    requires |b| > 0 && 0 < lengthA && startA + lengthA <= |a|
    requires r == Naive(MakeChunk(b, startA, lengthA), a, startA, startA + lengthA, 0, |b|)
    ensures Answers(a, b, startA, lengthA, r.lines, r.a)
  {
    WholeMeans(MakeChunk(b, startA, lengthA), a, startA, startA + lengthA, r);
    MeaningAnswers(a, b, startA, lengthA, r);
  }

  /** An unchanged chunk is matched line by line. */
  lemma {:induction false} ChunkUnchanged(a: seq<Fingerprint>, b: seq<Fingerprint>, startA: nat, lengthA: nat,
                                          r: Matched)
    requires |b| > 0 && startA + lengthA <= |a| && Unchanged(a, b, startA, lengthA)
    requires r == Naive(MakeChunk(b, startA, lengthA), a, startA, startA + lengthA, 0, |b|)
    ensures forall k :: 0 <= k < |b| ==> r.lines[k] == startA + k
  {
    UnchangedCopied(a, b, startA, lengthA);
    WholeCopies(MakeChunk(b, startA, lengthA), a, startA, r);
  }

  lemma {:induction false} WholeMeans(c: Chunk, a: seq<Fingerprint>, a0: nat, a1: nat, r: Matched)
    requires c.Valid() && a1 <= |a| && r == Naive(c, a, a0, a1, 0, |c.b|)
    ensures Ordered(r.lines, a0, a1) && Meaning(c, a, a0, a1, 0, r)
  {
    NaiveOrdered(c, a, a0, a1, 0, |c.b|);
    NaiveMeans(c, a, a0, a1, 0, |c.b|);
  }

  lemma {:induction false} WholeCopies(c: Chunk, a: seq<Fingerprint>, s: nat, r: Matched)
    requires Copied(c, a, s, 0, |c.b|) && r == Naive(c, a, s, s + |c.b|, 0, |c.b|)
    ensures Copies(a, s, 0, |c.b|, r)
  {
    NaiveCopies(c, a, s, s, s + |c.b|, 0, |c.b|);
  }

  /** fuzzy_find_matching_lines: nothing for an empty parent side; otherwise the matches that matching
      without memory gives, with what they mean for the lines; an unchanged chunk is matched line by
      line. */
  method FuzzyFindMatchingLines(a: seq<Fingerprint>, b: seq<Fingerprint>, startA: nat, lengthA: nat)
    returns (matches: Matches, left: seq<Fingerprint>)
    requires |b| > 0 && startA + lengthA <= |a|
    ensures lengthA == 0 <==> matches == NoParentLines
    ensures lengthA > 0 ==> Answers(a, b, startA, lengthA, matches.lines, left)
    ensures lengthA > 0 && Unchanged(a, b, startA, lengthA) ==>
            forall k :: 0 <= k < |b| ==> matches.lines[k] == startA + k
    ensures lengthA > 0 ==>
            Naive(MakeChunk(b, startA, lengthA), a, startA, startA + lengthA, 0, |b|) == Matched(matches.lines, left)
  {
    if lengthA == 0 {
      return NoParentLines, a;
    }
    var c := MakeChunk(b, startA, lengthA);
    MadeChunkIsWide(b, startA, lengthA);
    var lines, rest := MatchChunk(c, a, startA, startA + lengthA);
    matches, left := Lines(lines), rest;
    ChunkAnswers(a, b, startA, lengthA, Matched(lines, rest));
    if Unchanged(a, b, startA, lengthA) { ChunkUnchanged(a, b, startA, lengthA, Matched(lines, rest)); }
  }
}
