/** The matcher with its remembered similarities and certainties
    (find_best_line_matches, fuzzy_find_matching_lines_recurse), shown equal to `Naive`. */
module FuzzyMemo {
  import opened FuzzyMatch

  /** What a ranking says about the scores of the lines lo, ..., hi - 1: the first line with the
      best score, and the first other line with the second best. */
  ghost predicate Ranked(c: Chunk, a: seq<Fingerprint>, k: nat, lo: nat, hi: nat, t: Top)
    requires InReach(c, a, k, lo, hi)
  {
    && 0 <= t.second <= t.best
    && (forall i :: lo <= i < hi ==> Score(c, a, k, i) <= t.best)
    && (forall i :: lo <= i < hi && !(t.best > 0 && i == t.index) ==> Score(c, a, k, i) <= t.second)
    && (t.best > 0 ==> lo <= t.index < hi && Score(c, a, k, t.index) == t.best)
    && (t.best > 0 ==> forall i :: lo <= i < t.index ==> Score(c, a, k, i) < t.best)
    && (t.second > 0 ==> lo <= t.index2 < hi && t.index2 != t.index && Score(c, a, k, t.index2) == t.second)
    && (t.second > 0 ==> forall i :: lo <= i < t.index2 && i != t.index ==> Score(c, a, k, i) < t.second)
  }

  lemma {:induction false} ScanRanked(c: Chunk, a: seq<Fingerprint>, k: nat, start: nat, lo: nat, hi: nat)
    requires InReach(c, a, k, lo, hi)
    ensures Ranked(c, a, k, lo, hi, Scan(c, a, k, start, lo, hi))
    decreases hi
  {
    if lo < hi {
      ScanRanked(c, a, k, start, lo, hi - 1);
    }
  }

  /** Equal as far as certainty and result go. */
  predicate Same(t: Top, u: Top) {
    && t.best == u.best && t.second == u.second
    && (t.best > 0 ==> t.index == u.index)
    && (t.second > 0 ==> t.index2 == u.index2)
  }

  lemma {:induction false} RankedUnique(c: Chunk, a: seq<Fingerprint>, k: nat, lo: nat, hi: nat, t: Top, u: Top)
    requires InReach(c, a, k, lo, hi) && Ranked(c, a, k, lo, hi, t) && Ranked(c, a, k, lo, hi, u)
    ensures Same(t, u)
  {
  }

  /** A ranking survives when lines outside the top two go or lose score. */
  lemma {:induction false} RankedShrinks(c: Chunk, a: seq<Fingerprint>, a': seq<Fingerprint>, k: nat, lo: nat,
                                         hi: nat, lo': nat, hi': nat, t: Top)
    requires InReach(c, a, k, lo, hi) && InReach(c, a', k, lo', hi') && Ranked(c, a, k, lo, hi, t)
    requires lo <= lo' && (hi' <= hi || hi' <= lo')
    requires forall i :: lo' <= i < hi' ==> Score(c, a', k, i) <= Score(c, a, k, i)
    requires t.best > 0 ==> lo' <= t.index < hi' && Score(c, a', k, t.index) == Score(c, a, k, t.index)
    requires t.second > 0 ==> lo' <= t.index2 < hi' && Score(c, a', k, t.index2) == Score(c, a, k, t.index2)
    ensures Ranked(c, a', k, lo', hi', t)
  {
  }

  lemma {:induction false} ScoreShrinks(c: Chunk, a: seq<Fingerprint>, a': seq<Fingerprint>, k: nat, i: nat)
    requires c.Valid() && k < |c.b| && i < |a| && i < |a'| && c.Near(k, i) && a'[i] <= a[i]
    ensures Score(c, a', k, i) <= Score(c, a, k, i)
  {
    assert c.b[k] * a'[i] <= c.b[k] * a[i];
    SubCardinality(c.b[k] * a'[i], c.b[k] * a[i]);
    Scale(|c.b[k] * a'[i]|, |c.b[k] * a[i]|, 1000 - c.Offset(k, i));
  }

  lemma {:induction false} SubCardinality(s: Fingerprint, t: Fingerprint)
    requires s <= t
    ensures |s| <= |t|
  {
    assert t == s + (t - s);
  }

  /** Fingerprints only ever lose byte pairs. */
  ghost predicate Shrunk(a: seq<Fingerprint>, a': seq<Fingerprint>) {
    |a'| == |a| && forall i :: 0 <= i < |a| ==> a'[i] <= a[i]
  }

  /** A ranking survives a smaller range and lost fingerprints that leave the top two alone. */
  lemma {:induction false} RankingSurvives(c: Chunk, a: seq<Fingerprint>, a': seq<Fingerprint>, k: nat, a0: nat,
                                           a1: nat, a0': nat, a1': nat)
    requires c.Valid() && k < |c.b| && a0 <= a0' && a1' <= a1 <= |a| && Shrunk(a, a')
    requires var t := Ranking(c, a, k, a0, a1);
             && (t.best > 0 ==> a0' <= t.index < a1' && a'[t.index] == a[t.index])
             && (t.second > 0 ==> a0' <= t.index2 < a1' && a'[t.index2] == a[t.index2])
    ensures Same(Ranking(c, a, k, a0, a1), Ranking(c, a', k, a0', a1'))
  {
    var lo, hi := SearchStart(c, k, a0), SearchEnd(c, k, a1);
    var lo', hi' := SearchStart(c, k, a0'), SearchEnd(c, k, a1');
    ScanRanked(c, a, k, a0, lo, hi);
    ScanRanked(c, a', k, a0', lo', hi');
    var t := Ranking(c, a, k, a0, a1);
    forall i | lo' <= i < hi' ensures Score(c, a', k, i) <= Score(c, a, k, i) { ScoreShrinks(c, a, a', k, i); }
    RankedShrinks(c, a, a', k, lo, hi, lo', hi', t);
    RankedUnique(c, a', k, lo', hi', t, Ranking(c, a', k, a0', a1'));
  }

  /** The arrays of the matcher: parent fingerprints, similarities (one row per target line, -1
      where not calculated), certainties, second best and best matches. */
  datatype State = State(a: seq<Fingerprint>, similarity: seq<seq<int>>, certainty: seq<int>, second: seq<int>,
    result: seq<int>)

  ghost predicate Shape(c: Chunk, st: State) {
    && |st.similarity| == |c.b| && |st.certainty| == |c.b| && |st.second| == |c.b| && |st.result| == |c.b|
    && (forall k :: 0 <= k < |c.b| ==> |st.similarity[k]| == 2 * c.distance + 1)
  }

  /** get_similarity */
  function Column(c: Chunk, k: nat, i: nat): (j: nat)
    requires c.Valid() && k < |c.b| && c.Near(k, i)
    ensures j < 2 * c.distance + 1
  {
    i - c.closest[k] + c.distance
  }

  /** Remembered similarities of target line `k` with lines of [a0, a1) are current. */
  ghost predicate RowCurrent(c: Chunk, a: seq<Fingerprint>, k: nat, row: seq<int>, a0: nat, a1: nat)
    requires c.Valid() && k < |c.b| && a1 <= |a| && |row| == 2 * c.distance + 1
  {
    forall i :: a0 <= i < a1 && c.Near(k, i) ==> row[Column(c, k, i)] == -1 || row[Column(c, k, i)] == Score(c, a, k, i)
  }

  /** A remembered certainty, match and second best match are what a fresh ranking gives. */
  ghost predicate Known(c: Chunk, a: seq<Fingerprint>, k: nat, certainty: int, second: int, result: int, a0: nat,
                        a1: nat)
    requires c.Valid() && k < |c.b| && a1 <= |a|
  {
    var t := Ranking(c, a, k, a0, a1);
    && certainty == Certainty(t)
    && result == (if t.best == 0 then -1 else t.index)
    && (t.second > 0 ==> second == t.index2)
  }

  /** find_best_line_matches for a line whose certainty is not calculated. */
  method FindBestLineMatches(c: Chunk, a: seq<Fingerprint>, k: nat, a0: nat, a1: nat, row: seq<int>, secondBest: int)
    returns (row': seq<int>, certainty: int, second: int, result: int)
    requires c.Valid() && k < |c.b| && a1 <= |a| && |row| == 2 * c.distance + 1 && RowCurrent(c, a, k, row, a0, a1)
    ensures |row'| == |row| && RowCurrent(c, a, k, row', a0, a1)
    ensures Known(c, a, k, certainty, second, result, a0, a1)
  {
    row' := row;
    var lo, hi := SearchStart(c, k, a0), SearchEnd(c, k, a1);
    var t := Top(0, a0, 0, a0);
    var i := lo;
    while i < hi
      invariant lo <= i <= hi || i == lo
      invariant |row'| == |row| && RowCurrent(c, a, k, row', a0, a1)
      invariant t == Scan(c, a, k, a0, lo, i)
    {
      var j := Column(c, k, i);
      if row'[j] == -1 {
        row' := row'[j := Score(c, a, k, i)];
      }
      t := Rank(t, i, row'[j]);
      i := i + 1;
    }
    assert t == Ranking(c, a, k, a0, a1);
    if t.best == 0 {
      certainty, second, result := CERTAIN_NOTHING_MATCHES, secondBest, -1;
    } else {
      certainty, second, result := t.best * 2 - t.second, t.index2, t.index;
    }
  }

  /** Everything remembered about target lines [b0, b1) is right for parent lines [a0, a1). */
  ghost predicate Ready(c: Chunk, st: State, a0: nat, a1: nat, b0: nat, b1: nat) {
    && c.Valid() && Shape(c, st) && a1 <= |st.a| && b0 <= b1 <= |c.b|
    && forall k :: b0 <= k < b1 ==>
      && RowCurrent(c, st.a, k, st.similarity[k], a0, a1)
      && (st.certainty[k] == CERTAINTY_NOT_CALCULATED
         || Known(c, st.a, k, st.certainty[k], st.second[k], st.result[k], a0, a1))
  }

  /** ... and all of it has been calculated. */
  ghost predicate AllKnown(c: Chunk, st: State, a0: nat, a1: nat, b0: nat, b1: nat) {
    Ready(c, st, a0, a1, b0, b1) && KnownTo(c, st, a0, a1, b0, b1)
  }

  ghost predicate KnownTo(c: Chunk, st: State, a0: nat, a1: nat, b0: nat, b1: nat) {
    && c.Valid() && Shape(c, st) && a1 <= |st.a| && b0 <= b1 <= |c.b|
    && forall k :: b0 <= k < b1 ==> Known(c, st.a, k, st.certainty[k], st.second[k], st.result[k], a0, a1)
  }

  /** Target lines outside [b0, b1) keep what is remembered about them. */
  ghost predicate SameOutside(st: State, st': State, b0: nat, b1: nat) {
    && |st'.similarity| == |st.similarity| && |st'.certainty| == |st.certainty|
    && |st'.second| == |st.second| && |st'.result| == |st.result|
    && (forall k :: 0 <= k < |st.similarity| && !(b0 <= k < b1) ==> st'.similarity[k] == st.similarity[k])
    && (forall k :: 0 <= k < |st.certainty| && !(b0 <= k < b1) ==> st'.certainty[k] == st.certainty[k])
    && (forall k :: 0 <= k < |st.second| && !(b0 <= k < b1) ==> st'.second[k] == st.second[k])
    && (forall k :: 0 <= k < |st.result| && !(b0 <= k < b1) ==> st'.result[k] == st.result[k])
  }

  lemma {:induction false} SameOutsideTrans(s: State, t: State, u: State, i0: nat, i1: nat, b0: nat, b1: nat)
    requires SameOutside(s, t, b0, b1) && SameOutside(t, u, i0, i1) && b0 <= i0 && i1 <= b1
    ensures SameOutside(s, u, b0, b1)
  {
  }

  lemma {:induction false} KnownBefore(c: Chunk, s: State, t: State, a0: nat, a1: nat, b0: nat, i: nat)
    requires KnownTo(c, s, a0, a1, b0, i) && SameOutside(s, t, i, i + 1) && t.a == s.a && i < |c.b| && Shape(c, t)
    requires Known(c, t.a, i, t.certainty[i], t.second[i], t.result[i], a0, a1)
    ensures KnownTo(c, t, a0, a1, b0, i + 1)
  {
  }

  lemma {:induction false} FillKeepsReady(c: Chunk, st: State, a0: nat, a1: nat, b0: nat, b1: nat, k: nat,
                                          row: seq<int>, certainty: int, second: int, result: int)
    requires Ready(c, st, a0, a1, b0, b1) && b0 <= k < b1
    requires |row| == 2 * c.distance + 1 && RowCurrent(c, st.a, k, row, a0, a1)
    requires Known(c, st.a, k, certainty, second, result, a0, a1)
    ensures Ready(c, Fill(st, k, row, certainty, second, result), a0, a1, b0, b1)
  {
  }

  function Fill(st: State, k: nat, row: seq<int>, certainty: int, second: int, result: int): State
    requires k < |st.similarity| && k < |st.certainty| && k < |st.second| && k < |st.result|
  {
    st.(similarity := st.similarity[k := row], certainty := st.certainty[k := certainty],
        second := st.second[k := second], result := st.result[k := result])
  }

  /** Make sure target line `i` is ranked. */
  method RankOne(c: Chunk, st: State, a0: nat, a1: nat, b0: nat, b1: nat, i: nat) returns (st': State)
    requires Ready(c, st, a0, a1, b0, b1) && b0 <= i < b1
    ensures Ready(c, st', a0, a1, b0, b1) && st'.a == st.a && SameOutside(st, st', i, i + 1)
    ensures Known(c, st.a, i, st'.certainty[i], st'.second[i], st'.result[i], a0, a1)
  {
    st' := st;
    if st.certainty[i] == CERTAINTY_NOT_CALCULATED {
      var row, certainty, second, result := FindBestLineMatches(c, st.a, i, a0, a1, st.similarity[i], st.second[i]);
      FillKeepsReady(c, st, a0, a1, b0, b1, i, row, certainty, second, result);
      st' := Fill(st, i, row, certainty, second, result);
    }
  }

  /** The first loop of the recursion: rank every line, remember the most certain one. */
  method RankAll(c: Chunk, st: State, a0: nat, a1: nat, b0: nat, b1: nat) returns (st': State, k: int)
    requires Ready(c, st, a0, a1, b0, b1)
    ensures AllKnown(c, st', a0, a1, b0, b1) && st'.a == st.a && SameOutside(st, st', b0, b1)
    ensures k == Choice(c, st.a, a0, a1, b0, b1)
  {
    st', k := st, -1;
    var most := -1;
    for i := b0 to b1
      invariant RankedTo(c, st, st', a0, a1, b0, b1, i, k, most)
    {
      st', k, most := RankTurn(c, st, st', a0, a1, b0, b1, i, k, most);
    }
  }

  /** The lines before `i` are ranked, and `k` is the most certain of them. */
  ghost predicate RankedTo(c: Chunk, st: State, st': State, a0: nat, a1: nat, b0: nat, b1: nat, i: nat, k: int,
                           most: int) {
    && b0 <= i <= b1 && Ready(c, st', a0, a1, b0, b1) && st'.a == st.a && SameOutside(st, st', b0, b1)
    && KnownTo(c, st', a0, a1, b0, i) && ChosenTo(c, st.a, a0, a1, b0, i, k, most)
  }

  ghost predicate ChosenTo(c: Chunk, a: seq<Fingerprint>, a0: nat, a1: nat, b0: nat, i: nat, k: int, most: int) {
    && c.Valid() && a1 <= |a| && i <= |c.b| && k == Choice(c, a, a0, a1, b0, i)
    && most == if k < 0 then -1 else Sure(c, a, a0, a1, k)
  }

  lemma {:induction false} ChosenMore(c: Chunk, a: seq<Fingerprint>, a0: nat, a1: nat, b0: nat, i: nat, k: int,
                                      most: int)
    requires ChosenTo(c, a, a0, a1, b0, i, k, most) && b0 <= i < |c.b|
    ensures var sure := Sure(c, a, a0, a1, i);
            if sure > most then ChosenTo(c, a, a0, a1, b0, i + 1, i, sure)
            else ChosenTo(c, a, a0, a1, b0, i + 1, k, most)
  {
    ChoiceStep(c, a, a0, a1, b0, i + 1);
  }

  /** One turn of that loop, with the choice. */
  method RankTurn(c: Chunk, ghost st0: State, st: State, a0: nat, a1: nat, b0: nat, b1: nat, i: nat, k: int, most: int)
    returns (st': State, k': int, most': int)
    requires RankedTo(c, st0, st, a0, a1, b0, b1, i, k, most) && i < b1
    ensures RankedTo(c, st0, st', a0, a1, b0, b1, i + 1, k', most')
  {
    st' := RankNext(c, st0, st, a0, a1, b0, b1, i);
    ChosenMore(c, st0.a, a0, a1, b0, i, k, most);
    k', most' := k, most;
    if st'.certainty[i] > most {
      k', most' := i, st'.certainty[i];
    }
  }

  /** One turn of that loop. */
  method RankNext(c: Chunk, ghost st0: State, st: State, a0: nat, a1: nat, b0: nat, b1: nat, i: nat)
    returns (st': State)
    requires b0 <= i < b1 && Ready(c, st, a0, a1, b0, b1) && st.a == st0.a
    requires SameOutside(st0, st, b0, b1) && KnownTo(c, st, a0, a1, b0, i)
    ensures Ready(c, st', a0, a1, b0, b1) && st'.a == st0.a
    ensures SameOutside(st0, st', b0, b1) && KnownTo(c, st', a0, a1, b0, i + 1)
    ensures st'.certainty[i] == Sure(c, st0.a, a0, a1, i)
  {
    st' := RankOne(c, st, a0, a1, b0, b1, i);
    SameOutsideTrans(st0, st, st', i, i + 1, b0, b1);
    KnownBefore(c, st, st', a0, a1, b0, i);
  }

  /** Target lines that may have been compared with what line `k` was compared with. */
  predicate InWindow(c: Chunk, k: nat, l: nat) {
    k <= l + c.window && l <= k + c.window
  }

  /** After matching `k` with `m`: no similarity with `m` is remembered within the window, all
      others are. */
  ghost predicate RowInvalidated(c: Chunk, k: nat, m: nat, l: nat, row: seq<int>, row': seq<int>)
    requires c.Valid() && l < |c.b| && |row| == 2 * c.distance + 1
  {
    && |row'| == |row|
    && (forall i {:trigger Column(c, l, i)} :: 0 <= i && c.Near(l, i) && i != m ==>
       row'[Column(c, l, i)] == row[Column(c, l, i)])
    && (c.Near(l, m) && InWindow(c, k, l) ==> row'[Column(c, l, m)] == -1)
    && (!InWindow(c, k, l) ==> row' == row)
  }

  /** ... and a certainty is kept only if it lies in the right order or outside the window. */
  predicate KeptInOrder(c: Chunk, k: nat, m: nat, l: nat, certainty: int, second: int, result: int) {
    certainty >= 0 && InWindow(c, k, l) ==>
      (l < k ==> result < m && second < m) && (l > k ==> result > m && second > m)
  }

  method InvalidateSimilarities(c: Chunk, st: State, b0: nat, b1: nat, k: nat, m: nat) returns (st': State)
    requires c.Valid() && Shape(c, st) && b0 <= k < b1 <= |c.b|
    ensures Shape(c, st') && st' == st.(similarity := st'.similarity)
    ensures forall l :: b0 <= l < b1 ==> RowInvalidated(c, k, m, l, st.similarity[l], st'.similarity[l])
    ensures forall l :: 0 <= l < |c.b| && !(b0 <= l < b1) ==> st'.similarity[l] == st.similarity[l]
  {
    st' := st;
    var min := if k < b0 + c.window then b0 else k - c.window;
    var max := if k + c.window + 1 > b1 then b1 else k + c.window + 1;
    for l := min to max
      invariant Shape(c, st') && st' == st.(similarity := st'.similarity)
      invariant forall j :: min <= j < l ==> RowInvalidated(c, k, m, j, st.similarity[j], st'.similarity[j])
      invariant forall j :: 0 <= j < |c.b| && !(min <= j < l) ==> st'.similarity[j] == st.similarity[j]
    {
      if !c.Near(l, m) {
        continue;
      }
      st' := st'.(similarity := st'.similarity[l := st'.similarity[l][Column(c, l, m) := -1]]);
    }
  }

  method InvalidateCertainties(c: Chunk, st: State, b0: nat, b1: nat, k: nat, m: nat) returns (st': State)
    requires c.Valid() && Shape(c, st) && b0 <= k < b1 <= |c.b|
    ensures Shape(c, st') && st' == st.(certainty := st'.certainty)
    ensures forall l :: 0 <= l < |c.b| ==> st'.certainty[l] == st.certainty[l] || (b0 <= l < b1 && l != k
                                           && st'.certainty[l] == CERTAINTY_NOT_CALCULATED)
    ensures forall l :: b0 <= l < b1 && l != k ==> KeptInOrder(c, k, m, l, st'.certainty[l], st.second[l], st.result[l])
  {
    st' := st;
    var min := if k < b0 + c.window then b0 else k - c.window;
    var max := if k + c.window + 1 > b1 then b1 else k + c.window + 1;
    for l := k downto min
      invariant Shape(c, st') && st' == st.(certainty := st'.certainty)
      invariant forall j :: 0 <= j < |c.b| ==>
                st'.certainty[j] == st.certainty[j] || (l <= j < k && st'.certainty[j] == CERTAINTY_NOT_CALCULATED)
      invariant forall j :: l <= j < k ==> KeptInOrder(c, k, m, j, st'.certainty[j], st.second[j], st.result[j])
    {
      if st'.certainty[l] >= 0 && (st'.result[l] >= m || st'.second[l] >= m) {
        st' := st'.(certainty := st'.certainty[l := CERTAINTY_NOT_CALCULATED]);
      }
    }
    for l := k + 1 to max
      invariant Shape(c, st') && st' == st.(certainty := st'.certainty)
      invariant forall j :: 0 <= j < |c.b| ==>
                  || st'.certainty[j] == st.certainty[j]
                  || (b0 <= j < l && j != k && st'.certainty[j] == CERTAINTY_NOT_CALCULATED)
      invariant forall j :: min <= j < l && j != k ==>
                KeptInOrder(c, k, m, j, st'.certainty[j], st.second[j], st.result[j])
    {
      if st'.certainty[l] >= 0 && (st'.result[l] <= m || st'.second[l] <= m) {
        st' := st'.(certainty := st'.certainty[l := CERTAINTY_NOT_CALCULATED]);
      }
    }
  }

  /** What is compared with `m` lies within the window of a line compared with `m`. */
  lemma {:induction false} NearSameLine(c: Chunk, k: nat, l: nat, m: nat)
    requires c.Valid() && c.Wide() && k < |c.b| && l < |c.b| && c.Near(k, m) && c.Near(l, m)
    ensures InWindow(c, k, l)
  {
  }

  /** Remembered similarities stay current for a sub-range in which only `m` may have changed. */
  lemma {:induction false} RowSurvives(c: Chunk, a: seq<Fingerprint>, a': seq<Fingerprint>, k: nat, m: nat, l: nat,
                                       row: seq<int>, row': seq<int>, a0: nat, a1: nat, a0': nat, a1': nat)
    requires c.Valid() && c.Wide() && k < |c.b| && l < |c.b| && c.Near(k, m)
    requires a0 <= a0' && a1' <= a1 <= |a| && |a'| == |a|
    requires |row| == 2 * c.distance + 1 && RowCurrent(c, a, l, row, a0, a1) && RowInvalidated(c, k, m, l, row, row')
    requires forall i :: a0' <= i < a1' && i != m ==> a'[i] == a[i]
    ensures |row'| == 2 * c.distance + 1 && RowCurrent(c, a', l, row', a0', a1')
  {
    forall i | a0' <= i < a1' && c.Near(l, i)
      ensures row'[Column(c, l, i)] == -1 || row'[Column(c, l, i)] == Score(c, a', l, i)
    {
      if i == m { NearSameLine(c, k, l, m); }
    }
  }

  /** The top two of a line kept in order lie on the right side of the match. */
  lemma {:induction false} TopTwoInOrder(c: Chunk, a: seq<Fingerprint>, k: nat, m: nat, l: nat, certainty: int,
                                         second: int, result: int, a0: nat, a1: nat)
    requires c.Valid() && c.Wide() && k < |c.b| && l < |c.b| && l != k && c.Near(k, m) && a1 <= |a|
    requires Known(c, a, l, certainty, second, result, a0, a1) && KeptInOrder(c, k, m, l, certainty, second, result)
    ensures var t := Ranking(c, a, l, a0, a1);
            && (t.best > 0 ==> if l < k then a0 <= t.index < m else m < t.index < a1)
            && (t.second > 0 ==> if l < k then a0 <= t.index2 < m else m < t.index2 < a1)
  {
    var t := Ranking(c, a, l, a0, a1);
    ScanRanked(c, a, l, a0, SearchStart(c, l, a0), SearchEnd(c, l, a1));
    if t.best > 0 && !InWindow(c, k, l) {
      assert c.Near(l, t.index);
      if t.second > 0 { assert c.Near(l, t.index2); }
    }
  }

  /** Remembered certainties stay right for the half on their side of the match. */
  lemma {:induction false} KnownSurvives(c: Chunk, a: seq<Fingerprint>, a': seq<Fingerprint>, k: nat, m: nat, l: nat,
                                         certainty: int, second: int, result: int, a0: nat, a1: nat)
    requires c.Valid() && c.Wide() && k < |c.b| && l < |c.b| && l != k
    requires c.Near(k, m) && a0 <= m < a1 <= |a| && Shrunk(a, a')
    requires Known(c, a, l, certainty, second, result, a0, a1) && KeptInOrder(c, k, m, l, certainty, second, result)
    requires forall i :: a0 <= i < a1 && (if l < k then i < m else i > m) ==> a'[i] == a[i]
    ensures l < k ==> Known(c, a', l, certainty, second, result, a0, m + 1)
    ensures l > k ==> Known(c, a', l, certainty, second, result, m, a1)
  {
    TopTwoInOrder(c, a, k, m, l, certainty, second, result, a0, a1);
    if l < k {
      RankingSurvives(c, a, a', l, a0, a1, a0, m + 1);
    } else {
      RankingSurvives(c, a, a', l, a0, a1, m, a1);
    }
  }

  /** Only lines of [a0, a1) lost byte pairs. */
  ghost predicate ShrunkWithin(a: seq<Fingerprint>, a': seq<Fingerprint>, a0: nat, a1: nat) {
    Shrunk(a, a') && forall i :: 0 <= i < |a| && !(a0 <= i < a1) ==> a'[i] == a[i]
  }

  lemma {:induction false} ShrunkTrans(s: seq<Fingerprint>, t: seq<Fingerprint>, u: seq<Fingerprint>, m: nat, a0: nat,
                                       a1: nat)
    requires ShrunkWithin(s, t, a0, m + 1) && ShrunkWithin(t, u, m, a1) && a0 <= m < a1
    ensures ShrunkWithin(s, u, a0, a1)
  {
  }

  lemma {:induction false} NaiveShrinks(c: Chunk, a: seq<Fingerprint>, a0: nat, a1: nat, b0: nat, b1: nat)
    requires c.Valid() && a1 <= |a| && b0 <= b1 <= |c.b|
    ensures ShrunkWithin(a, Naive(c, a, a0, a1, b0, b1).a, a0, a1)
    decreases b1 - b0, 1
  {
    if Choice(c, a, a0, a1, b0, b1) >= 0 {
      var k, m := NaiveSplit(c, a, a0, a1, b0, b1);
      AroundShrinks(c, a, a0, a1, b0, b1, k, m);
    } else {
      NaiveStop(c, a, a0, a1, b0, b1);
    }
  }

  lemma {:induction false} AroundShrinks(c: Chunk, a: seq<Fingerprint>, a0: nat, a1: nat, b0: nat, b1: nat, k: nat,
                                         m: nat)
    requires c.Valid() && a0 <= m < a1 <= |a| && b0 <= k < b1 <= |c.b|
    ensures ShrunkWithin(a, NaiveAround(c, a, a0, a1, b0, b1, k, m).a, a0, a1)
    decreases b1 - b0, 0
  {
    var less := Less(c, a, k, m);
    var before := Naive(c, less, a0, m + 1, b0, k);
    var after := Naive(c, before.a, m, a1, k + 1, b1);
    NaiveShrinks(c, less, a0, m + 1, b0, k);
    NaiveShrinks(c, before.a, m, a1, k + 1, b1);
    assert ShrunkWithin(a, before.a, a0, m + 1);
    ShrunkTrans(a, before.a, after.a, m, a0, a1);
  }

  /** Everything forgotten that a match of `k` with `m` may have put out of date. */
  ghost predicate Forgotten(c: Chunk, st: State, st': State, a0: nat, a1: nat, b0: nat, b1: nat, k: nat, m: nat)
    requires AllKnown(c, st, a0, a1, b0, b1) && b0 <= k < b1 && a0 <= m < a1
  {
    && Shape(c, st') && SameOutside(st, st', b0, b1) && st'.second == st.second && st'.result == st.result
    && st'.a == Less(c, st.a, k, m)
    && (forall l :: b0 <= l < b1 ==> RowInvalidated(c, k, m, l, st.similarity[l], st'.similarity[l]))
    && (forall l :: b0 <= l < b1 && l != k ==>
          && (st'.certainty[l] == st.certainty[l] || st'.certainty[l] == CERTAINTY_NOT_CALCULATED)
          && KeptInOrder(c, k, m, l, st'.certainty[l], st.second[l], st.result[l]))
  }

  /** Subtract the matched fingerprint and forget what that puts out of date. */
  method Forget(c: Chunk, st: State, a0: nat, a1: nat, b0: nat, b1: nat, k: nat, m: nat) returns (st': State)
    requires AllKnown(c, st, a0, a1, b0, b1) && b0 <= k < b1 && a0 <= m < a1
    ensures Forgotten(c, st, st', a0, a1, b0, b1, k, m)
  {
    var subtracted := st.(a := Less(c, st.a, k, m));
    var fewer := InvalidateSimilarities(c, subtracted, b0, b1, k, m);
    st' := InvalidateCertainties(c, fewer, b0, b1, k, m);
  }

  /** The lines before the match can be matched with what is remembered about them. */
  lemma {:induction false} FirstHalfReady(c: Chunk, st: State, st1: State, a0: nat, a1: nat, b0: nat, b1: nat, k: nat,
                                          m: nat)
    requires c.Valid() && c.Wide() && AllKnown(c, st, a0, a1, b0, b1) && b0 <= k < b1 && a0 <= m < a1 && c.Near(k, m)
    requires Forgotten(c, st, st1, a0, a1, b0, b1, k, m)
    ensures Ready(c, st1, a0, m + 1, b0, k)
  {
    forall l | b0 <= l < k
      ensures RowCurrent(c, st1.a, l, st1.similarity[l], a0, m + 1)
      ensures st1.certainty[l] == CERTAINTY_NOT_CALCULATED
              || Known(c, st1.a, l, st1.certainty[l], st1.second[l], st1.result[l], a0, m + 1)
    {
      RowSurvives(c, st.a, st1.a, k, m, l, st.similarity[l], st1.similarity[l], a0, a1, a0, m + 1);
      if st1.certainty[l] != CERTAINTY_NOT_CALCULATED {
        KnownSurvives(c, st.a, st1.a, k, m, l, st.certainty[l], st.second[l], st.result[l], a0, a1);
      }
    }
  }

  /** So can the lines after it, once the lines before it are done. */
  lemma {:induction false} SecondHalfReady(c: Chunk, st: State, st1: State, st2: State, a0: nat, a1: nat, b0: nat,
                                           b1: nat, k: nat, m: nat)
    requires c.Valid() && c.Wide() && AllKnown(c, st, a0, a1, b0, b1) && b0 <= k < b1 && a0 <= m < a1 && c.Near(k, m)
    requires Forgotten(c, st, st1, a0, a1, b0, b1, k, m)
    requires Shape(c, st2) && SameOutside(st1, st2, b0, k) && ShrunkWithin(st1.a, st2.a, a0, m + 1)
    ensures Ready(c, st2, m, a1, k + 1, b1)
  {
    assert ShrunkWithin(st.a, st2.a, a0, m + 1);
    forall l | k + 1 <= l < b1
      ensures RowCurrent(c, st2.a, l, st2.similarity[l], m, a1)
      ensures st2.certainty[l] == CERTAINTY_NOT_CALCULATED
              || Known(c, st2.a, l, st2.certainty[l], st2.second[l], st2.result[l], m, a1)
    {
      RowSurvives(c, st.a, st2.a, k, m, l, st.similarity[l], st2.similarity[l], a0, a1, m, a1);
      if st2.certainty[l] != CERTAINTY_NOT_CALCULATED {
        KnownSurvives(c, st.a, st2.a, k, m, l, st.certainty[l], st.second[l], st.result[l], a0, a1);
      }
    }
  }

  /** Without a most certain line nothing in the range matches. */
  lemma {:induction false} NoChoice(c: Chunk, a: seq<Fingerprint>, a0: nat, a1: nat, b0: nat, b1: nat, k: nat)
    requires c.Valid() && a1 <= |a| && b1 <= |c.b| && Choice(c, a, a0, a1, b0, b1) < 0 && b0 <= k < b1
    ensures Ranking(c, a, k, a0, a1).best == 0
    decreases b1
  {
    if k < b1 - 1 {
      NoChoice(c, a, a0, a1, b0, b1 - 1, k);
    }
  }

  lemma {:induction false} MatchIsNear(c: Chunk, a: seq<Fingerprint>, k: nat, a0: nat, a1: nat)
    requires c.Valid() && k < |c.b| && a1 <= |a| && Ranking(c, a, k, a0, a1).best > 0
    ensures c.Near(k, Ranking(c, a, k, a0, a1).index)
  {
  }

  lemma {:induction false} NaiveEmpty(c: Chunk, a: seq<Fingerprint>, a0: nat, a1: nat, b: nat)
    requires c.Valid() && a1 <= |a| && b <= |c.b|
    ensures Naive(c, a, a0, a1, b, b) == Matched([], a)
  {
    NaiveStop(c, a, a0, a1, b, b);
  }

  /** A part of the work: lines [b0, b1) hold the matches of `r`, and `r.a` is what is left. */
  ghost predicate Does(st: State, st': State, b0: nat, b1: nat, r: Matched) {
    && SameOutside(st, st', b0, b1) && st'.a == r.a
    && b0 <= b1 <= |st'.result| && st'.result[b0..b1] == r.lines
  }

  lemma {:induction false} GlueDone(st: State, st1: State, st2: State, st3: State, b0: nat, b1: nat, k: nat, m: nat,
                                    before: Matched, after: Matched)
    requires b0 <= k < b1 <= |st.result| && SameOutside(st, st1, b0, b1) && st1.result[k] == m
    requires Does(st1, st2, b0, k, before) && Does(st2, st3, k + 1, b1, after)
    ensures Does(st, st3, b0, b1, Glue(before, m, after))
  {
    SameOutsideTrans(st, st1, st2, b0, k, b0, b1);
    SameOutsideTrans(st, st2, st3, k + 1, b1, b0, b1);
    assert st3.result[b0..k] == st2.result[b0..k];
    assert st3.result[b0..b1] == st3.result[b0..k] + [st3.result[k]] + st3.result[k + 1..b1];
  }

  /** fuzzy_find_matching_lines_recurse: with what is remembered, the same as with nothing. */
  method Recurse(c: Chunk, st: State, a0: nat, a1: nat, b0: nat, b1: nat) returns (st': State)
    requires c.Wide() && Ready(c, st, a0, a1, b0, b1)
    ensures Shape(c, st') && Does(st, st', b0, b1, Naive(c, st.a, a0, a1, b0, b1))
    decreases b1 - b0, 2
  {
    var ranked, k := RankAll(c, st, a0, a1, b0, b1);
    if k < 0 {
      NoneMatched(c, st, ranked, a0, a1, b0, b1);
      return ranked;
    }
    var m := ranked.result[k];
    ghost var k', m' := NaiveSplit(c, st.a, a0, a1, b0, b1);
    assert Known(c, ranked.a, k, ranked.certainty[k], ranked.second[k], ranked.result[k], a0, a1);
    MatchIsNear(c, ranked.a, k, a0, a1);
    st' := MatchAround(c, ranked, a0, a1, b0, b1, k, m);
    DoesAfter(st, ranked, st', b0, b1, NaiveAround(c, st.a, a0, a1, b0, b1, k, m));
  }

  lemma {:induction false} DoesAfter(st: State, st1: State, st2: State, b0: nat, b1: nat, r: Matched)
    requires SameOutside(st, st1, b0, b1) && Does(st1, st2, b0, b1, r)
    ensures Does(st, st2, b0, b1, r)
  {
    SameOutsideTrans(st, st1, st2, b0, b1, b0, b1);
  }

  lemma {:induction false} NoneMatched(c: Chunk, st: State, ranked: State, a0: nat, a1: nat, b0: nat, b1: nat)
    requires AllKnown(c, ranked, a0, a1, b0, b1) && ranked.a == st.a && SameOutside(st, ranked, b0, b1)
    requires Choice(c, st.a, a0, a1, b0, b1) < 0
    ensures Does(st, ranked, b0, b1, Naive(c, st.a, a0, a1, b0, b1))
  {
    forall l | b0 <= l < b1 ensures ranked.result[l] == -1 {
      NoChoice(c, st.a, a0, a1, b0, b1, l);
      assert Known(c, ranked.a, l, ranked.certainty[l], ranked.second[l], ranked.result[l], a0, a1);
    }
    NaiveStop(c, st.a, a0, a1, b0, b1);
  }

  /** A range is matched only if it is not empty. */
  method RecurseUnlessEmpty(c: Chunk, st: State, a0: nat, a1: nat, b0: nat, b1: nat) returns (st': State)
    requires c.Wide() && Ready(c, st, a0, a1, b0, b1)
    ensures Shape(c, st') && Does(st, st', b0, b1, Naive(c, st.a, a0, a1, b0, b1))
    decreases b1 - b0, 3
  {
    if b1 > b0 {
      st' := Recurse(c, st, a0, a1, b0, b1);
    } else {
      NaiveEmpty(c, st.a, a0, a1, b0);
      st' := st;
    }
  }

  /** The lines before the match of `k` with `m`. */
  method MatchBefore(c: Chunk, st: State, a0: nat, a1: nat, b0: nat, b1: nat, k: nat, m: nat)
    returns (ghost st1: State, st2: State)
    requires c.Wide() && AllKnown(c, st, a0, a1, b0, b1) && b0 <= k < b1 && a0 <= m < a1 && c.Near(k, m)
    ensures SameOutside(st, st1, b0, b1) && st1.result == st.result && st1.a == Less(c, st.a, k, m)
    ensures Shape(c, st2) && Does(st1, st2, b0, k, Naive(c, st1.a, a0, m + 1, b0, k))
    ensures Ready(c, st2, m, a1, k + 1, b1)
    decreases b1 - b0, 0
  {
    var forgot := Forget(c, st, a0, a1, b0, b1, k, m);
    FirstHalfReady(c, st, forgot, a0, a1, b0, b1, k, m);
    st2 := RecurseUnlessEmpty(c, forgot, a0, m + 1, b0, k);
    st1 := forgot;
    NaiveShrinks(c, st1.a, a0, m + 1, b0, k);
    SecondHalfReady(c, st, st1, st2, a0, a1, b0, b1, k, m);
  }

  /** After the most certain line `k` is matched with `m`: the lines before, then the lines after. */
  method MatchAround(c: Chunk, st: State, a0: nat, a1: nat, b0: nat, b1: nat, k: nat, m: nat) returns (st3: State)
    requires c.Wide() && AllKnown(c, st, a0, a1, b0, b1) && b0 <= k < b1
    requires a0 <= m < a1 && c.Near(k, m) && st.result[k] == m
    ensures Shape(c, st3) && Does(st, st3, b0, b1, NaiveAround(c, st.a, a0, a1, b0, b1, k, m))
    decreases b1 - b0, 1
  {
    ghost var st1;
    var st2;
    st1, st2 := MatchBefore(c, st, a0, a1, b0, b1, k, m);
    st3 := RecurseUnlessEmpty(c, st2, m, a1, k + 1, b1);
    GlueDone(st, st1, st2, st3, b0, b1, k, m, Naive(c, st1.a, a0, m + 1, b0, k), Naive(c, st2.a, m, a1, k + 1, b1));
  }

  /** The chunk with its line mapping and search distances. */
  function MakeChunk(b: seq<Fingerprint>, startA: nat, lengthA: nat): (c: Chunk)
    requires |b| > 0 && lengthA > 0
    ensures c.Valid()
  {
    var d := MaxSearchDistanceA(lengthA);
    Chunk(b, seq(|b|, k requires 0 <= k < |b| => MapLineNumber(k, startA, lengthA, |b|)), d,
          MaxSearchDistanceBNat(d, lengthA, |b|))
  }

  function MaxSearchDistanceBNat(d: nat, lengthA: nat, lengthB: nat): (w: nat)
    requires lengthA > 0 && lengthB > 0
    ensures w == MaxSearchDistanceB(d, lengthA, lengthB)
  {
    Scale(1, 2 * d + 1, lengthB);
    DivideAtLeast((2 * d + 1) * lengthB - 1, 0, lengthA);
    MaxSearchDistanceB(d, lengthA, lengthB)
  }

  lemma {:induction false} MadeChunkIsWide(b: seq<Fingerprint>, startA: nat, lengthA: nat)
    requires |b| > 0 && lengthA > 0
    ensures MakeChunk(b, startA, lengthA).Wide()
  {
    var c := MakeChunk(b, startA, lengthA);
    forall k, l | 0 <= k < l < |c.closest| && l - k > c.window
      ensures c.closest[k] + c.distance < c.closest[l] - c.distance
    {
      WindowIsWide(startA, lengthA, |b|, k, l);
    }
  }

  function NothingRemembered(c: Chunk, a: seq<Fingerprint>, a0: nat, a1: nat): (st: State)
    requires c.Valid() && a1 <= |a|
    ensures Ready(c, st, a0, a1, 0, |c.b|) && st.a == a
  {
    State(a, seq(|c.b|, _ => seq(2 * c.distance + 1, _ => -1)), seq(|c.b|, _ => CERTAINTY_NOT_CALCULATED),
          seq(|c.b|, _ => -1), seq(|c.b|, _ => -1))
  }

  method MatchChunk(c: Chunk, a: seq<Fingerprint>, a0: nat, a1: nat) returns (lines: seq<int>, left: seq<Fingerprint>)
    requires c.Valid() && c.Wide() && a1 <= |a|
    ensures Naive(c, a, a0, a1, 0, |c.b|) == Matched(lines, left) && Ordered(lines, a0, a1)
  {
    var st := NothingRemembered(c, a, a0, a1);
    var done := Recurse(c, st, a0, a1, 0, |c.b|);
    NaiveOrdered(c, a, a0, a1, 0, |c.b|);
    assert done.result[0..|c.b|] == done.result;
    return done.result, done.a;
  }
}
