/** Combined diffs: what each parent lost, kept beside the lines of the merge result
(combine_diff, reuse_combine_diff), so that every parent can be rebuilt. */
module CombineDiff {
  import opened CombineLines

  /** A result line (or the place after the last one) with the lines lost before it. `plost` is
      what the current parent lost, `flag` the parents that do not have the line. */
  datatype SLine = SLine(lost: seq<Lost>, plost: seq<Lost>, flag: set<nat>, pLno: map<nat, nat>)

  /** A hunk without context: `lost` stood at line `a` of the parent, `added` lines stand at line
      `b` of the result, both counted from zero. */
  datatype Hunk = Hunk(a: nat, lost: seq<Text>, b: nat, added: nat)

  /** Where the hunks before hunk `i` end in the parent and in the result. */
  function EndA(hunks: seq<Hunk>, i: nat): nat
    requires i <= |hunks|
  {
    if i == 0 then 0 else hunks[i - 1].a + |hunks[i - 1].lost|
  }

  function EndB(hunks: seq<Hunk>, i: nat): nat
    requires i <= |hunks|
  {
    if i == 0 then 0 else hunks[i - 1].b + hunks[i - 1].added
  }

  /** A correct diff: hunks in order, and lines between them the same in both. */
  ghost predicate Correct(same: Same, parent: seq<Text>, result: seq<Text>, hunks: seq<Hunk>) {
    && (forall i :: 0 <= i < |hunks| ==> CorrectHunk(same, parent, result, hunks, i))
    && Gap(same, parent, result, EndA(hunks, |hunks|), EndB(hunks, |hunks|), |parent|, |result|)
  }

  ghost predicate CorrectHunk(same: Same, parent: seq<Text>, result: seq<Text>, hunks: seq<Hunk>, i: nat)
    requires i < |hunks|
  {
    var h := hunks[i];
    && Gap(same, parent, result, EndA(hunks, i), EndB(hunks, i), h.a, h.b)
    && h.a + |h.lost| <= |parent| && h.lost == parent[h.a..h.a + |h.lost|] && h.b + h.added <= |result|
  }

  ghost predicate Gap(same: Same, parent: seq<Text>, result: seq<Text>, a: nat, b: nat, a': nat, b': nat) {
    && a <= a' <= |parent| && b <= b' <= |result| && a' - a == b' - b
    && SameTexts(same, result[b..b'], parent[a..a'])
  }

  /** The result line at `k`, if parent `n` has it. */
  function Survivor(sline: seq<SLine>, result: seq<Text>, n: nat, k: nat): seq<Text>
    requires k < |sline|
  {
    if k < |result| && n !in sline[k].flag then [result[k]] else []
  }

  /** The lines of parent `n` up to result line `k`: what it lost before each line, and the lines
      without its '+'. */
  function Rebuilt(sline: seq<SLine>, result: seq<Text>, n: nat, k: nat): seq<Text>
    requires k <= |sline|
  {
    if k == 0 then [] else Rebuilt(sline, result, n, k - 1) +
                           (Of(sline[k - 1].lost, n) + Survivor(sline, result, n, k - 1))
  }

  /** A line of a parent, and whether the diff gave it as lost. */
  datatype Mark = Mark(text: Text, lost: bool)

  function Marked(texts: seq<Text>, lost: bool): (r: seq<Mark>)
    ensures |r| == |texts| && forall k :: 0 <= k < |r| ==> r[k] == Mark(texts[k], lost)
  {
    seq(|texts|, k requires 0 <= k < |texts| => Mark(texts[k], lost))
  }

  /** The lines of parent `n` before coalescing. */
  function Raw(sline: seq<SLine>, result: seq<Text>, n: nat, k: nat): seq<Mark>
    requires k <= |sline|
  {
    if k == 0 then []
    else Raw(sline, result, n, k - 1) +
         (Marked(Texts(sline[k - 1].plost), true) + Marked(Survivor(sline, result, n, k - 1), false))
  }

  /** Lost lines are the parent's own, the others the same. */
  ghost predicate RawSame(same: Same, raw: seq<Mark>, parent: seq<Text>) {
    |raw| == |parent| && forall i :: 0 <= i < |raw| ==>
      if raw[i].lost then raw[i].text == parent[i] else same(raw[i].text, parent[i])
  }

  ghost predicate Untouched(sline: seq<SLine>, n: nat, from: nat) {
    forall k :: from <= k < |sline| ==> sline[k].plost == [] && n !in sline[k].flag
  }

  /** Nothing but what parent `n` lost, and its flags, differs. */
  ghost predicate OnlyParent(s: seq<SLine>, t: seq<SLine>, n: nat) {
    |s| == |t| && forall k :: 0 <= k < |s| ==> LineOnly(s[k], t[k], n)
  }

  ghost predicate LineOnly(s: SLine, t: SLine, n: nat) {
    t.lost == s.lost && t.pLno == s.pLno && OnlyFrom(t.plost, n) && forall m ::
      m != n ==> (m in t.flag <==> m in s.flag)
  }

  lemma {:induction false} RawDepends(s: seq<SLine>, t: seq<SLine>, result: seq<Text>, n: nat, k: nat)
    requires k <= |s| && k <= |t|
    requires forall i :: 0 <= i < k ==> s[i].plost == t[i].plost && (n in s[i].flag <==> n in t[i].flag)
    ensures Raw(s, result, n, k) == Raw(t, result, n, k)
  {
    if k > 0 { RawDepends(s, t, result, n, k - 1); }
  }

  /** What is settled once the hunks up to line `a` of the parent and `b` of the result are in. */
  ghost predicate Settled(same: Same, sline: seq<SLine>, parent: seq<Text>, result: seq<Text>, n: nat, a: nat, b: nat) {
    && a <= |parent| && b <= |result| && |sline| == |result| + 2
    && n !in sline[b].flag && Untouched(sline, n, b + 1)
    && RawSame(same, Raw(sline, result, n, b) + Marked(Texts(sline[b].plost), true), parent[..a])
  }

  lemma {:induction false} RawAppend(same: Same, raw: seq<Mark>, parent: seq<Text>, a: nat, m: Mark)
    requires a < |parent| && RawSame(same, raw, parent[..a])
    requires (if m.lost then m.text == parent[a] else same(m.text, parent[a]))
    ensures RawSame(same, raw + [m], parent[..a + 1])
  {
  }

  /** One line further inside a gap. */
  lemma {:induction false} GapStep(same: Same, sline: seq<SLine>, parent: seq<Text>, result: seq<Text>, n: nat,
                                   a: nat, b: nat)
    requires Settled(same, sline, parent, result, n, a, b) && a < |parent| && b < |result| && same(result[b], parent[a])
    ensures Settled(same, sline, parent, result, n, a + 1, b + 1)
  {
    var raw := Raw(sline, result, n, b) + Marked(Texts(sline[b].plost), true);
    RawAppend(same, raw, parent, a, Mark(result[b], false));
    assert Marked(Survivor(sline, result, n, b), false) == [Mark(result[b], false)];
    assert Raw(sline, result, n, b + 1) == raw + [Mark(result[b], false)];
    assert Raw(sline, result, n, b + 1) + Marked(Texts(sline[b + 1].plost), true) == raw + [Mark(result[b], false)];
  }

  lemma {:induction false} GapSettled(same: Same, sline: seq<SLine>, parent: seq<Text>, result: seq<Text>, n: nat,
                                      a: nat, b: nat, a': nat, b': nat)
    requires Settled(same, sline, parent, result, n, a, b) && Gap(same, parent, result, a, b, a', b')
    ensures Settled(same, sline, parent, result, n, a', b')
    decreases a' - a
  {
    if a < a' {
      assert same(result[b..b'][0], parent[a..a'][0]);
      GapStep(same, sline, parent, result, n, a, b);
      assert result[b + 1..b'] == result[b..b'][1..] && parent[a + 1..a'] == parent[a..a'][1..];
      GapSettled(same, sline, parent, result, n, a + 1, b + 1, a', b');
    }
  }

  /** Lines lost from parent `n`. */
  function LostLines(texts: seq<Text>, n: nat): (r: seq<Lost>)
    ensures |r| == |texts| && forall k :: 0 <= k < |r| ==> r[k] == Lost(texts[k], {n})
  {
    seq(|texts|, k requires 0 <= k < |texts| => Lost(texts[k], {n}))
  }

  /** What the first `i` hunks hang on result line `k`: the lines lost where it stands. */
  function LostAt(hunks: seq<Hunk>, i: nat, k: nat, n: nat): seq<Lost>
    requires i <= |hunks|
  {
    if i == 0 then []
    else LostAt(hunks, i - 1, k, n) + if hunks[i - 1].b == k then LostLines(hunks[i - 1].lost, n) else []
  }

  /** One of the first `i` hunks adds result line `k`. */
  ghost predicate AddedAt(hunks: seq<Hunk>, i: nat, k: nat)
    requires i <= |hunks|
  {
    exists j :: 0 <= j < i && hunks[j].b <= k < hunks[j].b + hunks[j].added
  }

  /** Line `t` is line `s` with what one hunk does to result line `k`. */
  ghost predicate HunkAt(s: SLine, t: SLine, n: nat, h: Hunk, k: nat) {
    && t.plost == s.plost + (if k == h.b then LostLines(h.lost, n) else [])
    && (n in t.flag <==> n in s.flag || h.b <= k < h.b + h.added)
  }

  ghost predicate HunkIn(s: seq<SLine>, t: seq<SLine>, n: nat, h: Hunk) {
    && |s| == |t|
    && forall k {:trigger HunkAt(s[k], t[k], n, h, k)} :: 0 <= k < |t| ==> HunkAt(s[k], t[k], n, h, k)
  }

  /** Line `t` has what the first `i` hunks do to result line `k`, and nothing else of parent `n`. */
  ghost predicate DiffAt(t: SLine, hunks: seq<Hunk>, i: nat, n: nat, k: nat) {
    i <= |hunks| && t.plost == LostAt(hunks, i, k, n) && (n in t.flag <==> AddedAt(hunks, i, k))
  }

  ghost predicate DiffIn(t: seq<SLine>, hunks: seq<Hunk>, i: nat, n: nat) {
    forall k {:trigger DiffAt(t[k], hunks, i, n, k)} :: 0 <= k < |t| ==> DiffAt(t[k], hunks, i, n, k)
  }

  lemma {:induction false} DiffMore(s: seq<SLine>, t: seq<SLine>, hunks: seq<Hunk>, i: nat, n: nat)
    requires i < |hunks| && DiffIn(s, hunks, i, n) && HunkIn(s, t, n, hunks[i])
    ensures DiffIn(t, hunks, i + 1, n)
  {
    forall k | 0 <= k < |t| ensures DiffAt(t[k], hunks, i + 1, n, k) {
      assert DiffAt(s[k], hunks, i, n, k) && HunkAt(s[k], t[k], n, hunks[i], k);
    }
  }

  /** append_lost */
  function AppendLost(sline: seq<SLine>, b: nat, text: Text, n: nat): seq<SLine>
    requires b < |sline|
  {
    sline[b := sline[b].(plost := sline[b].plost + [Lost(text, {n})])]
  }

  lemma {:induction false} AppendSettled(same: Same, sline: seq<SLine>, parent: seq<Text>, result: seq<Text>, n: nat,
                                         a: nat, b: nat)
    requires Settled(same, sline, parent, result, n, a, b) && a < |parent| && Reflexive(same)
    ensures Settled(same, AppendLost(sline, b, parent[a], n), parent, result, n, a + 1, b)
  {
    var t := AppendLost(sline, b, parent[a], n);
    RawDepends(sline, t, result, n, b);
    var raw := Raw(sline, result, n, b) + Marked(Texts(sline[b].plost), true);
    RawAppend(same, raw, parent, a, Mark(parent[a], true));
    assert Marked(Texts(t[b].plost), true) == Marked(Texts(sline[b].plost), true) + [Mark(parent[a], true)];
    assert Raw(t, result, n, b) + Marked(Texts(t[b].plost), true) == raw + [Mark(parent[a], true)];
  }

  function AddFlag(sline: seq<SLine>, b: nat, n: nat): seq<SLine>
    requires b < |sline|
  {
    sline[b := sline[b].(flag := sline[b].flag + {n})]
  }

  lemma {:induction false} FlagSettled(same: Same, sline: seq<SLine>, parent: seq<Text>, result: seq<Text>, n: nat,
                                       a: nat, b: nat)
    requires Settled(same, sline, parent, result, n, a, b) && b < |result|
    ensures Settled(same, AddFlag(sline, b, n), parent, result, n, a, b + 1)
  {
    var t := AddFlag(sline, b, n);
    RawDepends(sline, t, result, n, b);
    assert Raw(t, result, n, b + 1) == Raw(t, result, n, b) + Marked(Texts(t[b].plost), true);
    assert Raw(t, result, n, b + 1) + Marked(Texts(t[b + 1].plost), true) == Raw(t, result, n, b + 1);
  }

  lemma {:induction false} UpdateOnly(s: seq<SLine>, t: seq<SLine>, n: nat, b: nat, x: SLine)
    requires OnlyParent(s, t, n) && b < |s| && LineOnly(t[b], x, n)
    ensures OnlyParent(s, t[b := x], n)
  {
  }

  /** consume_line for the '-' lines of a hunk. */
  method ConsumeLost(same: Same, sline: seq<SLine>, n: nat, a: nat, b: nat, lost: seq<Text>, ghost parent: seq<Text>,
                     ghost result: seq<Text>)
    returns (t: seq<SLine>)
    requires Settled(same, sline, parent, result, n, a, b) && Reflexive(same)
    requires forall k :: 0 <= k < |sline| ==> OnlyFrom(sline[k].plost, n)
    requires a + |lost| <= |parent| && lost == parent[a..a + |lost|]
    ensures Settled(same, t, parent, result, n, a + |lost|, b) && OnlyParent(sline, t, n)
    ensures t == sline[b := sline[b].(plost := sline[b].plost + LostLines(lost, n))]
  {
    t := sline;
    assert sline[b].plost + [] == sline[b].plost;
    for i := 0 to |lost|
      invariant Settled(same, t, parent, result, n, a + i, b) && OnlyParent(sline, t, n)
      invariant t == sline[b := sline[b].(plost := sline[b].plost + LostLines(lost, n)[..i])]
    {
      AppendSettled(same, t, parent, result, n, a + i, b);
      UpdateOnly(sline, t, n, b, t[b].(plost := t[b].plost + [Lost(lost[i], {n})]));
      LostMore(sline[b].plost, lost, n, i);
      t := AppendLost(t, b, lost[i], n);
    }
    assert LostLines(lost, n)[..|lost|] == LostLines(lost, n);
  }

  lemma {:induction false} LostMore(plost: seq<Lost>, lost: seq<Text>, n: nat, i: nat)
    requires i < |lost|
    ensures plost + LostLines(lost, n)[..i] + [Lost(lost[i], {n})] == plost + LostLines(lost, n)[..i + 1]
  {
  }

  /** consume_line for the '+' lines of a hunk; `lno` counts from one. */
  method ConsumeAdded(same: Same, sline: seq<SLine>, n: nat, lno: nat, added: nat, ghost a: nat,
                      ghost parent: seq<Text>, ghost result: seq<Text>)
    returns (t: seq<SLine>)
    requires lno > 0 && Settled(same, sline, parent, result, n, a, lno - 1) && lno - 1 + added <= |result|
    requires forall k :: 0 <= k < |sline| ==> OnlyFrom(sline[k].plost, n)
    ensures Settled(same, t, parent, result, n, a, lno - 1 + added) && OnlyParent(sline, t, n)
    ensures FlaggedFrom(sline, t, n, lno - 1, added)
  {
    t := sline;
    NoFlags(sline, n, lno - 1);
    for i := 0 to added
      invariant Settled(same, t, parent, result, n, a, lno - 1 + i) && OnlyParent(sline, t, n)
      invariant FlaggedFrom(sline, t, n, lno - 1, i)
    {
      var b := lno - 1 + i;
      FlagSettled(same, t, parent, result, n, a, b);
      FlagOnly(sline, t, n, b);
      FlagMore(sline, t, n, lno - 1, i);
      t := AddFlag(t, b, n);
    }
  }

  lemma {:induction false} FlagMore(s: seq<SLine>, t: seq<SLine>, n: nat, b: nat, i: nat)
    requires FlaggedFrom(s, t, n, b, i) && b + i < |t|
    ensures FlaggedFrom(s, AddFlag(t, b + i, n), n, b, i + 1)
  {
    var t', j := AddFlag(t, b + i, n), i + 1;
    forall k | 0 <= k < |t| ensures FlagAt(s, t', n, b, j, k) { assert FlagAt(s, t, n, b, i, k); }
  }

  lemma {:induction false} NoFlags(s: seq<SLine>, n: nat, b: nat)
    ensures FlaggedFrom(s, s, n, b, 0)
  {
  }

  /** The lines [b, b + added) are flagged, and nothing else happened. */
  ghost predicate FlaggedFrom(s: seq<SLine>, t: seq<SLine>, n: nat, b: nat, added: nat) {
    && |s| == |t|
    && forall k {:trigger FlagAt(s, t, n, b, added, k)} :: 0 <= k < |t| ==> FlagAt(s, t, n, b, added, k)
  }

  ghost predicate FlagAt(s: seq<SLine>, t: seq<SLine>, n: nat, b: nat, added: nat, k: nat) {
    k < |s| && k < |t| && t[k] == if b <= k < b + added then s[k].(flag := s[k].flag + {n}) else s[k]
  }

  lemma {:induction false} FlagOnly(s: seq<SLine>, t: seq<SLine>, n: nat, b: nat)
    requires OnlyParent(s, t, n) && b < |s|
    ensures OnlyParent(s, AddFlag(t, b, n), n)
  {
    UpdateOnly(s, t, n, b, t[b].(flag := t[b].flag + {n}));
  }

  lemma {:induction false} OnlyTrans(s: seq<SLine>, t: seq<SLine>, u: seq<SLine>, n: nat)
    requires OnlyParent(s, t, n) && OnlyParent(t, u, n)
    ensures OnlyParent(s, u, n)
  {
  }

  /** consume_hunk with the lines that follow it: the lost lines go to the bucket of the line they
      stood before, the added lines are flagged. */
  method ConsumeHunk(same: Same, sline: seq<SLine>, n: nat, h: Hunk, ghost parent: seq<Text>, ghost result: seq<Text>,
                     ghost a': nat, ghost b': nat)
    returns (t: seq<SLine>)
    requires Settled(same, sline, parent, result, n, h.a, h.b) && Reflexive(same)
    requires forall k :: 0 <= k < |sline| ==> OnlyFrom(sline[k].plost, n)
    requires h.a + |h.lost| <= |parent| && h.lost == parent[h.a..h.a + |h.lost|] && h.b + h.added <= |result|
    requires a' == h.a + |h.lost| && b' == h.b + h.added
    ensures Settled(same, t, parent, result, n, a', b') && OnlyParent(sline, t, n)
    ensures HunkIn(sline, t, n, h)
  {
    var nb := if h.added == 0 then h.b else h.b + 1;
    var bucket := if h.added == 0 then nb else nb - 1;
    t := ConsumeLost(same, sline, n, h.a, bucket, h.lost, parent, result);
    if h.added > 0 {
      ghost var was := t;
      t := ConsumeAdded(same, t, n, nb, h.added, h.a + |h.lost|, parent, result);
      OnlyTrans(sline, was, t, n);
      HunkDone(sline, was, t, n, h);
    } else {
      HunkDone(sline, t, t, n, h);
    }
  }

  lemma {:induction false} HunkDone(s: seq<SLine>, r: seq<SLine>, t: seq<SLine>, n: nat, h: Hunk)
    requires h.b < |s| && r == s[h.b := s[h.b].(plost := s[h.b].plost + LostLines(h.lost, n))]
    requires if h.added > 0 then FlaggedFrom(r, t, n, h.b, h.added) else t == r
    ensures HunkIn(s, t, n, h)
  {
    forall k | 0 <= k < |t| ensures HunkAt(s[k], t[k], n, h, k) {
      assert s[k].plost + [] == s[k].plost;
      assert h.added > 0 ==> FlagAt(r, t, n, h.b, h.added, k);
    }
  }

  /** The state before parent `n`: nothing of it is in yet. */
  ghost predicate Fresh(sline: seq<SLine>, n: nat) {
    Unflagged(sline, n) && forall k :: 0 <= k < |sline| ==> Of(sline[k].lost, n) == []
  }

  ghost predicate Unflagged(sline: seq<SLine>, n: nat) {
    forall k :: 0 <= k < |sline| ==> n !in sline[k].flag
  }

  ghost predicate Clean(sline: seq<SLine>) {
    forall k :: 0 <= k < |sline| ==> sline[k].plost == []
  }

  /** All hunks of the diff with one parent. */
  method ConsumeHunks(same: Same, sline: seq<SLine>, n: nat, hunks: seq<Hunk>, ghost parent: seq<Text>,
                      ghost result: seq<Text>)
    returns (t: seq<SLine>)
    requires Settled(same, sline, parent, result, n, 0, 0) && OnlyParent(sline, sline, n) && Reflexive(same)
    requires DiffIn(sline, hunks, 0, n)
    requires forall i :: 0 <= i < |hunks| ==> CorrectHunk(same, parent, result, hunks, i)
    ensures Settled(same, t, parent, result, n, EndA(hunks, |hunks|), EndB(hunks, |hunks|)) && OnlyParent(sline, t, n)
    ensures DiffIn(t, hunks, |hunks|, n)
  {
    t := sline;
    for i := 0 to |hunks|
      invariant Settled(same, t, parent, result, n, EndA(hunks, i), EndB(hunks, i)) && OnlyParent(sline, t, n)
      invariant DiffIn(t, hunks, i, n)
    {
      t := ConsumeNext(same, sline, t, n, hunks, i, parent, result);
    }
  }

  /** The lines up to hunk `i`, and the hunk. */
  method ConsumeNext(same: Same, ghost sline: seq<SLine>, t: seq<SLine>, n: nat, hunks: seq<Hunk>, i: nat,
                     ghost parent: seq<Text>, ghost result: seq<Text>)
    returns (u: seq<SLine>)
    requires i < |hunks| && CorrectHunk(same, parent, result, hunks, i) && Reflexive(same)
    requires Settled(same, t, parent, result, n, EndA(hunks, i), EndB(hunks, i)) && OnlyParent(sline, t, n)
    requires DiffIn(t, hunks, i, n)
    ensures Settled(same, u, parent, result, n, EndA(hunks, i + 1), EndB(hunks, i + 1)) && OnlyParent(sline, u, n)
    ensures DiffIn(u, hunks, i + 1, n)
  {
    GapSettled(same, t, parent, result, n, EndA(hunks, i), EndB(hunks, i), hunks[i].a, hunks[i].b);
    u := ConsumeHunk(same, t, n, hunks[i], parent, result, EndA(hunks, i + 1), EndB(hunks, i + 1));
    OnlyTrans(sline, t, u, n);
    DiffMore(t, u, hunks, i, n);
  }

  /** The whole diff of one parent. */
  method ConsumeDiff(same: Same, sline: seq<SLine>, n: nat, hunks: seq<Hunk>, ghost parent: seq<Text>,
                     ghost result: seq<Text>)
    returns (t: seq<SLine>)
    requires |sline| == |result| + 2 && Unflagged(sline, n) && Clean(sline) && Reflexive(same)
    requires Correct(same, parent, result, hunks)
    ensures OnlyParent(sline, t, n) && RawSame(same, Raw(t, result, n, |result| + 1), parent)
    ensures DiffIn(t, hunks, |hunks|, n)
  {
    t := ConsumeHunks(same, sline, n, hunks, parent, result);
    AllSettled(same, t, parent, result, n, EndA(hunks, |hunks|), EndB(hunks, |hunks|));
  }

  lemma {:induction false} AllSettled(same: Same, t: seq<SLine>, parent: seq<Text>, result: seq<Text>, n: nat, a: nat,
                                      b: nat)
    requires Settled(same, t, parent, result, n, a, b) && Gap(same, parent, result, a, b, |parent|, |result|)
    ensures RawSame(same, Raw(t, result, n, |result| + 1), parent)
  {
    GapSettled(same, t, parent, result, n, a, b, |parent|, |result|);
    assert parent[..|parent|] == parent;
    assert Raw(t, result, n, |result| + 1) == Raw(t, result, n, |result|) + Marked(Texts(t[|result|].plost), true);
  }

  /** How many lost lines carry parent `n`. */
  method CountLost(lost: seq<Lost>, n: nat) returns (c: nat)
    ensures c == |Of(lost, n)|
  {
    c := 0;
    for i := 0 to |lost|
      invariant c == |OfTo(lost, i, n)|
    {
      if n in lost[i].parents {
        c := c + 1;
      }
    }
  }

  /** What the line-number pass makes of one line. */
  ghost predicate Numbered(same: Same, s: SLine, u: SLine, n: nat) {
    && u.lost == Merged(same, s.lost, s.plost, MatchBits(n), |s.lost|, |s.plost|) && u.plost == [] && u.flag == s.flag
    && n in u.pLno && u.pLno == s.pLno[n := u.pLno[n]]
  }

  /** How many lines of parent `n` result line `k` stands for. */
  function Advance(u: seq<SLine>, result: seq<Text>, n: nat, k: nat): nat
    requires k < |u|
  {
    |Of(u[k].lost, n)| + |Survivor(u, result, n, k)|
  }

  ghost predicate NumberedTo(same: Same, t: seq<SLine>, u: seq<SLine>, result: seq<Text>, n: nat) {
    AllNumbered(same, t, u, n) && Counting(u, result, n)
  }

  /** Numbers start at one and go on by what each line stands for. */
  ghost predicate Counting(u: seq<SLine>, result: seq<Text>, n: nat) {
    && (u != [] ==> n in u[0].pLno && u[0].pLno[n] == 1)
    && (forall k {:trigger Continues(u, result, n, k)} :: 0 < k < |u| ==> Continues(u, result, n, k))
  }

  ghost predicate Continues(u: seq<SLine>, result: seq<Text>, n: nat, k: nat) {
    && 0 < k < |u| && n in u[k].pLno && n in u[k - 1].pLno
    && u[k].pLno[n] == u[k - 1].pLno[n] + Advance(u, result, n, k - 1)
  }

  ghost predicate AllNumbered(same: Same, t: seq<SLine>, u: seq<SLine>, n: nat) {
    |u| <= |t| && forall k :: 0 <= k < |u| ==> Numbered(same, t[k], u[k], n)
  }

  /** The pass that assigns line numbers and coalesces. */
  method AssignLineNumbers(same: Same, t: seq<SLine>, n: nat, result: seq<Text>) returns (u: seq<SLine>)
    requires |t| == |result| + 2 && forall k :: 0 <= k < |t| ==> OnlyFrom(t[k].plost, n)
    ensures |u| == |t| && NumberedTo(same, t, u, result, n)
  {
    u := [];
    var pLno: nat := 1;
    for lno := 0 to |result| + 2
      invariant |u| == lno && NumberedTo(same, t, u, result, n)
      invariant pLno == if u == [] then 1 else u[lno - 1].pLno[n] + Advance(u, result, n, lno - 1)
    {
      var x, advance := NumberLine(same, t[lno], n, pLno, lno < |result|);
      NumberedMore(same, t, u, result, n, x);
      u := u + [x];
      pLno := pLno + advance;
    }
  }

  /** The pass at one line; `survives` says whether there is a result line here. */
  method NumberLine(same: Same, s: SLine, n: nat, pLno: nat, survives: bool) returns (x: SLine, advance: nat)
    requires OnlyFrom(s.plost, n)
    ensures Numbered(same, s, x, n) && x.pLno[n] == pLno
    ensures advance == |Of(x.lost, n)| + if survives && n !in x.flag then 1 else 0
  {
    var lost := CoalesceLines(same, s.lost, s.plost, n);
    x := s.(lost := lost, plost := [], pLno := s.pLno[n := pLno]);
    advance := CountLost(lost, n);
    if survives && n !in x.flag {
      advance := advance + 1;
    }
  }

  lemma {:induction false} AdvanceSame(u: seq<SLine>, x: SLine, result: seq<Text>, n: nat, k: nat)
    requires k < |u|
    ensures Advance(u + [x], result, n, k) == Advance(u, result, n, k)
  {
  }

  lemma {:induction false} NumberedMore(same: Same, t: seq<SLine>, u: seq<SLine>, result: seq<Text>, n: nat, x: SLine)
    requires NumberedTo(same, t, u, result, n) && |u| < |t| && Numbered(same, t[|u|], x, n)
    requires x.pLno[n] == if u == [] then 1 else u[|u| - 1].pLno[n] + Advance(u, result, n, |u| - 1)
    ensures NumberedTo(same, t, u + [x], result, n)
  {
    var u' := u + [x];
    assert forall k :: 0 <= k < |u| ==> u'[k] == u[k];
    forall k | 0 < k < |u'| ensures Continues(u', result, n, k) {
      assert Numbered(same, t[k - 1], u[k - 1], n);
      AdvanceSame(u, x, result, n, k - 1);
      if k < |u| { assert Continues(u, result, n, k); }
    }
  }

  lemma {:induction false} RebuiltLength(u: seq<SLine>, result: seq<Text>, n: nat, k: nat)
    requires 0 < k <= |u|
    ensures |Rebuilt(u, result, n, k)| == |Rebuilt(u, result, n, k - 1)| + Advance(u, result, n, k - 1)
  {
  }

  lemma {:induction false} LineNumbersRight(u: seq<SLine>, result: seq<Text>, n: nat, k: nat)
    requires Counting(u, result, n) && k < |u|
    ensures n in u[k].pLno && u[k].pLno[n] == 1 + |Rebuilt(u, result, n, k)|
  {
    if k > 0 {
      LineNumbersRight(u, result, n, k - 1);
      RebuiltLength(u, result, n, k);
      assert Continues(u, result, n, k);
    }
  }

  lemma {:induction false} OfEmptyTo(lines: seq<Lost>, n: nat, p: nat)
    requires n <= |lines| && OfTo(lines, n, p) == []
    ensures forall k :: 0 <= k < n ==> p !in lines[k].parents
  {
    if n > 0 { OfEmptyTo(lines, n - 1, p); }
  }

  lemma {:induction false} OfEmpty(lines: seq<Lost>, p: nat)
    requires Of(lines, p) == []
    ensures NoneFrom(lines, p)
  {
    OfEmptyTo(lines, |lines|, p);
  }

  /** Lost lines may be taken from another parent that lost the same; the others stay. */
  ghost predicate Carried(same: Same, texts: seq<Text>, raw: seq<Mark>) {
    |texts| == |raw| && forall i :: 0 <= i < |raw| ==>
      if raw[i].lost then same(texts[i], raw[i].text) else texts[i] == raw[i].text
  }

  lemma {:induction false} CarriedAppend(same: Same, s: seq<Text>, r: seq<Mark>, s': seq<Text>, r': seq<Mark>)
    requires Carried(same, s, r) && Carried(same, s', r')
    ensures Carried(same, s + s', r + r')
  {
  }

  /** Coalescing keeps what parent `n` can be rebuilt to, up to the match. */
  lemma {:induction false} RebuiltFromRaw(same: Same, t: seq<SLine>, u: seq<SLine>, result: seq<Text>, n: nat, k: nat)
    requires AllNumbered(same, t, u, n) && k <= |u| && Reflexive(same) && n < 32
    requires forall i :: 0 <= i < |t| ==> OnlyFrom(t[i].plost, n) && NoneFrom(t[i].lost, n)
    ensures Carried(same, Rebuilt(u, result, n, k), Raw(t, result, n, k))
  {
    if k > 0 {
      var i := k - 1;
      RebuiltFromRaw(same, t, u, result, n, i);
      LineCarried(same, t, u, result, n, i);
      CarriedAppend(same, Rebuilt(u, result, n, i), Raw(t, result, n, i), Of(u[i].lost, n) + Survivor(u, result, n, i),
                    Marked(Texts(t[i].plost), true) + Marked(Survivor(t, result, n, i), false));
      Unfold(t, u, result, n, i);
    }
  }

  lemma {:induction false} Unfold(t: seq<SLine>, u: seq<SLine>, result: seq<Text>, n: nat, i: nat)
    requires i < |u| <= |t|
    ensures Rebuilt(u, result, n, i + 1) == Rebuilt(u, result, n, i) + (Of(u[i].lost, n) + Survivor(u, result, n, i))
    ensures Raw(t, result, n, i + 1) == Raw(t, result, n, i) +
            (Marked(Texts(t[i].plost), true) + Marked(Survivor(t, result, n, i), false))
  {
  }

  lemma {:induction false} LineCarried(same: Same, t: seq<SLine>, u: seq<SLine>, result: seq<Text>, n: nat, i: nat)
    requires i < |u| <= |t| && Numbered(same, t[i], u[i], n) && Reflexive(same) && n < 32
    requires OnlyFrom(t[i].plost, n) && NoneFrom(t[i].lost, n)
    ensures Carried(same, Of(u[i].lost, n) + Survivor(u, result, n, i),
                    Marked(Texts(t[i].plost), true) + Marked(Survivor(t, result, n, i), false))
  {
    MaskRight(n);
    NewKept(same, t[i].lost, t[i].plost, n, MatchBits(n), |t[i].lost|, |t[i].plost|);
    assert Texts(t[i].plost)[..|t[i].plost|] == Texts(t[i].plost);
    CarriedAppend(same, Of(u[i].lost, n), Marked(Texts(t[i].plost), true), Survivor(u, result, n, i),
                  Marked(Survivor(t, result, n, i), false));
  }

  lemma {:induction false} CarriedSame(same: Same, texts: seq<Text>, raw: seq<Mark>, parent: seq<Text>)
    requires Carried(same, texts, raw) && RawSame(same, raw, parent)
    ensures SameTexts(same, texts, parent)
  {
  }

  /** Parents whose bits are not in `bits` are left as they were. */
  ghost predicate OthersSame(s: seq<SLine>, u: seq<SLine>, bits: set<nat>) {
    |s| == |u| && forall k, m :: 0 <= k < |s| && m !in bits ==> ParentSame(s[k], u[k], m)
  }

  ghost predicate ParentSame(s: SLine, u: SLine, m: nat) {
    && Of(u.lost, m) == Of(s.lost, m) && (m in u.flag <==> m in s.flag)
    && (m in u.pLno <==> m in s.pLno) && (m in s.pLno ==> u.pLno[m] == s.pLno[m])
  }

  lemma {:induction false} NumberedOthers(same: Same, s: seq<SLine>, t: seq<SLine>, u: seq<SLine>, result: seq<Text>,
                                          n: nat)
    requires OnlyParent(s, t, n) && NumberedTo(same, t, u, result, n) && |u| == |t|
    ensures OthersSame(s, u, MatchBits(n) + {n})
  {
    forall k, m | 0 <= k < |s| && m !in MatchBits(n) + {n} ensures ParentSame(s[k], u[k], m) {
      assert LineOnly(s[k], t[k], n) && Numbered(same, t[k], u[k], n);
      OthersKept(same, t[k].lost, t[k].plost, n, MatchBits(n), |t[k].lost|, |t[k].plost|, m);
    }
  }

  /** Parent `n` can be rebuilt, and its line numbers are right. */
  ghost predicate Good(same: Same, sline: seq<SLine>, result: seq<Text>, n: nat, parent: seq<Text>) {
    && |sline| == |result| + 2 && SameTexts(same, Rebuilt(sline, result, n, |result| + 1), parent)
    && forall k :: 0 <= k < |sline| ==> n in sline[k].pLno && sline[k].pLno[n] == 1 + |Rebuilt(sline, result, n, k)|
  }

  lemma {:induction false} NumberedGood(same: Same, s: seq<SLine>, t: seq<SLine>, u: seq<SLine>, result: seq<Text>,
                                        n: nat, parent: seq<Text>)
    requires Fresh(s, n) && OnlyParent(s, t, n) && NumberedTo(same, t, u, result, n) && |u| == |t| == |result| + 2
    requires Reflexive(same) && n < 32
    requires RawSame(same, Raw(t, result, n, |result| + 1), parent)
    ensures Good(same, u, result, n, parent)
  {
    forall i | 0 <= i < |t| ensures OnlyFrom(t[i].plost, n) && NoneFrom(t[i].lost, n) {
      assert LineOnly(s[i], t[i], n);
      OfEmpty(s[i].lost, n);
    }
    RebuiltFromRaw(same, t, u, result, n, |result| + 1);
    CarriedSame(same, Rebuilt(u, result, n, |result| + 1), Raw(t, result, n, |result| + 1), parent);
    forall k | 0 <= k < |u| ensures n in u[k].pLno && u[k].pLno[n] == 1 + |Rebuilt(u, result, n, k)| {
      assert Numbered(same, t[k], u[k], n);
      LineNumbersRight(u, result, n, k);
    }
  }

  // ---- line numbers, from the diff alone ----

  /** Hunks are in order. */
  lemma {:induction false} HunksAscend(same: Same, parent: seq<Text>, result: seq<Text>, hunks: seq<Hunk>, j: nat,
                                       i: nat)
    requires j < i <= |hunks| && forall l :: 0 <= l < |hunks| ==> CorrectHunk(same, parent, result, hunks, l)
    ensures hunks[j].b + hunks[j].added <= EndB(hunks, i) && (i < |hunks| ==> EndB(hunks, i) <= hunks[i].b)
  {
    if i < |hunks| { assert CorrectHunk(same, parent, result, hunks, i); }
    if j < i - 1 {
      HunksAscend(same, parent, result, hunks, j, i - 1);
      assert CorrectHunk(same, parent, result, hunks, i - 1);
    }
  }

  lemma {:induction false} LostBefore(hunks: seq<Hunk>, i: nat, l: nat, k: nat, n: nat)
    requires i <= l <= |hunks| && forall j :: i <= j < l ==> hunks[j].b != k
    ensures LostAt(hunks, l, k, n) == LostAt(hunks, i, k, n)
  {
    if i < l { LostBefore(hunks, i, l - 1, k, n); }
  }

  lemma {:induction false} LostNone(hunks: seq<Hunk>, i: nat, k: nat, n: nat)
    requires i <= |hunks| && forall j :: 0 <= j < i ==> hunks[j].b != k
    ensures LostAt(hunks, i, k, n) == []
  {
    LostBefore(hunks, 0, i, k, n);
  }

  /** Result line `k` lies between hunk i - 1 and hunk `i`, or is where hunk `i` starts. */
  ghost predicate InGap(hunks: seq<Hunk>, cnt: nat, i: nat, k: nat) {
    i <= |hunks| && EndB(hunks, i) <= k <= cnt && (i < |hunks| ==> k <= hunks[i].b)
  }

  /** Result line `k` comes after the first line that hunk `i` adds, or ends it. */
  ghost predicate InAdded(hunks: seq<Hunk>, cnt: nat, i: nat, k: nat) {
    i < |hunks| && hunks[i].b < k <= hunks[i].b + hunks[i].added <= cnt
  }

  ghost predicate ByDiff(same: Same, parent: seq<Text>, result: seq<Text>, hunks: seq<Hunk>, t: seq<SLine>, n: nat) {
    && |t| == |result| + 2 && Correct(same, parent, result, hunks) && DiffIn(t, hunks, |hunks|, n)
  }

  /** How many lines of parent `n` come before result line `k`. */
  function Before(t: seq<SLine>, cnt: nat, n: nat, k: nat): nat
    requires k <= |t|
  {
    if k == 0 then 0
    else Before(t, cnt, n, k - 1) + |t[k - 1].plost| + if k - 1 < cnt && n !in t[k - 1].flag then 1 else 0
  }

  lemma {:induction false} RawIsBefore(t: seq<SLine>, result: seq<Text>, n: nat, k: nat)
    requires k <= |t|
    ensures |Raw(t, result, n, k)| == Before(t, |result|, n, k)
  {
    if k > 0 { RawIsBefore(t, result, n, k - 1); }
  }

  /** What hangs on a line of a gap, and that no hunk adds it. */
  lemma {:induction false} GapLine(same: Same, parent: seq<Text>, result: seq<Text>, hunks: seq<Hunk>, t: seq<SLine>,
                                   n: nat, i: nat, k: nat)
    requires ByDiff(same, parent, result, hunks, t, n) && InGap(hunks, |result|, i, k) && k < |result|
    requires i < |hunks| ==> k < hunks[i].b
    ensures t[k].plost == LostAt(hunks, i, k, n) && n !in t[k].flag && LostAt(hunks, i, k + 1, n) == []
  {
    assert DiffAt(t[k], hunks, |hunks|, n, k);
    forall j | 0 <= j < |hunks|
      ensures if j < i then hunks[j].b + hunks[j].added <= k else hunks[j].b > k
    {
      if j < i { HunksAscend(same, parent, result, hunks, j, i); }
      if i < j { HunksAscend(same, parent, result, hunks, i, j); }
    }
    LostBefore(hunks, i, |hunks|, k, n);
    LostNone(hunks, i, k + 1, n);
  }

  /** What hangs on a line a hunk adds. */
  lemma {:induction false} AddedLine(same: Same, parent: seq<Text>, result: seq<Text>, hunks: seq<Hunk>,
                                     t: seq<SLine>, n: nat, i: nat, k: nat)
    requires ByDiff(same, parent, result, hunks, t, n) && i < |hunks| && k < |result|
    requires hunks[i].b <= k < hunks[i].b + hunks[i].added
    ensures n in t[k].flag
    ensures t[k].plost == if k == hunks[i].b then LostAt(hunks, i, k, n) + LostLines(hunks[i].lost, n) else []
  {
    assert DiffAt(t[k], hunks, |hunks|, n, k);
    forall j | 0 <= j < |hunks| && j != i
      ensures if j < i then hunks[j].b + hunks[j].added <= hunks[i].b else hunks[j].b > k
    {
      if j < i { HunksAscend(same, parent, result, hunks, j, i); }
      if i < j { HunksAscend(same, parent, result, hunks, i, j); }
    }
    LostBefore(hunks, i + 1, |hunks|, k, n);
    if k > hunks[i].b { LostNone(hunks, i + 1, k, n); }
  }

  lemma {:induction false} NothingLostAfter(same: Same, parent: seq<Text>, result: seq<Text>, hunks: seq<Hunk>,
                                            i: nat, n: nat)
    requires 0 < i <= |hunks| && hunks[i - 1].added > 0
    requires forall l :: 0 <= l < |hunks| ==> CorrectHunk(same, parent, result, hunks, l)
    ensures LostAt(hunks, i, EndB(hunks, i), n) == []
  {
    forall j | 0 <= j < i ensures hunks[j].b != EndB(hunks, i) {
      if j < i - 1 { HunksAscend(same, parent, result, hunks, j, i - 1); }
    }
    LostNone(hunks, i, EndB(hunks, i), n);
  }

  /** Parent lines before result line `k`, in a gap: those up to the hunk before, those of the gap, less
      the ones lost at this very line. */
  lemma {:induction false} GapCount(same: Same, parent: seq<Text>, result: seq<Text>, hunks: seq<Hunk>, t: seq<SLine>,
                                    n: nat, i: nat, k: nat)
    requires ByDiff(same, parent, result, hunks, t, n) && InGap(hunks, |result|, i, k)
    ensures Before(t, |result|, n, k) == EndA(hunks, i) + (k - EndB(hunks, i)) - |LostAt(hunks, i, k, n)|
    decreases k, i, 1
  {
    if k > EndB(hunks, i) {
      GapCount(same, parent, result, hunks, t, n, i, k - 1);
      GapLine(same, parent, result, hunks, t, n, i, k - 1);
    } else {
      GapStart(same, parent, result, hunks, t, n, i, k);
    }
  }

  lemma {:induction false} GapStart(same: Same, parent: seq<Text>, result: seq<Text>, hunks: seq<Hunk>, t: seq<SLine>,
                                    n: nat, i: nat, k: nat)
    requires ByDiff(same, parent, result, hunks, t, n) && InGap(hunks, |result|, i, k) && k == EndB(hunks, i)
    ensures Before(t, |result|, n, k) == EndA(hunks, i) - |LostAt(hunks, i, k, n)|
    decreases k, i, 0
  {
    if i > 0 {
      assert CorrectHunk(same, parent, result, hunks, i - 1);
      if hunks[i - 1].added > 0 {
        AddedCount(same, parent, result, hunks, t, n, i - 1, k);
        NothingLostAfter(same, parent, result, hunks, i, n);
      } else {
        GapCount(same, parent, result, hunks, t, n, i - 1, k);
      }
    }
  }

  /** Inside the added lines of hunk `i`: those up to the end of the hunk. */
  lemma {:induction false} AddedCount(same: Same, parent: seq<Text>, result: seq<Text>, hunks: seq<Hunk>,
                                      t: seq<SLine>, n: nat, i: nat, k: nat)
    requires ByDiff(same, parent, result, hunks, t, n) && InAdded(hunks, |result|, i, k)
    ensures Before(t, |result|, n, k) == EndA(hunks, i + 1)
    decreases k, i, 1
  {
    assert CorrectHunk(same, parent, result, hunks, i);
    AddedLine(same, parent, result, hunks, t, n, i, k - 1);
    if k - 1 == hunks[i].b {
      GapCount(same, parent, result, hunks, t, n, i, k - 1);
    } else {
      AddedCount(same, parent, result, hunks, t, n, i, k - 1);
    }
  }

  /** The line numbers the diff asks for: between hunks they follow the parent's lines, except that
      what a pure deletion lost at a line is still to come; inside added lines they stand still. */
  ghost predicate NumbersByDiff(u: seq<SLine>, cnt: nat, hunks: seq<Hunk>, n: nat) {
    && (forall k :: 0 <= k < |u| ==> n in u[k].pLno)
    && (forall i: nat, k: nat :: k < |u| && InGap(hunks, cnt, i, k) ==>
          u[k].pLno[n] == 1 + EndA(hunks, i) + (k - EndB(hunks, i)) - |LostAt(hunks, i, k, n)|)
    && (forall i: nat, k: nat :: k < |u| && InAdded(hunks, cnt, i, k) ==> u[k].pLno[n] == 1 + EndA(hunks, i + 1))
  }

  lemma {:induction false} NumberedByDiff(same: Same, s: seq<SLine>, t: seq<SLine>, u: seq<SLine>, result: seq<Text>,
                                          n: nat, parent: seq<Text>, hunks: seq<Hunk>)
    requires Fresh(s, n) && Combined(same, s, t, u, result, n, parent) && Reflexive(same) && n < 32
    requires Correct(same, parent, result, hunks) && DiffIn(t, hunks, |hunks|, n)
    ensures NumbersByDiff(u, |result|, hunks, n)
  {
    forall k | 0 <= k < |u| ensures NumberIsRaw(t, u, result, n, k) { RawNumber(same, s, t, u, result, n, k); }
    forall i: nat, k: nat | k < |u| && InGap(hunks, |result|, i, k)
      ensures u[k].pLno[n] == 1 + EndA(hunks, i) + (k - EndB(hunks, i)) - |LostAt(hunks, i, k, n)|
    {
      GapCount(same, parent, result, hunks, t, n, i, k);
      assert NumberIsRaw(t, u, result, n, k);
    }
    forall i: nat, k: nat | k < |u| && InAdded(hunks, |result|, i, k) ensures u[k].pLno[n] == 1 + EndA(hunks, i + 1) {
      AddedCount(same, parent, result, hunks, t, n, i, k);
      assert NumberIsRaw(t, u, result, n, k);
    }
  }

  ghost predicate NumberIsRaw(t: seq<SLine>, u: seq<SLine>, result: seq<Text>, n: nat, k: nat) {
    k < |u| && k <= |t| && n in u[k].pLno && u[k].pLno[n] == 1 + Before(t, |result|, n, k)
  }

  lemma {:induction false} RawNumber(same: Same, s: seq<SLine>, t: seq<SLine>, u: seq<SLine>, result: seq<Text>,
                                     n: nat, k: nat)
    requires Fresh(s, n) && OnlyParent(s, t, n) && NumberedTo(same, t, u, result, n) && |u| == |t|
    requires Reflexive(same) && n < 32 && k < |u|
    ensures NumberIsRaw(t, u, result, n, k)
  {
    forall i | 0 <= i < |t| ensures OnlyFrom(t[i].plost, n) && NoneFrom(t[i].lost, n) {
      assert LineOnly(s[i], t[i], n);
      OfEmpty(s[i].lost, n);
    }
    LineNumbersRight(u, result, n, k);
    RebuiltFromRaw(same, t, u, result, n, k);
    RawIsBefore(t, result, n, k);
  }

  /** What combine_diff makes of the state: the diff's lines in `t`, then coalesced and numbered. */
  ghost predicate Combined(same: Same, s: seq<SLine>, t: seq<SLine>, u: seq<SLine>, result: seq<Text>, n: nat,
                           parent: seq<Text>) {
    && |u| == |t| == |result| + 2 && OnlyParent(s, t, n) && NumberedTo(same, t, u, result, n)
    && RawSame(same, Raw(t, result, n, |result| + 1), parent)
  }

  /** combine_diff: up to parent 31 the parent can be rebuilt from the state; the parents whose bits
      the mask of a match does not hold are as before. */
  method CombineDiff(same: Same, sline: seq<SLine>, n: nat, hunks: seq<Hunk>, result: seq<Text>,
                     ghost parent: seq<Text>)
    returns (u: seq<SLine>, ghost t: seq<SLine>)
    requires |sline| == |result| + 2 && Unflagged(sline, n) && Clean(sline) && Reflexive(same)
    requires Correct(same, parent, result, hunks)
    ensures Combined(same, sline, t, u, result, n, parent) && DiffIn(t, hunks, |hunks|, n)
    ensures n < 32 && Fresh(sline, n) ==> Good(same, u, result, n, parent) && NumbersByDiff(u, |result|, hunks, n)
    ensures OthersSame(sline, u, MatchBits(n) + {n})
  {
    var consumed := ConsumeDiff(same, sline, n, hunks, parent, result);
    u := AssignLineNumbers(same, consumed, n, result);
    t := consumed;
    CombinedKeeps(same, sline, t, u, result, n, parent);
    if n < 32 && Fresh(sline, n) { NumberedByDiff(same, sline, t, u, result, n, parent, hunks); }
  }

  lemma {:induction false} CombinedKeeps(same: Same, s: seq<SLine>, t: seq<SLine>, u: seq<SLine>, result: seq<Text>,
                                         n: nat, parent: seq<Text>)
    requires Combined(same, s, t, u, result, n, parent) && Reflexive(same)
    ensures n < 32 && Fresh(s, n) ==> Good(same, u, result, n, parent)
    ensures OthersSame(s, u, MatchBits(n) + {n})
  {
    NumberedOthers(same, s, t, u, result, n);
    if n < 32 && Fresh(s, n) { NumberedGood(same, s, t, u, result, n, parent); }
  }

  /** A lost line once parent `i` is known to be the same as parent `j`. */
  function ReusedLoss(l: Lost, i: nat, j: nat): Lost {
    if j in l.parents then l.(parents := l.parents + {i}) else l
  }

  function ReusedLost(lost: seq<Lost>, i: nat, j: nat): (r: seq<Lost>)
    ensures |r| == |lost| && forall k :: 0 <= k < |r| ==> r[k] == ReusedLoss(lost[k], i, j)
  {
    seq(|lost|, k requires 0 <= k < |lost| => ReusedLoss(lost[k], i, j))
  }

  lemma {:induction false} ReusedOfTo(lost: seq<Lost>, n: nat, i: nat, j: nat, m: nat)
    requires n <= |lost|
    ensures m != i ==> OfTo(ReusedLost(lost, i, j), n, m) == OfTo(lost, n, m)
    ensures OfTo(lost, n, i) == [] ==> OfTo(ReusedLost(lost, i, j), n, i) == OfTo(lost, n, j)
  {
    if n > 0 { ReusedOfTo(lost, n - 1, i, j, m); }
  }

  lemma {:induction false} ReusedOf(lost: seq<Lost>, i: nat, j: nat, m: nat)
    ensures m != i ==> Of(ReusedLost(lost, i, j), m) == Of(lost, m)
    ensures Of(lost, i) == [] ==> Of(ReusedLost(lost, i, j), i) == Of(lost, j)
  {
    ReusedOfTo(lost, |lost|, i, j, m);
  }

  /** The loop over the lost lines of one result line. */
  method ReuseLost(lost: seq<Lost>, i: nat, j: nat) returns (copied: seq<Lost>)
    ensures copied == ReusedLost(lost, i, j)
  {
    copied := [];
    for k := 0 to |lost|
      invariant |copied| == k && forall l :: 0 <= l < k ==> copied[l] == ReusedLoss(lost[l], i, j)
    {
      copied := copied + [if j in lost[k].parents then lost[k].(parents := lost[k].parents + {i}) else lost[k]];
    }
  }

  /** What reuse_combine_diff makes of a line. */
  ghost predicate Reused(s: SLine, u: SLine, i: nat, j: nat) {
    && u.lost == ReusedLost(s.lost, i, j) && u.plost == s.plost
    && u.flag == (if j in s.flag then s.flag + {i} else s.flag)
    && j in s.pLno && u.pLno == s.pLno[i := s.pLno[j]]
  }

  method ReuseLine(s: SLine, i: nat, j: nat) returns (u: SLine)
    requires j in s.pLno
    ensures Reused(s, u, i, j)
  {
    var lost := ReuseLost(s.lost, i, j);
    u := s.(lost := lost, flag := if j in s.flag then s.flag + {i} else s.flag, pLno := s.pLno[i := s.pLno[j]]);
  }

  /** The loop of reuse_combine_diff, and the line number after the last line. */
  ghost predicate ReusedLines(s: seq<SLine>, u: seq<SLine>, i: nat, j: nat, cnt: nat) {
    && |s| == |u| == cnt + 2 && (forall k :: 0 <= k <= cnt ==> Reused(s[k], u[k], i, j))
    && j in s[cnt + 1].pLno && u[cnt + 1] == s[cnt + 1].(pLno := s[cnt + 1].pLno[i := s[cnt + 1].pLno[j]])
  }

  /** reuse_combine_diff: parent `i` is the same file as parent `j`. */
  method ReuseCombineDiff(same: Same, sline: seq<SLine>, i: nat, j: nat, result: seq<Text>, ghost parent: seq<Text>)
    returns (u: seq<SLine>)
    requires i != j && |sline| == |result| + 2 && forall k :: 0 <= k < |sline| ==> j in sline[k].pLno
    ensures ReusedLines(sline, u, i, j, |result|) && OthersSame(sline, u, {i})
    ensures Good(same, sline, result, j, parent) && Fresh(sline, i) ==> Good(same, u, result, i, parent)
  {
    u := [];
    for lno := 0 to |result| + 1
      invariant |u| == lno && forall k :: 0 <= k < lno ==> Reused(sline[k], u[k], i, j)
    {
      var x := ReuseLine(sline[lno], i, j);
      u := u + [x];
    }
    var last := sline[|result| + 1];
    u := u + [last.(pLno := last.pLno[i := last.pLno[j]])];
    ReusedKeeps(same, sline, u, i, j, result, parent);
  }

  lemma {:induction false} ReusedOthers(s: SLine, u: SLine, i: nat, j: nat, m: nat)
    requires Reused(s, u, i, j) && m != i
    ensures ParentSame(s, u, m)
  {
    ReusedOf(s.lost, i, j, m);
  }

  lemma {:induction false} ReusedKeeps(same: Same, s: seq<SLine>, u: seq<SLine>, i: nat, j: nat, result: seq<Text>,
                                       parent: seq<Text>)
    requires ReusedLines(s, u, i, j, |result|)
    ensures OthersSame(s, u, {i})
    ensures Good(same, s, result, j, parent) && Fresh(s, i) ==> Good(same, u, result, i, parent)
  {
    forall k, m | 0 <= k < |s| && m !in {i} ensures ParentSame(s[k], u[k], m) {
      if k <= |result| { ReusedOthers(s[k], u[k], i, j, m); }
    }
    if Good(same, s, result, j, parent) && Fresh(s, i) { ReusedGood(same, s, u, i, j, result, parent); }
  }

  /** Line `k` is for parent `i` what it was for parent `j`. */
  ghost predicate LineAlike(s: seq<SLine>, u: seq<SLine>, result: seq<Text>, i: nat, j: nat, k: nat) {
    && k < |s| && k < |u|
    && Of(u[k].lost, i) == Of(s[k].lost, j) && Survivor(u, result, i, k) == Survivor(s, result, j, k)
  }

  lemma {:induction false} ReusedRebuilt(s: seq<SLine>, u: seq<SLine>, result: seq<Text>, i: nat, j: nat, k: nat)
    requires k <= |s| && k <= |u|
    requires forall l {:trigger LineAlike(s, u, result, i, j, l)} :: 0 <= l < k ==> LineAlike(s, u, result, i, j, l)
    ensures Rebuilt(u, result, i, k) == Rebuilt(s, result, j, k)
  {
    if k > 0 {
      ReusedRebuilt(s, u, result, i, j, k - 1);
      assert LineAlike(s, u, result, i, j, k - 1);
    }
  }

  lemma {:induction false} ReusedLine(s: seq<SLine>, u: seq<SLine>, result: seq<Text>, i: nat, j: nat, k: nat)
    requires k < |s| && k < |u| && Fresh(s, i) && Reused(s[k], u[k], i, j)
    ensures LineAlike(s, u, result, i, j, k)
  {
    ReusedOf(s[k].lost, i, j, i);
  }

  lemma {:induction false} ReusedGood(same: Same, s: seq<SLine>, u: seq<SLine>, i: nat, j: nat, result: seq<Text>,
                                      parent: seq<Text>)
    requires Good(same, s, result, j, parent) && Fresh(s, i) && ReusedLines(s, u, i, j, |result|)
    ensures Good(same, u, result, i, parent)
  {
    forall l | 0 <= l <= |result| ensures LineAlike(s, u, result, i, j, l) { ReusedLine(s, u, result, i, j, l); }
    forall k | 0 <= k < |u| ensures NumberAlike(s, u, i, j, k) { ReusedNumber(s, u, i, j, |result|, k); }
    AlikeGood(same, s, u, i, j, result, parent);
  }

  ghost predicate NumberAlike(s: seq<SLine>, u: seq<SLine>, i: nat, j: nat, k: nat) {
    k < |s| && k < |u| && i in u[k].pLno && j in s[k].pLno && u[k].pLno[i] == s[k].pLno[j]
  }

  lemma {:induction false} ReusedNumber(s: seq<SLine>, u: seq<SLine>, i: nat, j: nat, cnt: nat, k: nat)
    requires ReusedLines(s, u, i, j, cnt) && k < |u|
    ensures NumberAlike(s, u, i, j, k)
  {
    assert k <= cnt ==> Reused(s[k], u[k], i, j);
  }

  lemma {:induction false} AlikeGood(same: Same, s: seq<SLine>, u: seq<SLine>, i: nat, j: nat, result: seq<Text>,
                                     parent: seq<Text>)
    requires Good(same, s, result, j, parent) && |u| == |s|
    requires forall l {:trigger LineAlike(s, u, result, i, j, l)} :: 0 <= l <= |result| ==>
             LineAlike(s, u, result, i, j, l)
    requires forall k {:trigger NumberAlike(s, u, i, j, k)} :: 0 <= k < |u| ==> NumberAlike(s, u, i, j, k)
    ensures Good(same, u, result, i, parent)
  {
    ReusedRebuilt(s, u, result, i, j, |result| + 1);
    forall k | 0 <= k < |u| ensures i in u[k].pLno && u[k].pLno[i] == 1 + |Rebuilt(u, result, i, k)| {
      ReusedRebuilt(s, u, result, i, j, k);
      assert NumberAlike(s, u, i, j, k);
    }
  }

  /** A parent that can be rebuilt still can after another one is merged in. */
  lemma {:induction false} GoodKept(same: Same, s: seq<SLine>, u: seq<SLine>, result: seq<Text>, bits: set<nat>,
                                    m: nat, parent: seq<Text>)
    requires OthersSame(s, u, bits) && m !in bits && Good(same, s, result, m, parent)
    ensures Good(same, u, result, m, parent)
  {
    forall k | 0 <= k < |s| ensures ParentSame(s[k], u[k], m) {}
    forall k | 0 <= k <= |result| + 1 ensures Rebuilt(s, result, m, k) == Rebuilt(u, result, m, k) {
      RebuiltDepends(s, u, result, m, k);
    }
  }

  lemma {:induction false} RebuiltDepends(s: seq<SLine>, t: seq<SLine>, result: seq<Text>, m: nat, k: nat)
    requires k <= |s| && k <= |t| && forall i :: 0 <= i < k ==> ParentSame(s[i], t[i], m)
    ensures Rebuilt(s, result, m, k) == Rebuilt(t, result, m, k)
  {
    if k > 0 { RebuiltDepends(s, t, result, m, k - 1); }
  }

  lemma {:induction false} FreshKept(s: seq<SLine>, u: seq<SLine>, bits: set<nat>, m: nat)
    requires OthersSame(s, u, bits) && m !in bits && Fresh(s, m)
    ensures Fresh(u, m)
  {
    forall k | 0 <= k < |u| ensures Of(u[k].lost, m) == [] && m !in u[k].flag { assert ParentSame(s[k], u[k], m); }
  }

  /** A parent of the merge: its object id, its lines, and its diff with the result. */
  datatype Parent = Parent(oid: nat, lines: seq<Text>, hunks: seq<Hunk>)

  ghost predicate Consistent(same: Same, result: seq<Text>, parents: seq<Parent>) {
    && Reflexive(same)
    && (forall m :: 0 <= m < |parents| ==> Correct(same, parents[m].lines, result, parents[m].hunks))
    && (forall l, m :: 0 <= l < m < |parents| && parents[l].oid == parents[m].oid ==>
       parents[l].lines == parents[m].lines)
  }

  /** The first parent from `j` on with the object of parent `i`. */
  function FirstSame(parents: seq<Parent>, i: nat, j: nat): (r: nat)
    requires j <= i < |parents|
    ensures j <= r <= i && parents[r].oid == parents[i].oid
    ensures forall l :: j <= l < r ==> parents[l].oid != parents[i].oid
    decreases i - j
  {
    if j == i || parents[i].oid == parents[j].oid then j else FirstSame(parents, i, j + 1)
  }

  /** What one turn of the loop over the parents makes of the state. */
  ghost predicate Step(same: Same, s: seq<SLine>, u: seq<SLine>, result: seq<Text>, parents: seq<Parent>, i: nat)
    requires i < |parents|
  {
    var j := FirstSame(parents, i, 0);
    if j < i then ReusedLines(s, u, i, j, |result|)
    else exists t :: Combined(same, s, t, u, result, i, parents[i].lines)
  }

  const BLANK := SLine([], [], {}, map[])

  /** The states the loop of show_patch_diff goes through. */
  ghost predicate Run(same: Same, result: seq<Text>, parents: seq<Parent>, states: seq<seq<SLine>>) {
    && 0 < |states| <= |parents| + 1 && states[0] == seq(|result| + 2, _ => BLANK)
    && forall i :: 0 <= i < |states| - 1 ==> Step(same, states[i], states[i + 1], result, parents, i)
  }

  /** What every turn can rely on, for any number of parents. */
  ghost predicate Ready(sline: seq<SLine>, cnt: nat, i: nat) {
    && |sline| == cnt + 2 && Clean(sline) && (forall m :: m >= i ==> Unflagged(sline, m))
    && forall k, m :: 0 <= k < |sline| && 0 <= m < i ==> m in sline[k].pLno
  }

  lemma {:induction false} StepReady(same: Same, s: seq<SLine>, u: seq<SLine>, result: seq<Text>,
                                     parents: seq<Parent>, i: nat)
    requires i < |parents| && Step(same, s, u, result, parents, i) && Ready(s, |result|, i)
    ensures Ready(u, |result|, i + 1)
  {
    var j := FirstSame(parents, i, 0);
    if j < i {
      forall k | 0 <= k < |u| ensures LineReady(s[k], u[k], i) { assert k <= |result| ==> Reused(s[k], u[k], i, j); }
    } else {
      var t: seq<SLine> :| Combined(same, s, t, u, result, i, parents[i].lines);
      forall k | 0 <= k < |u| ensures LineReady(s[k], u[k], i) {
        assert LineOnly(s[k], t[k], i) && Numbered(same, t[k], u[k], i);
      }
    }
    AllReady(s, u, |result|, i);
  }

  ghost predicate LineReady(s: SLine, u: SLine, i: nat) {
    && (s.plost == [] ==> u.plost == []) && i in u.pLno && (forall m :: m in s.pLno ==> m in u.pLno)
    && forall m :: m > i && m in u.flag ==> m in s.flag
  }

  lemma {:induction false} AllReady(s: seq<SLine>, u: seq<SLine>, cnt: nat, i: nat)
    requires Ready(s, cnt, i) && |u| == |s| && forall k :: 0 <= k < |u| ==> LineReady(s[k], u[k], i)
    ensures Ready(u, cnt, i + 1)
  {
    forall m, k | m >= i + 1 && 0 <= k < |u| ensures m !in u[k].flag {
      assert LineReady(s[k], u[k], i) && Unflagged(s, m);
    }
    forall k, m | 0 <= k < |u| && 0 <= m < i + 1 ensures m in u[k].pLno { assert LineReady(s[k], u[k], i); }
  }

  ghost predicate AllGood(same: Same, sline: seq<SLine>, result: seq<Text>, parents: seq<Parent>, i: nat) {
    && i <= |parents|
    && (forall m {:trigger GoodAt(same, sline, result, parents, m)} :: 0 <= m < i ==>
       GoodAt(same, sline, result, parents, m))
    && (forall m :: i <= m < |parents| ==> Fresh(sline, m))
  }

  ghost predicate GoodAt(same: Same, sline: seq<SLine>, result: seq<Text>, parents: seq<Parent>, m: nat) {
    m < |parents| && Good(same, sline, result, m, parents[m].lines)
  }

  /** The bits one turn of the loop may set. */
  function TurnBits(parents: seq<Parent>, i: nat): set<nat>
    requires i < |parents|
  {
    if FirstSame(parents, i, 0) < i then {i} else MatchBits(i) + {i}
  }

  lemma {:induction false} TurnBitsRight(parents: seq<Parent>, i: nat, m: nat)
    requires i < |parents| <= 32 && m < |parents| && m != i
    ensures m !in TurnBits(parents, i)
  {
    MaskRight(i);
  }

  lemma {:induction false} StepKeeps(same: Same, s: seq<SLine>, u: seq<SLine>, result: seq<Text>,
                                     parents: seq<Parent>, i: nat)
    requires i < |parents| <= 32 && Consistent(same, result, parents) && Step(same, s, u, result, parents, i)
    requires AllGood(same, s, result, parents, i)
    ensures OthersSame(s, u, TurnBits(parents, i)) && GoodAt(same, u, result, parents, i)
  {
    var j := FirstSame(parents, i, 0);
    if j < i {
      assert GoodAt(same, s, result, parents, j);
      ReusedKeeps(same, s, u, i, j, result, parents[i].lines);
    } else {
      var t: seq<SLine> :| Combined(same, s, t, u, result, i, parents[i].lines);
      CombinedKeeps(same, s, t, u, result, i, parents[i].lines);
    }
  }

  /** A turn that sets no other parent's bit keeps the earlier parents and leaves the later ones alone. */
  lemma {:induction false} StepGood(same: Same, s: seq<SLine>, u: seq<SLine>, result: seq<Text>, parents: seq<Parent>,
                                    i: nat, bits: set<nat>)
    requires i < |parents| && AllGood(same, s, result, parents, i)
    requires OthersSame(s, u, bits) && GoodAt(same, u, result, parents, i)
    requires forall m :: 0 <= m < |parents| && m != i ==> m !in bits
    ensures AllGood(same, u, result, parents, i + 1)
  {
    forall m | 0 <= m < i ensures GoodAt(same, u, result, parents, m) {
      EarlierGood(same, s, u, result, parents, i, bits, m);
    }
    LaterFresh(same, s, u, result, parents, i, bits);
  }

  lemma {:induction false} EarlierGood(same: Same, s: seq<SLine>, u: seq<SLine>, result: seq<Text>,
                                       parents: seq<Parent>, i: nat, bits: set<nat>, m: nat)
    requires m < i < |parents| && AllGood(same, s, result, parents, i) && OthersSame(s, u, bits) && m !in bits
    ensures GoodAt(same, u, result, parents, m)
  {
    assert GoodAt(same, s, result, parents, m);
    GoodKept(same, s, u, result, bits, m, parents[m].lines);
  }

  lemma {:induction false} LaterFresh(same: Same, s: seq<SLine>, u: seq<SLine>, result: seq<Text>,
                                      parents: seq<Parent>, i: nat, bits: set<nat>)
    requires i < |parents| && AllGood(same, s, result, parents, i) && OthersSame(s, u, bits)
    requires forall m :: 0 <= m < |parents| && m != i ==> m !in bits
    ensures forall m :: i < m < |parents| ==> Fresh(u, m)
  {
    forall m | i < m < |parents| ensures Fresh(u, m) { FreshKept(s, u, bits, m); }
  }

  lemma {:induction false} TurnGood(same: Same, s: seq<SLine>, u: seq<SLine>, result: seq<Text>, parents: seq<Parent>,
                                    i: nat)
    requires i < |parents| <= 32 && Consistent(same, result, parents) && Step(same, s, u, result, parents, i)
    requires AllGood(same, s, result, parents, i)
    ensures AllGood(same, u, result, parents, i + 1)
  {
    StepKeeps(same, s, u, result, parents, i);
    forall m | 0 <= m < |parents| && m != i ensures m !in TurnBits(parents, i) { TurnBitsRight(parents, i, m); }
    StepGood(same, s, u, result, parents, i, TurnBits(parents, i));
  }

  lemma {:induction false} RunGood(same: Same, result: seq<Text>, parents: seq<Parent>, states: seq<seq<SLine>>, i: nat)
    requires |parents| <= 32 && Consistent(same, result, parents) && Run(same, result, parents, states) && i < |states|
    ensures AllGood(same, states[i], result, parents, i)
  {
    if i > 0 {
      RunGood(same, result, parents, states, i - 1);
      TurnGood(same, states[i - 1], states[i], result, parents, i - 1);
    }
  }

  /** One parent, reusing an earlier one with the same object. */
  method CombineParent(same: Same, sline: seq<SLine>, result: seq<Text>, parents: seq<Parent>, i: nat)
    returns (u: seq<SLine>)
    requires Consistent(same, result, parents) && i < |parents| && Ready(sline, |result|, i)
    ensures Step(same, sline, u, result, parents, i)
  {
    var j := 0;
    while j < i && parents[i].oid != parents[j].oid
      invariant j <= i && FirstSame(parents, i, j) == FirstSame(parents, i, 0)
    {
      j := j + 1;
    }
    if j < i {
      u := ReuseCombineDiff(same, sline, i, j, result, parents[i].lines);
    } else {
      assert Unflagged(sline, i);
      ghost var t;
      u, t := CombineDiff(same, sline, i, parents[i].hunks, result, parents[i].lines);
    }
  }

  lemma {:induction false} RunMore(same: Same, result: seq<Text>, parents: seq<Parent>, states: seq<seq<SLine>>,
                                   u: seq<SLine>)
    requires Run(same, result, parents, states) && |states| <= |parents|
    requires Step(same, states[|states| - 1], u, result, parents, |states| - 1)
    ensures Run(same, result, parents, states + [u])
  {
    var longer := states + [u];
    forall i | 0 <= i < |longer| - 1 ensures Step(same, longer[i], longer[i + 1], result, parents, i) {
      assert longer[i] == states[i] && longer[i + 1] == if i + 1 < |states| then states[i + 1] else u;
    }
  }

  /** The loop of show_patch_diff over the parents: up to 32 parents, none is lost. A word of 64 bits
      has room for 64. */
  method CombineAll(same: Same, result: seq<Text>, parents: seq<Parent>)
    returns (sline: seq<SLine>, ghost states: seq<seq<SLine>>)
    requires Consistent(same, result, parents) && |parents| <= 64
    ensures Run(same, result, parents, states) && |states| == |parents| + 1 && sline == states[|parents|]
    ensures |parents| <= 32 ==> forall m :: 0 <= m < |parents| ==> Good(same, sline, result, m, parents[m].lines)
  {
    sline := seq(|result| + 2, _ => BLANK);
    states := [sline];
    for i := 0 to |parents|
      invariant Run(same, result, parents, states) && |states| == i + 1
      invariant sline == states[i] && Ready(sline, |result|, i)
    {
      var u := CombineParent(same, sline, result, parents, i);
      StepReady(same, sline, u, result, parents, i);
      RunMore(same, result, parents, states, u);
      sline, states := u, states + [u];
    }
    if |parents| <= 32 {
      RunGood(same, result, parents, states, |parents|);
      forall m | 0 <= m < |parents| ensures Good(same, sline, result, m, parents[m].lines) {
        assert GoodAt(same, sline, result, parents, m);
      }
    }
  }

  function LeakyLines(k: nat): seq<Text> { if k == 0 then ["x", "x"] else if k == 31 then ["x", "x", "y"] else ["z"] }

  /** A merge whose result is empty, and no parent is: parent 31 lost the two lines parent 0 lost, and
      one more; the others lost a line of their own. */
  function LeakyParent(k: nat): Parent {
    Parent(if k == 0 then 1 else if k == 31 then 2 else 0, LeakyLines(k), [Hunk(0, LeakyLines(k), 0, 0)])
  }

  function LeakyMerge(count: nat): (r: seq<Parent>)
    ensures |r| == count && forall k :: 0 <= k < count ==> r[k] == LeakyParent(k)
  {
    seq(count, k requires 0 <= k < count => LeakyParent(k))
  }

  lemma {:induction false} LeakyCorrect(same: Same, k: nat)
    requires Reflexive(same)
    ensures Correct(same, LeakyParent(k).lines, [], LeakyParent(k).hunks)
  {
    var parent := LeakyParent(k);
    assert parent.lines[0..|parent.lines|] == parent.lines;
    assert CorrectHunk(same, parent.lines, [], parent.hunks, 0);
  }

  lemma {:induction false} LeakyConsistent(same: Same, count: nat)
    requires Reflexive(same)
    ensures Consistent(same, [], LeakyMerge(count))
  {
    var parents := LeakyMerge(count);
    forall m | 0 <= m < |parents| ensures Correct(same, parents[m].lines, [], parents[m].hunks) {
      LeakyCorrect(same, m);
    }
    forall l, m | 0 <= l < m < |parents| && parents[l].oid == parents[m].oid
      ensures parents[l].lines == parents[m].lines
    {
      LeakyOids(l, m);
    }
  }

  lemma {:induction false} LeakyOids(l: nat, m: nat)
    requires LeakyParent(l).oid == LeakyParent(m).oid
    ensures LeakyParent(l).lines == LeakyParent(m).lines
  {
  }

  /** With an empty result the diff's lines are the lines of the parent. */
  lemma {:induction false} AllLost(same: Same, s: seq<SLine>, t: seq<SLine>, u: seq<SLine>, n: nat, parent: seq<Text>)
    requires Combined(same, s, t, u, [], n, parent)
    ensures |s| == |u| == 2 && t[0].lost == s[0].lost && LostFrom(t[0].plost, parent, n)
    ensures u[0].lost == Merged(same, s[0].lost, t[0].plost, MatchBits(n), |s[0].lost|, |t[0].plost|)
  {
    assert LineOnly(s[0], t[0], n) && Numbered(same, t[0], u[0], n);
    RawOfEmpty(t, n);
    LostAre(same, t[0].plost, parent, n);
  }

  lemma {:induction false} RawOfEmpty(t: seq<SLine>, n: nat)
    requires |t| == 2
    ensures Raw(t, [], n, 1) == Marked(Texts(t[0].plost), true)
  {
    assert Raw(t, [], n, 0) == [] && Marked(Survivor(t, [], n, 0), false) == [];
  }

  ghost predicate LostFrom(lines: seq<Lost>, parent: seq<Text>, n: nat) {
    |lines| == |parent| && forall k :: 0 <= k < |parent| ==> lines[k] == Lost(parent[k], {n})
  }

  lemma {:induction false} LostAre(same: Same, lines: seq<Lost>, parent: seq<Text>, n: nat)
    requires OnlyFrom(lines, n) && RawSame(same, Marked(Texts(lines), true), parent)
    ensures LostFrom(lines, parent, n)
  {
    forall k | 0 <= k < |parent| ensures lines[k] == Lost(parent[k], {n}) {
      assert Marked(Texts(lines), true)[k].text == parent[k];
    }
  }

  /** Parent 0 puts its lines there. */
  lemma {:induction false} LeakyFirst(same: Same, s: seq<SLine>, u: seq<SLine>, count: nat)
    requires count > 31 && s == [BLANK, BLANK] && Step(same, s, u, [], LeakyMerge(count), 0)
    ensures |u| == 2 && Of(u[0].lost, 0) == ["x", "x"]
  {
    var t: seq<SLine> :| Combined(same, s, t, u, [], 0, LeakyMerge(count)[0].lines);
    AllLost(same, s, t, u, 0, ["x", "x"]);
    OnlyNew(same, [], t[0].plost, MatchBits(0), 2);
    assert u[0].lost == [Lost("x", {0})] + [Lost("x", {0})];
    TwoLines(Lost("x", {0}), 0);
  }

  lemma {:induction false} TwoLines(l: Lost, p: nat)
    requires p in l.parents
    ensures Of([l] + [l], p) == [l.text, l.text]
  {
    OfMore([], l, p);
    assert [] + [l] == [l];
    OfMore([l], l, p);
  }

  /** The parents between lose their own line, the first of them by coalescing, the others by reuse. */
  lemma {:induction false} LeakyOther(same: Same, s: seq<SLine>, u: seq<SLine>, count: nat, i: nat)
    requires 0 < i < count && i != 31 && |s| == 2 && Step(same, s, u, [], LeakyMerge(count), i)
    ensures |u| == 2 && Of(u[0].lost, 0) == Of(s[0].lost, 0)
    ensures i > 1 ==> u[0].lost == ReusedLost(s[0].lost, i, 1)
  {
    var parents := LeakyMerge(count);
    if i == 1 {
      assert FirstSame(parents, 1, 0) == 1;
      var t: seq<SLine> :| Combined(same, s, t, u, [], 1, parents[1].lines);
      AllLost(same, s, t, u, 1, ["z"]);
      OthersKept(same, s[0].lost, t[0].plost, 1, MatchBits(1), |s[0].lost|, |t[0].plost|, 0);
    } else {
      assert FirstSame(parents, i, 0) == 1;
      assert Reused(s[0], u[0], i, 1);
      ReusedOf(s[0].lost, i, 1, 0);
    }
  }

  /** Before parent 31 the two lines of parent 0 are there. */
  lemma {:induction false} LeakyBefore(same: Same, count: nat, states: seq<seq<SLine>>, i: nat)
    requires count > 31 && Run(same, [], LeakyMerge(count), states) && 0 < i < |states| && i <= 31
    ensures |states[i]| == 2 && Of(states[i][0].lost, 0) == ["x", "x"]
  {
    assert Step(same, states[i - 1], states[i], [], LeakyMerge(count), i - 1);
    if i == 1 {
      assert states[0] == [BLANK, BLANK];
      LeakyFirst(same, states[0], states[1], count);
    } else {
      LeakyBefore(same, count, states, i - 1);
      LeakyOther(same, states[i - 1], states[i], count, i - 1);
    }
  }

  /** Where parent 31 meets them, two lines get the bits 31 to 63. */
  lemma {:induction false} LeakyMatch(same: Same, base: seq<Lost>, lines: seq<Lost>)
    requires Reflexive(same) && Of(base, 0) == ["x", "x"] && LostFrom(lines, ["x", "x", "y"], 31)
    ensures |Of(Merged(same, base, lines, MatchBits(31), |base|, 3), 32)| >= 2
  {
    var places := OfPlaces(base, |base|, 0);
    var m: seq<(nat, nat)> := [(places[0], 0), (places[1], 1)];
    assert Pairing(same, base, lines, |base|, 3, m);
    LcsIsLongest(same, base, lines, |base|, 3, m);
    MaskRight(31);
    assert 32 in MatchBits(31);
    MaskedShared(same, base, lines, MatchBits(31), |base|, 3, 32);
  }

  lemma {:induction false} LeakyThird(count: nat)
    requires count > 31
    ensures FirstSame(LeakyMerge(count), 31, 0) == 31 && LeakyMerge(count)[31].lines == ["x", "x", "y"]
  {
    var parents := LeakyMerge(count);
    var j := FirstSame(parents, 31, 0);
    assert parents[j] == LeakyParent(j) && parents[31] == LeakyParent(31);
  }

  lemma {:induction false} LeakyMeets(same: Same, s: seq<SLine>, u: seq<SLine>, count: nat)
    requires Reflexive(same) && count > 31 && |s| == 2 && Of(s[0].lost, 0) == ["x", "x"]
    requires Step(same, s, u, [], LeakyMerge(count), 31)
    ensures |u| == 2 && |Of(u[0].lost, 32)| >= 2
  {
    LeakyThird(count);
    var t: seq<SLine> :| Combined(same, s, t, u, [], 31, ["x", "x", "y"]);
    AllLost(same, s, t, u, 31, ["x", "x", "y"]);
    LeakyMatch(same, s[0].lost, t[0].plost);
  }

  lemma {:induction false} ReusedGrows(lost: seq<Lost>, n: nat, i: nat, j: nat)
    requires n <= |lost|
    ensures |OfTo(ReusedLost(lost, i, j), n, i)| >= |OfTo(lost, n, i)|
  {
    if n > 0 { ReusedGrows(lost, n - 1, i, j); }
  }

  lemma {:induction false} LeakyAfter(same: Same, count: nat, states: seq<seq<SLine>>, i: nat)
    requires Reflexive(same) && count > 31 && Run(same, [], LeakyMerge(count), states) && 31 < i < |states|
    ensures |states[i]| == 2 && |Of(states[i][0].lost, 32)| >= 2
  {
    assert Step(same, states[i - 1], states[i], [], LeakyMerge(count), i - 1);
    if i == 32 {
      LeakyBefore(same, count, states, 31);
      LeakyMeets(same, states[31], states[32], count);
    } else {
      LeakyAfter(same, count, states, i - 1);
      LeakyStays(same, states[i - 1], states[i], count, i - 1);
    }
  }

  lemma {:induction false} LeakyStays(same: Same, s: seq<SLine>, u: seq<SLine>, count: nat, i: nat)
    requires 31 < i < count && |s| == 2 && |Of(s[0].lost, 32)| >= 2 && Step(same, s, u, [], LeakyMerge(count), i)
    ensures |u| == 2 && |Of(u[0].lost, 32)| >= 2
  {
    LeakyOther(same, s, u, count, i);
    StillThere(s[0].lost, i, 1, 32);
  }

  /** Reuse takes no line away from any parent. */
  lemma {:induction false} StillThere(lost: seq<Lost>, i: nat, j: nat, m: nat)
    ensures |Of(ReusedLost(lost, i, j), m)| >= |Of(lost, m)|
  {
    ReusedOf(lost, i, j, m);
    ReusedGrows(lost, |lost|, i, j);
  }

  /** With more than 32 parents this merge goes wrong: parent 32 has one line, and is given more. */
  lemma {:induction false} SignBitLeaks(same: Same, count: nat, states: seq<seq<SLine>>)
    requires Reflexive(same) && count > 32 && Run(same, [], LeakyMerge(count), states) && |states| == count + 1
    ensures |states[count]| == 2 && |LeakyMerge(count)[32].lines| == 1 && |Rebuilt(states[count], [], 32, 1)| > 1
    ensures !Good(same, states[count], [], 32, LeakyMerge(count)[32].lines)
  {
    LeakyAfter(same, count, states, count);
    assert Rebuilt(states[count], [], 32, 1) == Of(states[count][0].lost, 32);
  }

  /** The bound is exact: from 33 parents on there is a merge, different from all its parents, for which
      the loop goes wrong. */
  method TooManyParents(same: Same, count: nat) returns (parents: seq<Parent>, sline: seq<SLine>)
    requires Reflexive(same) && 32 < count <= 64
    ensures |parents| == count && Consistent(same, [], parents) && forall m :: 0 <= m < count ==> parents[m].lines != []
    ensures !Good(same, sline, [], 32, parents[32].lines)
  {
    parents := LeakyMerge(count);
    LeakyConsistent(same, count);
    ghost var states;
    sline, states := CombineAll(same, [], parents);
    SignBitLeaks(same, count, states);
  }
}
