/** Coalescing the lines a parent lost with those earlier parents lost (coalesce_lines). */
module CombineLines {

  type Text = string

  /** Whether two lines are taken for the same (match_string_spaces under the flags in force). */
  type Same = (Text, Text) -> bool

  ghost predicate Reflexive(same: Same) {
    forall t :: same(t, t)
  }

  /** A line lost from the parents in its map. */
  datatype Lost = Lost(text: Text, parents: set<nat>)

  predicate InWord(b: nat) {
    b < 64
  }

  /** `1 << k` as an `int` of 32 bits, widened to the `unsigned long` of 64 bits that holds a parent
      map: the sign bit is copied into the upper half. */
  function IntBit(k: nat): set<nat>
    requires k < 32
  {
    if k < 31 then {k} else set b | 31 <= b < 64 && InWord(b)
  }

  /** The bits set for a matching line of parent `n`. The language leaves an `int` shifted by 32 or
      more undefined; the machine takes the count modulo 32. */
  function MatchBits(n: nat): set<nat> {
    IntBit(n % 32)
  }

  /** A matching line sets the bits of `mask` on the line already there. */
  function Joined(l: Lost, mask: set<nat>): Lost {
    l.(parents := l.parents + mask)
  }

  /** Up to parent 31, and no further, the mask has the parent's own bit and none of an earlier
      parent; up to parent 30 it is that bit alone. */
  lemma {:induction false} MaskRight(n: nat)
    requires n < 64
    ensures n in MatchBits(n) && (forall p :: 0 <= p < n ==> p !in MatchBits(n)) <==> n < 32
    ensures MatchBits(n) == {n} <==> n < 31
  {
    assert n % 32 in MatchBits(n);
    if n == 31 { assert 32 in MatchBits(n); }
    if n >= 32 { assert 0 <= n % 32 < n; }
  }

  datatype Direction = MATCH | BASE | NEW

  /** The texts of those of the first `n` lines that carry parent `p`. */
  function OfTo(lines: seq<Lost>, n: nat, p: nat): seq<Text>
    requires n <= |lines|
  {
    if n == 0 then [] else OfTo(lines, n - 1, p) + if p in lines[n - 1].parents then [lines[n - 1].text] else []
  }

  function Of(lines: seq<Lost>, p: nat): seq<Text> { OfTo(lines, |lines|, p) }

  lemma {:induction false} OfDepends(s: seq<Lost>, t: seq<Lost>, n: nat, p: nat)
    requires n <= |s| && n <= |t| && forall k :: 0 <= k < n ==> s[k] == t[k]
    ensures OfTo(s, n, p) == OfTo(t, n, p)
  {
    if n > 0 { OfDepends(s, t, n - 1, p); }
  }

  lemma {:induction false} OfMore(lines: seq<Lost>, l: Lost, p: nat)
    ensures Of(lines + [l], p) == Of(lines, p) + if p in l.parents then [l.text] else []
  {
    OfDepends(lines + [l], lines, |lines|, p);
  }

  ghost predicate SameTexts(same: Same, s: seq<Text>, t: seq<Text>) {
    |s| == |t| && forall i :: 0 <= i < |s| ==> same(s[i], t[i])
  }

  /** The table of the dynamic program. */
  function Lcs(same: Same, base: seq<Lost>, lines: seq<Lost>, i: nat, j: nat): nat
    requires i <= |base| && j <= |lines|
    decreases i + j
  {
    if i == 0 || j == 0 then 0
    else if same(base[i - 1].text, lines[j - 1].text) then Lcs(same, base, lines, i - 1, j - 1) + 1
    else if Lcs(same, base, lines, i, j - 1) >= Lcs(same, base, lines, i - 1, j) then Lcs(same, base, lines, i, j - 1)
    else Lcs(same, base, lines, i - 1, j)
  }

  function Choose(same: Same, base: seq<Lost>, lines: seq<Lost>, i: nat, j: nat): (d: Direction)
    requires i <= |base| && j <= |lines|
    ensures i == 0 && j > 0 ==> d == NEW
    ensures j == 0 ==> d == BASE
  {
    if j == 0 then BASE
    else if i == 0 then NEW
    else if same(base[i - 1].text, lines[j - 1].text) then MATCH
    else if Lcs(same, base, lines, i, j - 1) >= Lcs(same, base, lines, i - 1, j) then NEW
    else BASE
  }

  /** What following the directions back from (i, j) makes of the first `i` and `j` lines. */
  function Merged(same: Same, base: seq<Lost>, lines: seq<Lost>, mask: set<nat>, i: nat, j: nat): seq<Lost>
    requires i <= |base| && j <= |lines|
    decreases i + j
  {
    if i == 0 && j == 0 then []
    else
      match Choose(same, base, lines, i, j)
      case MATCH => Merged(same, base, lines, mask, i - 1, j - 1) + [Joined(base[i - 1], mask)]
      case NEW => Merged(same, base, lines, mask, i, j - 1) + [lines[j - 1]]
      case BASE => Merged(same, base, lines, mask, i - 1, j) + [base[i - 1]]
  }

  /** The lines lost from one parent, before coalescing. */
  ghost predicate OnlyFrom(lines: seq<Lost>, n: nat) {
    forall k :: 0 <= k < |lines| ==> lines[k].parents == {n}
  }

  ghost predicate NoneFrom(lines: seq<Lost>, n: nat) {
    forall k :: 0 <= k < |lines| ==> n !in lines[k].parents
  }

  /** The line that following the direction at (i, j) settles. */
  function Settled(same: Same, base: seq<Lost>, lines: seq<Lost>, mask: set<nat>, i: nat, j: nat): Lost
    requires i <= |base| && j <= |lines| && (i > 0 || j > 0)
  {
    match Choose(same, base, lines, i, j)
    case MATCH => Joined(base[i - 1], mask)
    case NEW => lines[j - 1]
    case BASE => base[i - 1]
  }

  /** The last line settled by following the direction at (i, j). */
  lemma {:induction false} MergedLast(same: Same, base: seq<Lost>, lines: seq<Lost>, mask: set<nat>, i: nat, j: nat,
                                      i': nat, j': nat)
    requires i <= |base| && j <= |lines| && (i > 0 || j > 0)
    requires i' == if Choose(same, base, lines, i, j) == NEW then i else i - 1
    requires j' == if Choose(same, base, lines, i, j) == BASE then j else j - 1
    ensures Merged(same, base, lines, mask, i, j) == Merged(same, base, lines, mask, i', j') +
            [Settled(same, base, lines, mask, i, j)]
  {
  }

  /** Parents whose bit is not in the mask keep their lines exactly. */
  lemma {:induction false} OthersKept(same: Same, base: seq<Lost>, lines: seq<Lost>, n: nat, mask: set<nat>, i: nat,
                                      j: nat, p: nat)
    requires i <= |base| && j <= |lines| && OnlyFrom(lines, n) && p != n && p !in mask
    ensures Of(Merged(same, base, lines, mask, i, j), p) == OfTo(base, i, p)
    decreases i + j
  {
    if i > 0 || j > 0 {
      var d := Choose(same, base, lines, i, j);
      var i', j' := if d == NEW then i else i - 1, if d == BASE then j else j - 1;
      MergedLast(same, base, lines, mask, i, j, i', j');
      OthersKept(same, base, lines, n, mask, i', j', p);
      OfMore(Merged(same, base, lines, mask, i', j'), Settled(same, base, lines, mask, i, j), p);
    }
  }

  function Texts(lines: seq<Lost>): (r: seq<Text>)
    ensures |r| == |lines| && forall k :: 0 <= k < |lines| ==> r[k] == lines[k].text
  {
    seq(|lines|, k requires 0 <= k < |lines| => lines[k].text)
  }

  lemma {:induction false} SameMore(same: Same, s: seq<Text>, t: seq<Text>, j: nat, x: Text)
    requires 0 < j <= |t| && SameTexts(same, s, t[..j - 1]) && same(x, t[j - 1])
    ensures SameTexts(same, s + [x], t[..j])
  {
    assert t[..j] == t[..j - 1] + [t[j - 1]];
  }

  /** The new parent has all its lines, up to the match. */
  lemma {:induction false} NewKept(same: Same, base: seq<Lost>, lines: seq<Lost>, n: nat, mask: set<nat>, i: nat,
                                   j: nat)
    requires i <= |base| && j <= |lines| && OnlyFrom(lines, n) && NoneFrom(base, n) && Reflexive(same) && n in mask
    ensures SameTexts(same, Of(Merged(same, base, lines, mask, i, j), n), Texts(lines)[..j])
    decreases i + j
  {
    if i > 0 || j > 0 {
      var d := Choose(same, base, lines, i, j);
      var i', j' := if d == NEW then i else i - 1, if d == BASE then j else j - 1;
      var l := Settled(same, base, lines, mask, i, j);
      MergedLast(same, base, lines, mask, i, j, i', j');
      NewKept(same, base, lines, n, mask, i', j');
      OfMore(Merged(same, base, lines, mask, i', j'), l, n);
      if d != BASE { SameMore(same, Of(Merged(same, base, lines, mask, i', j'), n), Texts(lines), j, l.text); }
    }
  }

  /** As many lines are shared as the table says. */
  lemma {:induction false} MergedLength(same: Same, base: seq<Lost>, lines: seq<Lost>, mask: set<nat>, i: nat, j: nat)
    requires i <= |base| && j <= |lines|
    ensures |Merged(same, base, lines, mask, i, j)| == i + j - Lcs(same, base, lines, i, j)
    decreases i + j
  {
    if i > 0 || j > 0 {
      match Choose(same, base, lines, i, j)
      case MATCH => MergedLength(same, base, lines, mask, i - 1, j - 1);
      case NEW => MergedLength(same, base, lines, mask, i, j - 1);
      case BASE => MergedLength(same, base, lines, mask, i - 1, j);
    }
  }

  /** A way to share lines: pairs ascending on both sides, each pair the same line. */
  ghost predicate Pairing(same: Same, base: seq<Lost>, lines: seq<Lost>, i: nat, j: nat, m: seq<(nat, nat)>)
    requires i <= |base| && j <= |lines|
  {
    && (forall k :: 0 <= k < |m| ==> m[k].0 < i && m[k].1 < j && same(base[m[k].0].text, lines[m[k].1].text))
    && (forall k, l :: 0 <= k < l < |m| ==> m[k].0 < m[l].0 && m[k].1 < m[l].1)
  }

  lemma {:induction false} LcsGrows(same: Same, base: seq<Lost>, lines: seq<Lost>, i: nat, j: nat)
    requires i <= |base| && j <= |lines|
    ensures i > 0 ==>
              Lcs(same, base, lines, i - 1, j) <= Lcs(same, base, lines, i, j) <= Lcs(same, base, lines, i - 1, j) + 1
    ensures j > 0 ==>
              Lcs(same, base, lines, i, j - 1) <= Lcs(same, base, lines, i, j) <= Lcs(same, base, lines, i, j - 1) + 1
    decreases i + j
  {
    if i > 0 && j > 0 {
      LcsGrows(same, base, lines, i - 1, j);
      LcsGrows(same, base, lines, i, j - 1);
      LcsGrows(same, base, lines, i - 1, j - 1);
    }
  }

  /** No pairing shares more lines than the table says, so coalescing is as short as it can be. */
  lemma {:induction false} LcsIsLongest(same: Same, base: seq<Lost>, lines: seq<Lost>, i: nat, j: nat,
                                        m: seq<(nat, nat)>)
    requires i <= |base| && j <= |lines| && Pairing(same, base, lines, i, j, m)
    ensures |m| <= Lcs(same, base, lines, i, j)
    decreases i + j
  {
    if m != [] {
      var last := m[|m| - 1];
      var rest := m[..|m| - 1];
      assert Pairing(same, base, lines, last.0, last.1, rest);
      LcsGrows(same, base, lines, i, j);
      if last.0 < i - 1 {
        LcsIsLongest(same, base, lines, i - 1, j, m);
      } else if last.1 < j - 1 {
        LcsIsLongest(same, base, lines, i, j - 1, m);
      } else {
        LcsIsLongest(same, base, lines, i - 1, j - 1, rest);
      }
    }
  }

  /** Some pairing shares that many. */
  lemma {:induction false} LcsIsPairing(same: Same, base: seq<Lost>, lines: seq<Lost>, i: nat, j: nat)
    returns (m: seq<(nat, nat)>)
    requires i <= |base| && j <= |lines|
    ensures Pairing(same, base, lines, i, j, m) && |m| == Lcs(same, base, lines, i, j)
    decreases i + j
  {
    m := [];
    if i > 0 && j > 0 {
      match Choose(same, base, lines, i, j)
      case MATCH =>
        m := LcsIsPairing(same, base, lines, i - 1, j - 1);
        m := m + [(i - 1, j - 1)];
      case NEW => m := LcsIsPairing(same, base, lines, i, j - 1);
      case BASE => m := LcsIsPairing(same, base, lines, i - 1, j);
    }
  }

  /** Lists that share nothing are put one after the other, the lines already there first. */
  lemma {:induction false} NothingShared(same: Same, base: seq<Lost>, lines: seq<Lost>, mask: set<nat>, i: nat, j: nat)
    requires i <= |base| && j <= |lines|
    requires forall k, l :: 0 <= k < |base| && 0 <= l < |lines| ==> !same(base[k].text, lines[l].text)
    ensures Lcs(same, base, lines, i, j) == 0
    ensures Merged(same, base, lines, mask, i, j) == base[..i] + lines[..j]
    decreases i + j
  {
    if j > 0 {
      NothingShared(same, base, lines, mask, i, j - 1);
      if i > 0 { NothingShared(same, base, lines, mask, i - 1, j); }
      assert lines[..j] == lines[..j - 1] + [lines[j - 1]];
    } else if i > 0 {
      NothingShared(same, base, lines, mask, i - 1, j);
      assert base[..i] == base[..i - 1] + [base[i - 1]];
    }
  }

  /** Every shared line gets the bits of the mask. */
  lemma {:induction false} MaskedShared(same: Same, base: seq<Lost>, lines: seq<Lost>, mask: set<nat>, i: nat, j: nat,
                                        b: nat)
    requires i <= |base| && j <= |lines| && b in mask
    ensures |Of(Merged(same, base, lines, mask, i, j), b)| >= Lcs(same, base, lines, i, j)
    decreases i + j
  {
    if i > 0 || j > 0 {
      var d := Choose(same, base, lines, i, j);
      var i', j' := if d == NEW then i else i - 1, if d == BASE then j else j - 1;
      MergedLast(same, base, lines, mask, i, j, i', j');
      MaskedShared(same, base, lines, mask, i', j', b);
      OfMore(Merged(same, base, lines, mask, i', j'), Settled(same, base, lines, mask, i, j), b);
    }
  }

  /** Where the lines of parent `p` stand. */
  lemma {:induction false} OfPlaces(lines: seq<Lost>, n: nat, p: nat) returns (places: seq<nat>)
    requires n <= |lines|
    ensures |places| == |OfTo(lines, n, p)|
    ensures forall k :: 0 <= k < |places| ==> places[k] < n && lines[places[k]].text == OfTo(lines, n, p)[k]
    ensures forall k, l :: 0 <= k < l < |places| ==> places[k] < places[l]
  {
    places := [];
    if n > 0 {
      places := OfPlaces(lines, n - 1, p);
      if p in lines[n - 1].parents { places := places + [n - 1]; }
    }
  }

  /** Row `i` of the table before column `j`, and the directions there. */
  ghost predicate Row(same: Same, base: seq<Lost>, lines: seq<Lost>, i: nat, j: nat, lcs: seq<nat>,
                      directions: seq<Direction>) {
    && i <= |base| && j <= |lines| + 1 && |lcs| == |directions| == j
    && (forall b :: 0 <= b < j ==> lcs[b] == Lcs(same, base, lines, i, b))
    && (forall b :: 0 <= b < j ==> directions[b] == Choose(same, base, lines, i, b))
  }

  lemma {:induction false} LcsStep(same: Same, base: seq<Lost>, lines: seq<Lost>, i: nat, j: nat, left: nat, up: nat,
                                   diagonal: nat)
    requires 0 < i <= |base| && 0 < j <= |lines|
    requires left == Lcs(same, base, lines, i, j - 1) && up == Lcs(same, base, lines, i - 1, j)
    requires diagonal == Lcs(same, base, lines, i - 1, j - 1)
    ensures Lcs(same, base, lines, i, j) ==
            if same(base[i - 1].text, lines[j - 1].text) then diagonal + 1 else if left >= up then left else up
    ensures Choose(same, base, lines, i, j) ==
            if same(base[i - 1].text, lines[j - 1].text) then MATCH else if left >= up then NEW else BASE
  {
  }

  /** The inner loop that fills the tables. */
  method FillRow(same: Same, base: seq<Lost>, lines: seq<Lost>, i: nat, above: seq<nat>)
    returns (lcs: seq<nat>, directions: seq<Direction>)
    requires 0 < i <= |base| && |above| == |lines| + 1
    requires forall b :: 0 <= b <= |lines| ==> above[b] == Lcs(same, base, lines, i - 1, b)
    ensures Row(same, base, lines, i, |lines| + 1, lcs, directions)
  {
    lcs, directions := [0], [BASE];
    for j := 1 to |lines| + 1
      invariant Row(same, base, lines, i, j, lcs, directions)
    {
      LcsStep(same, base, lines, i, j, lcs[j - 1], above[j], above[j - 1]);
      if same(base[i - 1].text, lines[j - 1].text) {
        lcs, directions := lcs + [above[j - 1] + 1], directions + [MATCH];
      } else if lcs[j - 1] >= above[j] {
        lcs, directions := lcs + [lcs[j - 1]], directions + [NEW];
      } else {
        lcs, directions := lcs + [above[j]], directions + [BASE];
      }
    }
  }

  /** Every direction of coalesce_lines is the one `Choose` gives. */
  ghost predicate Directed(same: Same, base: seq<Lost>, lines: seq<Lost>, directions: seq<seq<Direction>>, rows: nat) {
    && |directions| == rows <= |base| + 1
    && forall i :: 0 <= i < rows ==> RowDirected(same, base, lines, directions[i], i)
  }

  ghost predicate RowDirected(same: Same, base: seq<Lost>, lines: seq<Lost>, directions: seq<Direction>, i: nat) {
    i <= |base| && |directions| == |lines| + 1 && forall j :: 0 <= j <= |lines| ==>
      directions[j] == Choose(same, base, lines, i, j)
  }

  /** The tables of coalesce_lines. */
  method FillTables(same: Same, base: seq<Lost>, lines: seq<Lost>) returns (directions: seq<seq<Direction>>)
    ensures Directed(same, base, lines, directions, |base| + 1)
  {
    var above: seq<nat> := seq(|lines| + 1, _ => 0);
    directions := [seq(|lines| + 1, j => if j == 0 then BASE else NEW)];
    for i := 1 to |base| + 1
      invariant |above| == |lines| + 1 && forall b :: 0 <= b <= |lines| ==> above[b] == Lcs(same, base, lines, i - 1, b)
      invariant Directed(same, base, lines, directions, i)
    {
      var row;
      above, row := FillRow(same, base, lines, i, above);
      DirectedMore(same, base, lines, directions, i, row);
      directions := directions + [row];
    }
  }

  lemma {:induction false} DirectedMore(same: Same, base: seq<Lost>, lines: seq<Lost>,
                                        directions: seq<seq<Direction>>, i: nat, row: seq<Direction>)
    requires Directed(same, base, lines, directions, i) && i <= |base| && RowDirected(same, base, lines, row, i)
    ensures Directed(same, base, lines, directions + [row], i + 1)
  {
  }

  /** One step back moves the line it settles from the rest of the list to its tail. */
  lemma {:induction false} MergedStep(same: Same, base: seq<Lost>, lines: seq<Lost>, mask: set<nat>, i: nat, j: nat,
                                      i': nat, j': nat, tail: seq<Lost>, all: seq<Lost>)
    requires i <= |base| && j <= |lines| && (i > 0 || j > 0)
    requires all == Merged(same, base, lines, mask, i, j) + tail
    requires i' == if Choose(same, base, lines, i, j) == NEW then i else i - 1
    requires j' == if Choose(same, base, lines, i, j) == BASE then j else j - 1
    ensures all == Merged(same, base, lines, mask, i', j') + ([Settled(same, base, lines, mask, i, j)] + tail)
  {
    MergedLast(same, base, lines, mask, i, j, i', j');
  }

  /** What is done at (i, j), and where it leads. */
  method StepBack(same: Same, base: seq<Lost>, lines: seq<Lost>, mask: set<nat>, d: Direction, i: nat, j: nat)
    returns (l: Lost, i': nat, j': nat)
    requires i <= |base| && j <= |lines| && (i > 0 || j > 0) && d == Choose(same, base, lines, i, j)
    ensures l == Settled(same, base, lines, mask, i, j)
    ensures i' == (if d == NEW then i else i - 1) && j' == (if d == BASE then j else j - 1)
  {
    match d
    case MATCH => return Joined(base[i - 1], mask), i - 1, j - 1;
    case NEW => return lines[j - 1], i, j - 1;
    case BASE => return base[i - 1], i - 1, j;
  }

  /** The backward pass of coalesce_lines; `merged` is the part of the list it has settled. */
  method FollowBack(same: Same, base: seq<Lost>, lines: seq<Lost>, mask: set<nat>, directions: seq<seq<Direction>>)
    returns (merged: seq<Lost>)
    requires Directed(same, base, lines, directions, |base| + 1)
    ensures merged == Merged(same, base, lines, mask, |base|, |lines|)
  {
    var i: nat, j: nat := |base|, |lines|;
    merged := [];
    ghost var all := Merged(same, base, lines, mask, i, j);
    while i != 0 || j != 0
      invariant i <= |base| && j <= |lines| && all == Merged(same, base, lines, mask, i, j) + merged
      decreases i + j
    {
      assert RowDirected(same, base, lines, directions[i], i);
      var l, i', j' := StepBack(same, base, lines, mask, directions[i][j], i, j);
      MergedStep(same, base, lines, mask, i, j, i', j', merged, all);
      i, j, merged := i', j', [l] + merged;
    }
  }

  /** coalesce_lines */
  method CoalesceLines(same: Same, base: seq<Lost>, lines: seq<Lost>, n: nat) returns (merged: seq<Lost>)
    requires OnlyFrom(lines, n)
    ensures merged == Merged(same, base, lines, MatchBits(n), |base|, |lines|)
  {
    var mask := MatchBits(n);
    if lines == [] {
      OnlyBase(same, base, lines, mask, |base|);
      return base;
    }
    if base == [] {
      OnlyNew(same, base, lines, mask, |lines|);
      return lines;
    }
    var directions := FillTables(same, base, lines);
    merged := FollowBack(same, base, lines, mask, directions);
  }

  lemma {:induction false} OnlyBase(same: Same, base: seq<Lost>, lines: seq<Lost>, mask: set<nat>, i: nat)
    requires i <= |base|
    ensures Merged(same, base, lines, mask, i, 0) == base[..i]
    ensures i == |base| ==> base[..i] == base
  {
    if i > 0 { OnlyBase(same, base, lines, mask, i - 1); }
  }

  lemma {:induction false} OnlyNew(same: Same, base: seq<Lost>, lines: seq<Lost>, mask: set<nat>, j: nat)
    requires j <= |lines|
    ensures Merged(same, base, lines, mask, 0, j) == lines[..j]
    ensures j == |lines| ==> lines[..j] == lines
  {
    if j > 0 { OnlyNew(same, base, lines, mask, j - 1); }
  }
}
