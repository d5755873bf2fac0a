/** Blame entries and the lines they stand for. */
module BlameLines {

  datatype Owner = Target | Parent

  /** struct blame_entry: `num` lines from `lno` of the final image are suspected to come from the
      lines from `sLno` of the owner. */
  datatype Entry = Entry(lno: int, num: int, owner: Owner, sLno: int, ignored: bool, unblamable: bool)

  /** A line of the final image and the line of the owner it is suspected to be. */
  datatype Claim = Claim(line: int, owner: Owner, at: int)

  type Route = Claim -> Claim

  function LineOf(e: Entry, i: int): Claim { Claim(e.lno + i, e.owner, e.sLno + i) }

  /** How many of the first `n` lines of an entry go to `c` under `f`. */
  function CountTo(e: Entry, n: int, f: Route, c: Claim): int {
    if n <= 0 then 0 else CountTo(e, n - 1, f, c) + if f(LineOf(e, n - 1)) == c then 1 else 0
  }

  function Count(e: Entry, f: Route, c: Claim): int { CountTo(e, e.num, f, c) }

  /** How many lines of the first `n` entries go to `c` under `f`. */
  function CountFirst(es: seq<Entry>, n: nat, f: Route, c: Claim): int
    requires n <= |es|
  {
    if n == 0 then 0 else CountFirst(es, n - 1, f, c) + Count(es[n - 1], f, c)
  }

  function CountAll(es: seq<Entry>, f: Route, c: Claim): int { CountFirst(es, |es|, f, c) }

  /** The lines of entries as they are. */
  function Same(): Route { c => c }

  function All(es: seq<Entry>, c: Claim): int { CountAll(es, Same(), c) }

  ghost predicate Proper(es: seq<Entry>) {
    forall i :: 0 <= i < |es| ==> es[i].num > 0 && es[i].owner == Target
  }

  ghost predicate NotAfter(d: Entry, e: Entry) { d.sLno <= e.sLno }

  ghost predicate Ordered(es: seq<Entry>) {
    forall i, j {:trigger NotAfter(es[i], es[j])} :: 0 <= i < j < |es| ==> NotAfter(es[i], es[j])
  }

  lemma {:induction false} OrderedAround(es: seq<Entry>, i: nat)
    requires Ordered(es) && i < |es|
    ensures forall k :: 0 <= k <= i ==> es[k].sLno <= es[i].sLno
    ensures forall k :: i <= k < |es| ==> es[i].sLno <= es[k].sLno
  {
    forall k | 0 <= k <= i ensures es[k].sLno <= es[i].sLno { assert k < i ==> NotAfter(es[k], es[i]); }
    forall k | i <= k < |es| ensures es[i].sLno <= es[k].sLno { assert i < k ==> NotAfter(es[i], es[k]); }
  }

  lemma {:induction false} CountDepends(s: seq<Entry>, t: seq<Entry>, n: nat, f: Route, c: Claim)
    requires n <= |s| && n <= |t| && forall k :: 0 <= k < n ==> s[k] == t[k]
    ensures CountFirst(s, n, f, c) == CountFirst(t, n, f, c)
  {
    if n > 0 { CountDepends(s, t, n - 1, f, c); }
  }

  lemma {:induction false} CountAppend(s: seq<Entry>, t: seq<Entry>, n: nat, f: Route, c: Claim)
    requires n <= |t|
    ensures CountFirst(s + t, |s| + n, f, c) == CountAll(s, f, c) + CountFirst(t, n, f, c)
  {
    if n == 0 {
      CountDepends(s + t, s, |s|, f, c);
    } else {
      CountAppend(s, t, n - 1, f, c);
      assert (s + t)[|s| + n - 1] == t[n - 1];
    }
  }

  lemma {:induction false} CountJoin(s: seq<Entry>, t: seq<Entry>, f: Route, c: Claim)
    ensures CountAll(s + t, f, c) == CountAll(s, f, c) + CountAll(t, f, c)
  {
    CountAppend(s, t, |t|, f, c);
  }

  lemma {:induction false} CountOne(e: Entry, f: Route, c: Claim)
    ensures CountAll([e], f, c) == Count(e, f, c)
  {
    assert CountFirst([e], 0, f, c) == 0;
  }

  lemma {:induction false} CountSuffix(es: seq<Entry>, i: nat, f: Route, c: Claim)
    requires i <= |es|
    ensures CountAll(es, f, c) == CountFirst(es, i, f, c) + CountAll(es[i..], f, c)
  {
    assert es == es[..i] + es[i..];
    CountJoin(es[..i], es[i..], f, c);
    CountDepends(es, es[..i], i, f, c);
  }

  /** split_blame_at, the part that stays and the part split off. */
  function Head(e: Entry, len: int): Entry { e.(num := len) }
  function Tail(e: Entry, len: int): Entry { e.(lno := e.lno + len, sLno := e.sLno + len, num := e.num - len) }

  /** Entries whose lines go to the same places. */
  lemma {:induction false} CountAlike(e: Entry, e': Entry, f: Route, g: Route, n: int, c: Claim)
    requires forall i :: 0 <= i < n ==> f(LineOf(e, i)) == g(LineOf(e', i))
    ensures CountTo(e, n, f, c) == CountTo(e', n, g, c)
  {
    if n > 0 { CountAlike(e, e', f, g, n - 1, c); }
  }

  lemma {:induction false} SplitTo(e: Entry, len: int, n: int, f: Route, c: Claim)
    requires 0 <= len && 0 <= n
    ensures CountTo(e, len + n, f, c) == CountTo(e, len, f, c) + CountTo(Tail(e, len), n, f, c)
  {
    if n > 0 {
      SplitTo(e, len, n - 1, f, c);
      assert LineOf(e, len + n - 1) == LineOf(Tail(e, len), n - 1);
    }
  }

  /** Splitting an entry loses and doubles no line. */
  lemma {:induction false} SplitConserves(e: Entry, len: int, f: Route, c: Claim)
    requires 0 <= len <= e.num
    ensures Count(e, f, c) == Count(Head(e, len), f, c) + Count(Tail(e, len), f, c)
  {
    SplitTo(e, len, e.num - len, f, c);
    CountAlike(e, Head(e, len), f, f, len, c);
  }
}
