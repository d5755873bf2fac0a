/** The crit-bit tree as a value: its invariant, and what search, insertion and prefix walks
mean for the set of keys. */
module CritBitTree {
  import opened CritBit
  import Bytes

  /** A position in a key. */
  datatype Pos = Pos(byte: nat, otherbits: bv8)

  predicate Lower(p: Pos, q: Pos) {
    p.byte < q.byte || (p.byte == q.byte && p.otherbits < q.otherbits)
  }

  /** The critical bit of key `k` at `p`; bytes past the end count as zero. */
  predicate Bit(k: Key, p: Pos) {
    Direction(p.otherbits, if p.byte < |k| then k[p.byte] else 0) == 1
  }

  /** Two keys agree in all bits before `p`. */
  ghost predicate AgreeBefore(k: Key, l: Key, p: Pos) {
    && |k| == |l| && p.byte < |k| && IsMask(p.otherbits)
    && (forall i :: 0 <= i < p.byte ==> k[i] == l[i])
    && AgreeAbove(p.otherbits, k[p.byte], l[p.byte])
  }

  lemma {:induction false} AgreeTrans(k: Key, l: Key, m: Key, p: Pos)
    requires AgreeBefore(k, l, p) && AgreeBefore(l, m, p)
    ensures AgreeBefore(k, m, p)
  {
    AgreeAboveTrans(p.otherbits, k[p.byte], l[p.byte], m[p.byte]);
  }

  lemma {:induction false} AgreeSym(k: Key, l: Key, p: Pos)
    requires AgreeBefore(k, l, p)
    ensures AgreeBefore(l, k, p)
  {
    AllBitsAgree(p.otherbits, l[p.byte]);
    AgreeAboveTrans(p.otherbits, k[p.byte], l[p.byte], l[p.byte]);
  }

  lemma {:induction false} LowerTotal(p: Pos, q: Pos)
    ensures Lower(p, q) || p == q || Lower(q, p)
  {
  }

  lemma {:induction false} AgreeSelf(k: Key, p: Pos)
    requires p.byte < |k| && IsMask(p.otherbits)
    ensures AgreeBefore(k, k, p)
  {
    AllBitsAgree(p.otherbits, k[p.byte]);
  }

  lemma {:induction false} AgreeEarlier(k: Key, l: Key, p: Pos, q: Pos)
    requires AgreeBefore(k, l, q) && Lower(p, q) && IsMask(p.otherbits)
    ensures AgreeBefore(k, l, p) && Bit(k, p) == Bit(l, p)
  {
    if p.byte < q.byte {
      AllBitsAgree(p.otherbits, k[p.byte]);
    } else {
      AgreeHigher(p.otherbits, q.otherbits, k[p.byte], l[p.byte]);
    }
  }

  /** Where two keys first differ. */
  ghost predicate FirstDifference(k: Key, l: Key, d: Pos) {
    AgreeBefore(k, l, d) && Bit(k, d) != Bit(l, d)
  }

  lemma {:induction false} FoundDifference(k: Key, l: Key, i: nat)
    requires |k| == |l| && i < |k| && (forall j :: 0 <= j < i ==> k[j] == l[j]) && k[i] != l[i]
    ensures FirstDifference(l, k, Pos(i, OtherBits(k[i], l[i])))
  {
    OtherBitsRight(k[i], l[i]);
    DirectionIsBit(OtherBits(k[i], l[i]), k[i]);
    DirectionIsBit(OtherBits(k[i], l[i]), l[i]);
    AgreeAboveTrans(OtherBits(k[i], l[i]), k[i], l[i], l[i]) by { AllBitsAgree(OtherBits(k[i], l[i]), l[i]); }
  }

  /** The order of memcmp on keys of one length. */
  ghost predicate KeyBefore(k: Key, l: Key) {
    exists i :: 0 <= i < |k| && i < |l| && k[i] < l[i] && forall j :: 0 <= j < i ==> k[j] == l[j]
  }

  lemma {:induction false} BitOrders(k: Key, l: Key, p: Pos)
    requires AgreeBefore(k, l, p) && !Bit(k, p) && Bit(l, p)
    ensures KeyBefore(k, l)
  {
    ByteOrders(p.otherbits, k[p.byte], l[p.byte]);
  }

  datatype Tree = Leaf(key: Key) | Inner(pos: Pos, left: Tree, right: Tree)

  /** The keys from left to right. */
  function Keys(t: Tree): seq<Key> {
    match t
    case Leaf(k) => [k]
    case Inner(_, l, r) => Keys(l) + Keys(r)
  }

  /** Positions increase on every path, a subtree's keys agree before its position, and the bit
      there says left or right. */
  ghost predicate Wf(t: Tree, n: nat) {
    match t
    case Leaf(k) => |k| == n
    case Inner(p, l, r) =>
      && p.byte < n && IsMask(p.otherbits) && Wf(l, n) && Wf(r, n)
      && (l.Inner? ==> Lower(p, l.pos)) && (r.Inner? ==> Lower(p, r.pos))
      && (forall k :: k in Keys(l) ==> !Bit(k, p)) && (forall k :: k in Keys(r) ==> Bit(k, p))
      && (forall k, m :: k in Keys(t) && m in Keys(t) ==> AgreeBefore(k, m, p))
  }

  function Child(t: Tree, k: Key): Tree
    requires t.Inner?
  {
    if Bit(k, t.pos) then t.right else t.left
  }

  /** cb_internal_best_match */
  function BestMatch(t: Tree, k: Key): Key {
    if t.Leaf? then t.key else BestMatch(Child(t, k), k)
  }

  lemma {:induction false} BestMatchIsKey(t: Tree, k: Key)
    ensures BestMatch(t, k) in Keys(t)
  {
    if t.Inner? { BestMatchIsKey(Child(t, k), k); }
  }

  /** cb_lookup: a key is found exactly if it is stored. */
  lemma {:induction false} LookupFinds(t: Tree, k: Key, n: nat)
    requires Wf(t, n)
    ensures BestMatch(t, k) == k <==> k in Keys(t)
  {
    BestMatchIsKey(t, k);
    if t.Inner? {
      LookupFinds(Child(t, k), k, n);
    }
  }

  /** A node for `k` above `t`, critical at `d`. */
  function Join(t: Tree, k: Key, d: Pos): Tree {
    if Bit(k, d) then Inner(d, t, Leaf(k)) else Inner(d, Leaf(k), t)
  }

  /** The tree after cb_insert, for a key that first differs at `d` from its best match. */
  function Inserted(t: Tree, k: Key, d: Pos): Tree {
    if t.Leaf? || Lower(d, t.pos) then Join(t, k, d)
    else if Bit(k, t.pos) then Inner(t.pos, t.left, Inserted(t.right, k, d))
    else Inner(t.pos, Inserted(t.left, k, d), t.right)
  }

  lemma {:induction false} InsertedKeys(t: Tree, k: Key, d: Pos, x: Key)
    ensures x in Keys(Inserted(t, k, d)) <==> x in Keys(t) || x == k
  {
    if t.Inner? && !Lower(d, t.pos) {
      InsertedKeys(Child(t, k), k, d, x);
    }
  }

  lemma {:induction false} KeysHaveLength(t: Tree, n: nat, x: Key)
    requires Wf(t, n) && x in Keys(t)
    ensures |x| == n
  {
    if t.Inner? {
      if x in Keys(t.left) { KeysHaveLength(t.left, n, x); } else { KeysHaveLength(t.right, n, x); }
    }
  }

  /** Above the place of insertion: the new key agrees with all keys. */
  lemma {:induction false} AgreesAbove(t: Tree, k: Key, d: Pos, n: nat, x: Key)
    requires Wf(t, n) && t.Inner? && |k| == n && FirstDifference(k, BestMatch(t, k), d)
    requires !Lower(d, t.pos) && x in Keys(t)
    ensures Lower(t.pos, d) && AgreeBefore(x, k, t.pos) && AgreeBefore(k, x, t.pos)
  {
    var p := BestMatch(t, k);
    BestMatchSide(t, k, n);
    LowerTotal(t.pos, d);
    AgreeEarlier(k, p, t.pos, d);
    AgreeTrans(k, p, x, t.pos);
    AgreeSym(k, x, t.pos);
  }

  lemma {:induction false} BestMatchSide(t: Tree, k: Key, n: nat)
    requires Wf(t, n) && t.Inner?
    ensures BestMatch(t, k) in Keys(t) && Bit(BestMatch(t, k), t.pos) == Bit(k, t.pos)
  {
    BestMatchIsKey(t, k);
    BestMatchIsKey(Child(t, k), k);
  }

  /** At the place of insertion: all keys below have the bit of the best match. */
  lemma {:induction false} AgreesBelow(t: Tree, k: Key, d: Pos, n: nat, x: Key)
    requires Wf(t, n) && |k| == n && FirstDifference(k, BestMatch(t, k), d)
    requires (t.Leaf? || Lower(d, t.pos)) && x in Keys(t)
    ensures AgreeBefore(x, k, d) && AgreeBefore(k, x, d) && Bit(x, d) != Bit(k, d)
  {
    var p := BestMatch(t, k);
    BestMatchIsKey(t, k);
    if t.Inner? {
      assert AgreeBefore(p, x, t.pos);
      AgreeEarlier(p, x, d, t.pos);
    } else {
      AgreeSelf(p, d);
    }
    AgreeTrans(k, p, x, d);
    AgreeSym(k, x, d);
  }

  lemma {:induction false} LeafWf(k: Key, n: nat)
    requires |k| == n
    ensures Wf(Leaf(k), n) && Keys(Leaf(k)) == [k]
  {
  }

  /** The new node above its place. */
  lemma {:induction false} JoinWf(t: Tree, k: Key, d: Pos, n: nat)
    requires Wf(t, n) && |k| == n && FirstDifference(k, BestMatch(t, k), d) && (t.Leaf? || Lower(d, t.pos))
    ensures Wf(Join(t, k, d), n)
  {
    var j := Join(t, k, d);
    AgreeSelf(k, d);
    LeafWf(k, n);
    forall x | x in Keys(t) ensures AgreeBefore(x, k, d) && AgreeBefore(k, x, d) && Bit(x, d) != Bit(k, d) {
      AgreesBelow(t, k, d, n, x);
    }
    forall x, y | x in Keys(j) && y in Keys(j) ensures AgreeBefore(x, y, d) {
      if x != k && y != k { AgreeTrans(x, k, y, d); }
    }
  }

  /** cb_insert keeps the tree's shape. */
  lemma {:induction false} InsertedWf(t: Tree, k: Key, d: Pos, n: nat)
    requires Wf(t, n) && |k| == n && FirstDifference(k, BestMatch(t, k), d)
    ensures Wf(Inserted(t, k, d), n)
  {
    if t.Leaf? || Lower(d, t.pos) {
      JoinWf(t, k, d, n);
    } else {
      var c := Child(t, k);
      InsertedWf(c, k, d, n);
      var c', t' := Inserted(c, k, d), Inserted(t, k, d);
      BestMatchIsKey(t, k);
      AgreesAbove(t, k, d, n, BestMatch(t, k));
      assert c'.Inner? && (c'.pos == d || (c.Inner? && c'.pos == c.pos));
      forall x | x in Keys(t') ensures x in Keys(t) || x == k { InsertedKeys(t, k, d, x); }
      forall x | x in Keys(c') ensures Bit(x, t.pos) == Bit(k, t.pos) { InsertedKeys(c, k, d, x); }
      InsertedAgree(t, k, d, n);
    }
  }

  lemma {:induction false} InsertedAgree(t: Tree, k: Key, d: Pos, n: nat)
    requires Wf(t, n) && t.Inner? && |k| == n && FirstDifference(k, BestMatch(t, k), d) && !Lower(d, t.pos)
    ensures forall x, y :: x in Keys(Inserted(t, k, d)) && y in Keys(Inserted(t, k, d)) ==> AgreeBefore(x, y, t.pos)
  {
    AgreeSelf(k, t.pos);
    forall x, y | x in Keys(Inserted(t, k, d)) && y in Keys(Inserted(t, k, d)) ensures AgreeBefore(x, y, t.pos) {
      InsertedKeys(t, k, d, x);
      InsertedKeys(t, k, d, y);
      if x != k { AgreesAbove(t, k, d, n, x); }
      if y != k { AgreesAbove(t, k, d, n, y); }
    }
  }

  ghost predicate Ascending(ks: seq<Key>) {
    forall i, j :: 0 <= i < j < |ks| ==> KeyBefore(ks[i], ks[j])
  }

  /** In-order is byte order, so every key is there once. */
  lemma {:induction false} KeysAscend(t: Tree, n: nat)
    requires Wf(t, n)
    ensures Ascending(Keys(t))
  {
    if t.Inner? {
      KeysAscend(t.left, n);
      KeysAscend(t.right, n);
      var l, ks := Keys(t.left), Keys(t);
      forall i, j | 0 <= i < j < |ks| ensures KeyBefore(ks[i], ks[j]) {
        if i < |l| <= j {
          assert ks[i] in Keys(t.left) && ks[j] in Keys(t.right) && ks[i] in ks && ks[j] in ks;
          BitOrders(ks[i], ks[j], t.pos);
        } else if j < |l| {
          assert ks[i] == l[i] && ks[j] == l[j];
        } else {
          assert ks[i] == Keys(t.right)[i - |l|] && ks[j] == Keys(t.right)[j - |l|];
        }
      }
    }
  }

  function WithPrefix(ks: seq<Key>, f: Key): seq<Key> {
    if ks == [] then [] else (if Bytes.HasPrefix(ks[0], f) then [ks[0]] else []) + WithPrefix(ks[1..], f)
  }

  lemma {:induction false} WithPrefixAppend(s: seq<Key>, t: seq<Key>, f: Key)
    ensures WithPrefix(s + t, f) == WithPrefix(s, f) + WithPrefix(t, f)
  {
    if s == [] {
      assert s + t == t;
    } else {
      assert (s + t)[1..] == s[1..] + t;
      WithPrefixAppend(s[1..], t, f);
    }
  }

  lemma {:induction false} AllOrNoneHavePrefix(ks: seq<Key>, f: Key, all: bool)
    requires forall k :: k in ks ==> Bytes.HasPrefix(k, f) == all
    ensures WithPrefix(ks, f) == if all then ks else []
  {
    if ks != [] { AllOrNoneHavePrefix(ks[1..], f, all); }
  }

  /** The subtree whose keys share the prefix with the best match. */
  function PrefixTop(t: Tree, f: Key): Tree {
    if t.Leaf? || t.pos.byte >= |f| then t else PrefixTop(Child(t, f), f)
  }

  lemma {:induction false} OtherSideLacksPrefix(x: Key, f: Key, p: Pos)
    requires p.byte < |f| && Bit(x, p) != Bit(f, p)
    ensures !Bytes.HasPrefix(x, f)
  {
    assert Bytes.HasPrefix(x, f) ==> forall i :: 0 <= i < |f| ==> x[i] == x[..|f|][i];
  }

  /** Keys of the top agree with the best match on the prefix. */
  lemma {:induction false} TopAgrees(t: Tree, f: Key, n: nat, x: Key)
    requires Wf(t, n) && (t.Leaf? || t.pos.byte >= |f|) && x in Keys(t) && |f| <= n
    ensures Bytes.HasPrefix(x, f) <==> Bytes.HasPrefix(BestMatch(t, f), f)
  {
    var p := BestMatch(t, f);
    BestMatchIsKey(t, f);
    if t.Inner? {
      assert AgreeBefore(x, p, t.pos);
      assert x[..|f|] == p[..|f|];
    }
  }

  /** cb_each visits exactly the keys with the prefix, in order: those below the top, if the best
      match has the prefix, and otherwise there are none. */
  lemma {:induction false} PrefixKeys(t: Tree, f: Key, n: nat)
    requires Wf(t, n) && |f| <= n
    ensures WithPrefix(Keys(t), f) == if Bytes.HasPrefix(BestMatch(t, f), f) then Keys(PrefixTop(t, f)) else []
  {
    if t.Leaf? || t.pos.byte >= |f| {
      forall x | x in Keys(t) ensures Bytes.HasPrefix(x, f) == Bytes.HasPrefix(BestMatch(t, f), f) {
        TopAgrees(t, f, n, x);
      }
      AllOrNoneHavePrefix(Keys(t), f, Bytes.HasPrefix(BestMatch(t, f), f));
    } else {
      PrefixKeys(Child(t, f), f, n);
      WithPrefixAppend(Keys(t.left), Keys(t.right), f);
      var other := if Bit(f, t.pos) then t.left else t.right;
      forall x | x in Keys(other) ensures Bytes.HasPrefix(x, f) == false { OtherSideLacksPrefix(x, f, t.pos); }
      AllOrNoneHavePrefix(Keys(other), f, false);
    }
  }
}
