/** Critical bits of fixed-length byte strings.

A position is a byte index and `otherbits`, a byte with every bit set but the critical one, so
that a higher bit has smaller `otherbits`. */
module CritBit {

  type Key = seq<bv8>

  predicate IsMask(o: bv8) {
    o == 254 || o == 253 || o == 251 || o == 247 || o == 239 || o == 223 || o == 191 || o == 127
  }

  /** The critical bit of byte `c`: (1 + (otherbits | c)) >> 8. */
  function Direction(o: bv8, c: bv8): bv16 {
    (1 + ((o | c) as bv16)) >> 8
  }

  lemma {:induction false} DirectionIsBit(o: bv8, c: bv8)
    ensures Direction(o, c) == if o | c == 255 then 1 else 0
  {
  }

  /** The critical bit of the first difference, as cb_insert computes it. */
  function OtherBits(a: bv8, b: bv8): bv8 {
    var x := a ^ b;
    var y := x | (x >> 1);
    var z := y | (y >> 2);
    var w := z | (z >> 4);
    (w & !(w >> 1)) ^ 255
  }

  /** `a` and `b` agree in the bits above the critical one. */
  predicate AgreeAbove(o: bv8, a: bv8, b: bv8) {
    var m := o ^ 255;
    (a ^ b) & !(m | (m - 1)) == 0
  }

  lemma {:induction false} OtherBitsRight(a: bv8, b: bv8)
    requires a != b
    ensures IsMask(OtherBits(a, b)) && AgreeAbove(OtherBits(a, b), a, b)
    ensures Direction(OtherBits(a, b), a) != Direction(OtherBits(a, b), b)
    ensures Direction(OtherBits(a, b), a) == 0 <==> a < b
  {
  }

  lemma {:induction false} AgreeAboveTrans(o: bv8, a: bv8, b: bv8, c: bv8)
    requires AgreeAbove(o, a, b) && AgreeAbove(o, b, c)
    ensures AgreeAbove(o, a, c) && AgreeAbove(o, b, a)
  {
  }

  /** Agreement above a lower bit is agreement at and above every higher bit. */
  lemma {:induction false} AgreeHigher(o: bv8, o': bv8, a: bv8, b: bv8)
    requires IsMask(o) && IsMask(o') && o < o' && AgreeAbove(o', a, b)
    ensures AgreeAbove(o, a, b) && Direction(o, a) == Direction(o, b)
  {
  }

  lemma {:induction false} DirectionOrders(o: bv8, a: bv8, b: bv8)
    requires IsMask(o) && AgreeAbove(o, a, b) && Direction(o, a) == 0 && Direction(o, b) == 1
    ensures a < b
  {
  }

  /** A byte without the bit is less than one with it. */
  lemma {:induction false} ByteOrders(o: bv8, a: bv8, b: bv8)
    requires IsMask(o) && AgreeAbove(o, a, b) && Direction(o, a) != 1 && Direction(o, b) == 1
    ensures a < b
  {
    DirectionIsBit(o, a);
    DirectionOrders(o, a, b);
  }

  lemma {:induction false} AllBitsAgree(o: bv8, a: bv8)
    ensures AgreeAbove(o, a, a)
  {
  }
}
