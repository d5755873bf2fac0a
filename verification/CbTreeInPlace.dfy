/** The crit-bit tree in place (cb_insert, cb_lookup, cb_each): nodes supplied by the caller, each
of them a leaf and, above it, at most one inner node; a tagged reference says which is meant. */
module CbTreeInPlace {
  import opened CritBit
  import opened CritBitTree
  import opened Options

  class Node {
    const k: Key
    var byte: nat
    var otherbits: bv8
    var child0: Ptr
    var child1: Ptr

    constructor (k: Key)
      ensures this.k == k
    {
      this.k := k;
      byte, otherbits, child0, child1 := 0, 0, Null, Null;
    }

    function Pos(): Pos
      reads this
    {
      CritBitTree.Pos(byte, otherbits)
    }

    /** The direction of key `k` at this node: (1 + (otherbits | c)) >> 8. */
    function Takes(k: Key): (right: bool)
      reads this
      ensures right == Bit(k, Pos())
    {
      var c := if byte < |k| then k[byte] else 0;
      Direction(otherbits, c) == 1
    }

    function Child(right: bool): Ptr
      reads this
    {
      if right then child1 else child0
    }
  }

  datatype Ptr = Null | LeafPtr(node: Node) | InnerPtr(node: Node)

  /** The tree with its nodes. */
  datatype Shape = LeafOf(node: Node) | InnerOf(node: Node, pos: Pos, left: Shape, right: Shape)

  /** The nodes in their inner role. */
  function Inners(g: Shape): set<Node> {
    match g
    case LeafOf(_) => {}
    case InnerOf(n, _, l, r) => {n} + Inners(l) + Inners(r)
  }

  ghost predicate Distinct(g: Shape) {
    match g
    case LeafOf(_) => true
    case InnerOf(n, _, l, r) =>
      && n !in Inners(l) && n !in Inners(r) && Inners(l) !! Inners(r)
      && Distinct(l) && Distinct(r)
  }

  function Value(g: Shape): Tree {
    match g
    case LeafOf(n) => Leaf(n.k)
    case InnerOf(_, p, l, r) => Inner(p, Value(l), Value(r))
  }

  /** What a node holds in its inner role. */
  datatype Fields = Fields(pos: Pos, child0: Ptr, child1: Ptr) {
    function Child(right: bool): Ptr { if right then child1 else child0 }
  }

  type Memory = map<Node, Fields>

  /** The nodes hold what the memory says. */
  ghost predicate Mirrors(m: Memory)
    reads m.Keys
  {
    forall n :: n in m ==> m[n] == Fields(n.Pos(), n.child0, n.child1)
  }

  /** Reference `p` leads to the nodes of `g`, and their fields say what `g` says. */
  ghost predicate Shows(m: Memory, p: Ptr, g: Shape)
    decreases g
  {
    match g
    case LeafOf(n) => p == LeafPtr(n)
    case InnerOf(n, pos, l, r) =>
      && p == InnerPtr(n) && n in m && m[n].pos == pos
      && Shows(m, m[n].child0, l) && Shows(m, m[n].child1, r)
  }

  /** The direction a key takes at each position. */
  type Directions = Pos -> bool

  ghost predicate GoesBy(goes: Directions, k: Key) {
    forall p {:trigger Bit(k, p)} :: goes(p) == Bit(k, p)
  }

  function Below(g: Shape, goes: Directions): Shape
    requires g.InnerOf?
  {
    if goes(g.pos) then g.right else g.left
  }

  /** cb_internal_best_match */
  method InternalBestMatch(p0: Ptr, k: Key, ghost m: Memory, ghost g0: Shape) returns (p: Ptr)
    requires Mirrors(m) && Shows(m, p0, g0)
    ensures p.LeafPtr? && p.node.k == BestMatch(Value(g0), k)
  {
    p := p0;
    ghost var g := g0;
    while p.InnerPtr?
      invariant Shows(m, p, g) && BestMatch(Value(g), k) == BestMatch(Value(g0), k)
      decreases g
    {
      var q := p.node;
      p := q.Child(q.Takes(k));
      g := if Bit(k, g.pos) then g.right else g.left;
    }
  }

  /** Where a reference is stored. */
  datatype Where = AtRoot | AtChild(node: Node, right: bool)

  /** The place cb_insert writes to, for a subtree whose reference is stored at `from`. */
  function Hole(g: Shape, from: Where, goes: Directions, d: Pos): Where {
    if g.LeafOf? || Lower(d, g.pos) then from else Hole(Below(g, goes), AtChild(g.node, goes(g.pos)), goes, d)
  }

  function JoinShape(g: Shape, node: Node, d: Pos, goes: Directions): Shape {
    if goes(d) then InnerOf(node, d, g, LeafOf(node)) else InnerOf(node, d, LeafOf(node), g)
  }

  /** The shape after inserting `node`. */
  function InsertedShape(g: Shape, node: Node, d: Pos, goes: Directions): Shape {
    if g.LeafOf? || Lower(d, g.pos) then JoinShape(g, node, d, goes)
    else if goes(g.pos) then InnerOf(g.node, g.pos, g.left, InsertedShape(g.right, node, d, goes))
    else InnerOf(g.node, g.pos, InsertedShape(g.left, node, d, goes), g.right)
  }

  lemma {:induction false} InsertedShapeFacts(g: Shape, node: Node, d: Pos, goes: Directions)
    requires Distinct(g) && node !in Inners(g) && GoesBy(goes, node.k)
    ensures Value(InsertedShape(g, node, d, goes)) == Inserted(Value(g), node.k, d)
    ensures Inners(InsertedShape(g, node, d, goes)) == Inners(g) + {node} && Distinct(InsertedShape(g, node, d, goes))
  {
    if g.InnerOf? && !Lower(d, g.pos) {
      assert goes(g.pos) == Bit(node.k, g.pos);
      InsertedShapeFacts(Below(g, goes), node, d, goes);
    } else {
      assert goes(d) == Bit(node.k, d);
    }
  }

  lemma {:induction false} HoleInside(g: Shape, from: Where, goes: Directions, d: Pos)
    ensures Hole(g, from, goes, d) == from
            || (Hole(g, from, goes, d).AtChild? && Hole(g, from, goes, d).node in Inners(g))
  {
    if g.InnerOf? && !Lower(d, g.pos) {
      HoleInside(Below(g, goes), AtChild(g.node, goes(g.pos)), goes, d);
    }
  }

  /** Two memories that agree on the nodes of `g` show it alike. */
  lemma {:induction false} ShowsAlike(m: Memory, m': Memory, p: Ptr, g: Shape)
    requires Shows(m, p, g) && forall n :: n in Inners(g) && n in m ==> n in m' && m'[n] == m[n]
    ensures Shows(m', p, g)
    decreases g
  {
    if g.InnerOf? {
      ShowsAlike(m, m', m[g.node].child0, g.left);
      ShowsAlike(m, m', m[g.node].child1, g.right);
    }
  }

  /** Only the slot of `h` and the new node changed. */
  ghost predicate Linked(m: Memory, m': Memory, g: Shape, node: Node, d: Pos, goes: Directions, h: Node, right: bool) {
    && h in m && h in m' && node in m'
    && (forall n :: n in Inners(g) && n != h && n in m ==> n in m' && m'[n] == m[n])
    && m'[h].pos == m[h].pos && m'[h].Child(!right) == m[h].Child(!right) && m'[h].Child(right) == InnerPtr(node)
    && m'[node].pos == d && m'[node].Child(goes(d)) == LeafPtr(node) && m'[node].Child(!goes(d)) == m[h].Child(right)
  }

  /** Writing the new node into the slot leads to the new shape. */
  lemma {:induction false} Relinked(m: Memory, m': Memory, g: Shape, p: Ptr, node: Node, d: Pos, goes: Directions,
                                    h: Node, right: bool)
    requires Shows(m, p, g) && Distinct(g) && node !in Inners(g) && g.InnerOf? && !Lower(d, g.pos)
    requires Hole(g, AtRoot, goes, d) == AtChild(h, right) && Linked(m, m', g, node, d, goes, h, right)
    ensures Shows(m', p, InsertedShape(g, node, d, goes))
  {
    var b := goes(g.pos);
    var c, other := Below(g, goes), if b then g.left else g.right;
    HoleInside(c, AtChild(g.node, b), goes, d);
    assert h !in Inners(other);
    ShowsAlike(m, m', m[g.node].Child(!b), other);
    if c.LeafOf? || Lower(d, c.pos) {
      assert h == g.node && right == b;
      ShowsAlike(m, m', m[g.node].Child(b), c);
    } else {
      assert Hole(c, AtRoot, goes, d) == AtChild(h, right);
      HoleInside(c, AtRoot, goes, d);
      assert h != g.node;
      Relinked(m, m', c, m[g.node].Child(b), node, d, goes, h, right);
    }
  }

  /** struct cb_tree; `shape` is None for the empty tree. */
  function Footprint(s: Option<Shape>): set<Node> { if s.Some? then Inners(s.value) else {} }

  function Contents(s: Option<Shape>): seq<Key> { if s.Some? then Keys(Value(s.value)) else [] }

  /** The place to insert at. */
  method FindPlace(root: Ptr, k: Key, d: Pos, ghost goes: Directions, ghost m: Memory, ghost g0: Shape)
    returns (w: Where)
    requires Mirrors(m) && Shows(m, root, g0) && GoesBy(goes, k)
    ensures w == Hole(g0, AtRoot, goes, d)
  {
    w := AtRoot;
    var p := root;
    ghost var g := g0;
    while p.InnerPtr? && !(p.node.byte > d.byte || (p.node.byte == d.byte && p.node.otherbits > d.otherbits))
      invariant Shows(m, p, g) && Hole(g, w, goes, d) == Hole(g0, AtRoot, goes, d)
      decreases g
    {
      var q := p.node;
      var right := q.Takes(k);
      assert m[q] == Fields(q.Pos(), q.child0, q.child1) && right == goes(g.pos);
      w, p := AtChild(q, right), q.Child(right);
      g := Below(g, goes);
    }
  }

  /** The first byte in which two keys differ. */
  method FirstDifferingByte(a: Key, b: Key) returns (i: nat)
    requires |a| == |b|
    ensures i <= |a| && (forall j :: 0 <= j < i ==> a[j] == b[j]) && (i < |a| ==> a[i] != b[i])
    ensures i == |a| <==> a == b
  {
    i := 0;
    while i < |a| && a[i] == b[i]
      invariant i <= |a| && forall j :: 0 <= j < i ==> a[j] == b[j]
    {
      i := i + 1;
    }
  }

  /** The fields of the new node, above what was at its place. */
  function NewFields(node: Node, d: Pos, newdirection: bool, p: Ptr): Fields {
    if newdirection then Fields(d, LeafPtr(node), p) else Fields(d, p, LeafPtr(node))
  }

  function Written(f: Fields, right: bool, p: Ptr): Fields {
    if right then f.(child1 := p) else f.(child0 := p)
  }

  /** The memory after linking the node in. */
  function LinkedMemory(m: Memory, node: Node, d: Pos, newdirection: bool, w: Where, p: Ptr): Memory
    requires w.AtChild? ==> w.node in m
  {
    var m1 := m[node := NewFields(node, d, newdirection, p)];
    if w.AtRoot? then m1 else m1[w.node := Written(m[w.node], w.right, InnerPtr(node))]
  }

  lemma {:induction false} LinkedShows(m: Memory, g: Shape, root: Ptr, node: Node, d: Pos, goes: Directions, w: Where,
                                       p: Ptr)
    requires Shows(m, root, g) && Distinct(g) && node !in Inners(g) && w == Hole(g, AtRoot, goes, d)
    requires if w.AtRoot? then p == root else w.node in m && p == m[w.node].Child(w.right)
    ensures Shows(LinkedMemory(m, node, d, !goes(d), w, p), if w.AtRoot?
            then InnerPtr(node) else root, InsertedShape(g, node, d, goes))
  {
    var m' := LinkedMemory(m, node, d, !goes(d), w, p);
    HoleInside(g, AtRoot, goes, d);
    if g.LeafOf? || Lower(d, g.pos) {
      ShowsAlike(m, m', p, g);
    } else {
      HoleBelow(g, AtRoot, goes, d);
      Relinked(m, m', g, root, node, d, goes, w.node, w.right);
    }
  }

  lemma {:induction false} LinkedTo(m: Memory, g: Shape, root: Ptr, node: Node, d: Pos, goes: Directions, w: Where,
                                    p: Ptr, m': Memory, g': Shape)
    requires Shows(m, root, g) && Distinct(g) && m.Keys == Inners(g) && node !in m && w == Hole(g, AtRoot, goes, d)
    requires if w.AtRoot? then p == root else w.node in m && p == m[w.node].Child(w.right)
    requires m' == LinkedMemory(m, node, d, !goes(d), w, p)
    requires g' == InsertedShape(g, node, d, goes) && Inners(g') == Inners(g) + {node}
    ensures Shows(m', if w.AtRoot? then InnerPtr(node) else root, g') && m'.Keys == Inners(g')
  {
    LinkedShows(m, g, root, node, d, goes, w, p);
  }

  lemma {:induction false} HoleBelow(g: Shape, w: Where, goes: Directions, d: Pos)
    requires g.InnerOf? && !Lower(d, g.pos)
    ensures Hole(g, w, goes, d).AtChild?
  {
    var c := Below(g, goes);
    if c.InnerOf? && !Lower(d, c.pos) { HoleBelow(c, AtChild(g.node, goes(g.pos)), goes, d); }
  }

  class CbTree {
    var root: Ptr
    ghost var shape: Option<Shape>
    ghost var memory: Memory

    ghost predicate Valid(klen: nat)
      reads this, memory.Keys
    {
      if shape.None? then root == Null
      else
        && Mirrors(memory) && memory.Keys == Inners(shape.value) && Shows(memory, root, shape.value)
        && Distinct(shape.value) && Wf(Value(shape.value), klen)
    }

    constructor ()
      ensures shape == None && forall klen :: Valid(klen)
    {
      root, shape, memory := Null, None, map[];
    }

    /** cb_lookup */
    method Lookup(k: Key, klen: nat) returns (r: Ptr)
      requires Valid(klen) && |k| == klen
      ensures r == Null <==> k !in Contents(shape)
      ensures r != Null ==> r.LeafPtr? && r.node.k == k
    {
      if root == Null {
        return Null;
      }
      var p := InternalBestMatch(root, k, memory, shape.value);
      LookupFinds(Value(shape.value), k, klen);
      r := if p.node.k == k then p else Null;
    }

    /** cb_insert: the existing leaf if the key is stored, and otherwise the key is added. */
    method Insert(node: Node, klen: nat) returns (dup: Ptr)
      requires Valid(klen) && |node.k| == klen && node !in Footprint(shape)
      modifies this, node, Footprint(shape)
      ensures Valid(klen)
      ensures dup == Null <==> node.k !in old(Contents(shape))
      ensures dup != Null ==> dup.LeafPtr? && dup.node.k == node.k && shape == old(shape)
      ensures dup == Null ==> Footprint(shape) <= old(Footprint(shape)) + {node}
      ensures dup == Null ==> forall x :: x in Contents(shape) <==> x in old(Contents(shape)) || x == node.k
    {
      if root == Null {
        root, shape, memory := LeafPtr(node), Some(LeafOf(node)), map[];
        return Null;
      }
      ghost var g := shape.value;
      var p := InternalBestMatch(root, node.k, memory, g);
      BestMatchFacts(Value(g), node.k, klen);
      var newbyte := FirstDifferingByte(p.node.k, node.k);
      if newbyte == klen {
        return p;
      }
      var d := CritBitTree.Pos(newbyte, OtherBits(p.node.k[newbyte], node.k[newbyte]));
      var newdirection := Direction(d.otherbits, p.node.k[newbyte]) == 1;
      FoundDifference(p.node.k, node.k, newbyte);
      ghost var goes: Directions := q => Bit(node.k, q);
      InsertedFacts(g, node, d, goes, klen);
      Link(node, d, newdirection, goes, g, InsertedShape(g, node, d, goes));
      dup := Null;
    }

    /** The second half of cb_insert: fill in the node and link it in. */
    method Link(node: Node, d: Pos, newdirection: bool, ghost goes: Directions, ghost g: Shape, ghost g': Shape)
      requires shape == Some(g) && Mirrors(memory) && memory.Keys == Inners(g) && Shows(memory, root, g) && Distinct(g)
      requires node !in memory && GoesBy(goes, node.k) && newdirection == !goes(d)
      requires g' == InsertedShape(g, node, d, goes) && Inners(g') == Inners(g) + {node}
      modifies this, node, memory.Keys
      ensures shape == Some(g') && Mirrors(memory) && memory.Keys == Inners(g') && Shows(memory, root, g')
    {
      var w := FindPlace(root, node.k, d, goes, memory, g);
      HoleInside(g, AtRoot, goes, d);
      var p := if w.AtRoot? then root else w.node.Child(w.right);
      ghost var m := LinkedMemory(memory, node, d, newdirection, w, p);
      LinkedTo(memory, g, root, node, d, goes, w, p, m, g');
      root := WriteLink(root, node, d, newdirection, w, p, memory);
      memory, shape := m, Some(g');
    }
  }

  /** What the invariant says of the new shape. */
  lemma {:induction false} InsertedFacts(g: Shape, node: Node, d: Pos, goes: Directions, klen: nat)
    requires Distinct(g) && node !in Inners(g) && GoesBy(goes, node.k)
    requires Wf(Value(g), klen) && |node.k| == klen && FirstDifference(node.k, BestMatch(Value(g), node.k), d)
    ensures var g' := InsertedShape(g, node, d, goes);
            && Inners(g') == Inners(g) + {node} && Distinct(g') && Wf(Value(g'), klen)
            && (forall x :: x in Keys(Value(g')) <==> x in Keys(Value(g)) || x == node.k)
  {
    InsertedShapeFacts(g, node, d, goes);
    InsertedWf(Value(g), node.k, d, klen);
    forall x ensures x in Keys(Inserted(Value(g), node.k, d)) <==> x in Keys(Value(g)) || x == node.k {
      InsertedKeys(Value(g), node.k, d, x);
    }
  }

  /** The writes of cb_insert: the node's fields, then the slot; the new root. */
  method WriteLink(root: Ptr, node: Node, d: Pos, newdirection: bool, w: Where, p: Ptr, ghost m: Memory)
    returns (root': Ptr)
    requires Mirrors(m) && node !in m && (w.AtChild? ==> w.node in m)
    modifies node, if w.AtChild? then {w.node} else {}
    ensures Mirrors(LinkedMemory(m, node, d, newdirection, w, p))
    ensures root' == if w.AtRoot? then InnerPtr(node) else root
  {
    node.byte, node.otherbits := d.byte, d.otherbits;
    if newdirection {
      node.child0, node.child1 := LeafPtr(node), p;
    } else {
      node.child0, node.child1 := p, LeafPtr(node);
    }
    root' := root;
    if w.AtRoot? {
      root' := InnerPtr(node);
    } else if w.right {
      w.node.child1 := InnerPtr(node);
    } else {
      w.node.child0 := InnerPtr(node);
    }
  }

  lemma {:induction false} BestMatchFacts(t: Tree, k: Key, n: nat)
    requires Wf(t, n)
    ensures |BestMatch(t, k)| == n && (BestMatch(t, k) == k <==> k in Keys(t))
  {
    LookupFinds(t, k, n);
    BestMatchIsKey(t, k);
    KeysHaveLength(t, n, BestMatch(t, k));
  }

  datatype Next = CONTINUE | BREAK

  /** The keys an iteration over `keys` visits: up to the first for which the callback breaks. */
  function Visited(keys: seq<Key>, breaks: Key -> bool): seq<Key> {
    if keys == [] then [] else if breaks(keys[0]) then [keys[0]] else [keys[0]] + Visited(keys[1..], breaks)
  }

  predicate Breaks(keys: seq<Key>, breaks: Key -> bool) {
    exists k :: k in keys && breaks(k)
  }

  lemma {:induction false} VisitedAppend(s: seq<Key>, t: seq<Key>, breaks: Key -> bool)
    ensures Visited(s + t, breaks) ==
            if Breaks(s, breaks) then Visited(s, breaks) else Visited(s, breaks) + Visited(t, breaks)
  {
    if s == [] {
      assert s + t == t;
    } else {
      assert (s + t)[1..] == s[1..] + t;
      VisitedAppend(s[1..], t, breaks);
      BreaksFirst(s, breaks);
      KeysRegroup([s[0]], Visited(s[1..], breaks), Visited(t, breaks));
    }
  }

  lemma {:induction false} BreaksFirst(s: seq<Key>, breaks: Key -> bool)
    requires s != []
    ensures Breaks(s, breaks) <==> breaks(s[0]) || Breaks(s[1..], breaks)
  {
    if Breaks(s, breaks) && !breaks(s[0]) {
      var k :| k in s && breaks(k);
      assert s == [s[0]] + s[1..] && k in s[1..];
    }
    if Breaks(s[1..], breaks) {
      var k :| k in s[1..] && breaks(k);
      assert k in s;
    }
  }

  lemma {:induction false} KeysRegroup(s: seq<Key>, t: seq<Key>, u: seq<Key>)
    ensures (s + t) + u == s + (t + u)
  {
  }

  /** cb_descend; the callback is a predicate that says at which keys it breaks. */
  method Descend(p: Ptr, breaks: Key -> bool, seen: seq<Key>, ghost m: Memory, ghost g: Shape)
    returns (next: Next, seen': seq<Key>)
    requires Mirrors(m) && Shows(m, p, g)
    ensures seen' == seen + Visited(Keys(Value(g)), breaks)
    ensures next == BREAK <==> Breaks(Keys(Value(g)), breaks)
    decreases g
  {
    if p.InnerPtr? {
      var q := p.node;
      ghost var l, r := Keys(Value(g.left)), Keys(Value(g.right));
      VisitedBoth(seen, l, r, Keys(Value(g)), breaks);
      next, seen' := Descend(q.child0, breaks, seen, m, g.left);
      if next != BREAK {
        next, seen' := Descend(q.child1, breaks, seen', m, g.right);
      }
    } else {
      next, seen' := if breaks(p.node.k) then BREAK else CONTINUE, seen + [p.node.k];
    }
  }

  lemma {:induction false} VisitedBoth(seen: seq<Key>, l: seq<Key>, r: seq<Key>, keys: seq<Key>, breaks: Key -> bool)
    requires keys == l + r
    ensures Breaks(keys, breaks) <==> Breaks(l, breaks) || Breaks(r, breaks)
    ensures seen + Visited(keys, breaks) ==
            if Breaks(l, breaks) then seen + Visited(l, breaks) else (seen + Visited(l, breaks)) + Visited(r, breaks)
  {
    VisitedAppend(l, r, breaks);
    BreaksEither(l, r, breaks);
    assert seen + (Visited(l, breaks) + Visited(r, breaks)) == (seen + Visited(l, breaks)) + Visited(r, breaks);
  }

  lemma {:induction false} BreaksEither(s: seq<Key>, t: seq<Key>, breaks: Key -> bool)
    ensures Breaks(s + t, breaks) <==> Breaks(s, breaks) || Breaks(t, breaks)
  {
    if Breaks(s, breaks) {
      var k :| k in s && breaks(k);
      assert k in s + t;
    }
    if Breaks(t, breaks) {
      var k :| k in t && breaks(k);
      assert k in s + t;
    }
  }

  function PrefixShape(g: Shape, f: Key): Shape {
    if g.LeafOf? || g.pos.byte >= |f| then g else PrefixShape(if Bit(f, g.pos) then g.right else g.left, f)
  }

  lemma {:induction false} PrefixShapeValue(g: Shape, f: Key)
    ensures Value(PrefixShape(g, f)) == PrefixTop(Value(g), f)
  {
    if g.InnerOf? && g.pos.byte < |f| { PrefixShapeValue(if Bit(f, g.pos) then g.right else g.left, f); }
  }

  /** The walk of cb_each: the best match, and the top of the subtree that shares the prefix.
      Positions increase downwards, so the last reference stored is that top. */
  method WalkPrefix(root: Ptr, f: Key, ghost m: Memory, ghost g0: Shape, ghost klen: nat) returns (p: Ptr, top: Ptr)
    requires Mirrors(m) && Shows(m, root, g0) && Wf(Value(g0), klen)
    ensures p.LeafPtr? && p.node.k == BestMatch(Value(g0), f)
    ensures Shows(m, top, PrefixShape(g0, f))
  {
    p, top := root, root;
    ghost var g, above := g0, false;
    while p.InnerPtr?
      invariant Shows(m, p, g) && Wf(Value(g), klen) && BestMatch(Value(g), f) == BestMatch(Value(g0), f)
      invariant if above then Shows(m, top, PrefixShape(g0, f)) else top == p && PrefixShape(g, f) == PrefixShape(g0, f)
      invariant above && g.InnerOf? ==> g.pos.byte >= |f|
      decreases g
    {
      var q := p.node;
      above := above || g.pos.byte >= |f|;
      p := q.Child(q.Takes(f));
      g := if Bit(f, g.pos) then g.right else g.left;
      if q.byte < |f| {
        top := p;
      }
    }
  }

  /** cb_each: the callback sees exactly the keys with the prefix, once each and in ascending
      order, until it breaks. */
  method Each(tree: CbTree, f: Key, breaks: Key -> bool, klen: nat) returns (seen: seq<Key>)
    requires tree.Valid(klen) && |f| <= klen
    ensures seen == Visited(WithPrefix(Contents(tree.shape), f), breaks)
    ensures Ascending(Contents(tree.shape))
  {
    if tree.root == Null {
      return [];
    }
    ghost var g := tree.shape.value;
    var p, top := WalkPrefix(tree.root, f, tree.memory, g, klen);
    PrefixKeys(Value(g), f, klen);
    PrefixShapeValue(g, f);
    KeysAscend(Value(g), klen);
    BestMatchFacts(Value(g), f, klen);
    if p.node.k[..|f|] != f {
      return [];
    }
    var _, visited := Descend(top, breaks, [], tree.memory, PrefixShape(g, f));
    seen := visited;
  }
}
