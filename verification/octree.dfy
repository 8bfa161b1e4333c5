/** `legion::rendering::Octree<ValueType>`: a capacity-bounded eight-way
    spatial tree.  The `std::shared_ptr<std::array<Octree, 8>>` of children
    becomes a sequence that is empty (null) or has eight entries, indexed by
    the `Subsection` enumeration. */
module Octree {
  import opened Base

  /** A stored `(position, item)` pair. */
  datatype Entry<V> = Entry(pos: Vec3, value: V)

  datatype Node<V> = Node(
    capacity: nat,
    min: Vec3,
    max: Vec3,
    position: Vec3,          // the split point, `m_position`
    items: seq<Entry<V>>,
    children: seq<Node<V>>)  // [] or eight octants

  // Subsection indices.
  const TopLeftFront: nat := 0
  const TopRightFront: nat := 1
  const BotRightFront: nat := 2
  const BotLeftFront: nat := 3
  const TopLeftBack: nat := 4
  const TopRightBack: nat := 5
  const BotRightBack: nat := 6
  const BotLeftBack: nat := 7

  predicate IsLeft(i: nat) { i == TopLeftFront || i == BotLeftFront || i == TopLeftBack || i == BotLeftBack }
  predicate IsTop(i: nat) { i == TopLeftFront || i == TopRightFront || i == TopLeftBack || i == TopRightBack }
  predicate IsFront(i: nat) { i < 4 }

  // ---------------------------------------------------------------------------
  // Construction and invariants
  // ---------------------------------------------------------------------------

  /** `Octree(capacity, min, max, position)`: an empty leaf that keeps the
      given capacity, bounds and split point; it satisfies the invariants
      `insertNode` relies on. */
  function NewAt<V>(capacity: nat, min: Vec3, max: Vec3, position: Vec3): (t: Node<V>)
    ensures t.items == [] && t.children == []
    ensures t.capacity == capacity && t.min == min && t.max == max && t.position == position
    ensures capacity > 0 ==> Valid(t)
    ensures Octants(t)
  {
    Node(capacity, min, max, position, [], [])
  }

  /** `Octree(capacity, min, max)`: the split point is the midpoint. */
  function New<V>(capacity: nat, min: Vec3, max: Vec3): (t: Node<V>)
    ensures t.items == [] && t.children == []
    ensures t.capacity == capacity && t.min == min && t.max == max
    ensures t.position == Mid(min, max)
    ensures capacity > 0 ==> Valid(t)
    ensures Octants(t)
  {
    Node(capacity, min, max, Mid(min, max), [], [])
  }

  /** Structural invariant: positive uniform capacity, at most `capacity`
      items per node, and either no children or exactly eight. */
  ghost predicate Valid<V>(t: Node<V>) {
    && t.capacity > 0
    && |t.items| <= t.capacity
    && (|t.children| == 0 || |t.children| == 8)
    && forall i :: 0 <= i < |t.children| ==>
         t.children[i].capacity == t.capacity && Valid(t.children[i])
  }

  /** Lower corner of octant `i` of `t`, split at `t.position`. */
  function OctantMin<V>(t: Node<V>, i: nat): Vec3 {
    Vec3(if IsLeft(i) then t.min.x else t.position.x,
         if IsTop(i) then t.position.y else t.min.y,
         if IsFront(i) then t.min.z else t.position.z)
  }

  /** Upper corner of octant `i` of `t`. */
  function OctantMax<V>(t: Node<V>, i: nat): Vec3 {
    Vec3(if IsLeft(i) then t.position.x else t.max.x,
         if IsTop(i) then t.max.y else t.position.y,
         if IsFront(i) then t.position.z else t.max.z)
  }

  /** Every child's bounds are its parent's octant of the same index. */
  ghost predicate Octants<V>(t: Node<V>) {
    forall i :: 0 <= i < |t.children| ==>
      t.children[i].min == OctantMin(t, i) && t.children[i].max == OctantMax(t, i)
      && Octants(t.children[i])
  }

  // ---------------------------------------------------------------------------
  // fitsNode / GetChildIndex / child creation
  // ---------------------------------------------------------------------------

  /** `fitsNode(pos)`: inside the box, bounds inclusive. */
  predicate Fits<V>(t: Node<V>, p: Vec3) {
    InBox(t.min, t.max, p)
  }

  predicate InBox(min: Vec3, max: Vec3, p: Vec3) {
    !(p.x < min.x || p.y < min.y || p.z < min.z
      || p.x > max.x || p.y > max.y || p.z > max.z)
  }

  /** `GetChildIndex(pos)`: left iff `x < centre.x`, top iff `y > centre.y`,
      front iff `z < centre.z`; ties go right, bottom and back. */
  function ChildIndex<V>(t: Node<V>, p: Vec3): (i: nat)
    ensures i < 8
    ensures IsLeft(i) <==> p.x < t.position.x
    ensures IsTop(i) <==> p.y > t.position.y
    ensures IsFront(i) <==> p.z < t.position.z
  {
    var c := t.position;
    if p.x < c.x then
      if p.y > c.y then (if p.z < c.z then TopLeftFront else TopLeftBack)
      else (if p.z < c.z then BotLeftFront else BotLeftBack)
    else
      if p.y > c.y then (if p.z < c.z then TopRightFront else TopRightBack)
      else (if p.z < c.z then BotRightFront else BotRightBack)
  }

  /** The eight children created when a full leaf splits, each built with
      the midpoint constructor from the parent's split point. */
  function MakeChildren<V>(t: Node<V>): (cs: seq<Node<V>>)
    ensures |cs| == 8
    ensures forall i :: 0 <= i < 8 ==>
      && cs[i] == New(t.capacity, OctantMin(t, i), OctantMax(t, i))
  {
    var m, M, p := t.min, t.max, t.position;
    [ New(t.capacity, Vec3(m.x, p.y, m.z), Vec3(p.x, M.y, p.z)),   // TopLeftFront
      New(t.capacity, Vec3(p.x, p.y, m.z), Vec3(M.x, M.y, p.z)),   // TopRightFront
      New(t.capacity, Vec3(p.x, m.y, m.z), Vec3(M.x, p.y, p.z)),   // BotRightFront
      New(t.capacity, Vec3(m.x, m.y, m.z), Vec3(p.x, p.y, p.z)),   // BotLeftFront
      New(t.capacity, Vec3(m.x, p.y, p.z), Vec3(p.x, M.y, M.z)),   // TopLeftBack
      New(t.capacity, Vec3(p.x, p.y, p.z), Vec3(M.x, M.y, M.z)),   // TopRightBack
      New(t.capacity, Vec3(p.x, m.y, p.z), Vec3(M.x, p.y, M.z)),   // BotRightBack
      New(t.capacity, Vec3(m.x, m.y, p.z), Vec3(p.x, p.y, M.z)) ]  // BotLeftBack
  }

  /** A point inside a node lies inside the octant `GetChildIndex` picks,
      whatever the split point is. */
  lemma FitsChosenOctant<V>(t: Node<V>, p: Vec3)
    requires Fits(t, p)
    ensures var i := ChildIndex(t, p);
      InBox(OctantMin(t, i), OctantMax(t, i), p)
  {
  }

  // ---------------------------------------------------------------------------
  // Height (termination measure) and the tree-depth query
  // ---------------------------------------------------------------------------

  /** Number of levels below `t`. */
  function Height<V>(t: Node<V>): nat
    decreases t, 1
  {
    if t.children == [] then 0 else 1 + MaxChildHeight(t, 0)
  }

  function MaxChildHeight<V>(t: Node<V>, i: nat): nat
    requires i <= |t.children|
    decreases t, 0, |t.children| - i
  {
    if i == |t.children| then 0
    else
      var h := Height(t.children[i]);
      var rest := MaxChildHeight(t, i + 1);
      if h > rest then h else rest
  }

  lemma {:induction false} MaxChildHeightBound<V>(t: Node<V>, i: nat, j: nat)
    requires i <= j < |t.children|
    ensures Height(t.children[j]) <= MaxChildHeight(t, i)
    decreases |t.children| - i
  {
    if i < j {
      MaxChildHeightBound(t, i + 1, j);
    }
  }

  lemma ChildHeightSmaller<V>(t: Node<V>, j: nat)
    requires j < |t.children|
    ensures Height(t.children[j]) < Height(t)
  {
    MaxChildHeightBound(t, 0, j);
  }

  /** Some child at or after `i` attains the maximum height. */
  lemma {:induction false} MaxChildHeightAttained<V>(t: Node<V>, i: nat)
    requires i < |t.children|
    ensures exists j :: i <= j < |t.children| && Height(t.children[j]) == MaxChildHeight(t, i)
    decreases |t.children| - i
  {
    if i + 1 < |t.children| {
      MaxChildHeightAttained(t, i + 1);
      var j :| i + 1 <= j < |t.children| && Height(t.children[j]) == MaxChildHeight(t, i + 1);
      if Height(t.children[i]) <= MaxChildHeight(t, i + 1) {
        assert Height(t.children[j]) == MaxChildHeight(t, i);
      } else {
        assert Height(t.children[i]) == MaxChildHeight(t, i);
      }
    } else {
      assert Height(t.children[i]) == MaxChildHeight(t, i);
    }
  }

  /** `GetTreeDepth(inputDepth)` AS WRITTEN: the children are asked with
      `depth + 1`, their maximum is kept in `newDepth` (seeded with
      `-INT16_MAX`), and the function returns `depth + newDepth`, adding the
      input depth a second time. */
  function GetTreeDepthAsWritten<V>(t: Node<V>, depth: int): int
    decreases t, 1
  {
    if t.children == [] then depth
    else depth + MaxChildDepthAsWritten(t, 0, depth + 1, -32767)
  }

  function MaxChildDepthAsWritten<V>(t: Node<V>, i: nat, childDepth: int, newDepth: int): int
    requires i <= |t.children|
    decreases t, 0, |t.children| - i
  {
    if i == |t.children| then newDepth
    else
      var d := GetTreeDepthAsWritten(t.children[i], childDepth);
      MaxChildDepthAsWritten(t, i + 1, childDepth, if d > newDepth then d else newDepth)
  }

  /** Closed form of the source's answer: summing the depths along the
      deepest path, `(h + 1) * d + h * (h + 1) / 2` for height `h`. */
  function Triangular(d: int, h: nat): int {
    (h + 1) * d + h * (h + 1) / 2
  }

  lemma {:induction false} TriangularMonotone(d: int, h1: nat, h2: nat)
    requires d >= 0 && h1 <= h2
    ensures Triangular(d, h1) <= Triangular(d, h2)
    decreases h2 - h1
  {
    if h1 < h2 {
      TriangularMonotone(d, h1, h2 - 1);
      TriangularSucc(d, h2 - 1);
    }
  }

  lemma TriangularSucc(d: int, h: nat)
    ensures Triangular(d, h + 1) == Triangular(d, h) + d + h + 1
  {
    assert (h + 1) * (h + 2) == h * (h + 1) + 2 * (h + 1);
    HalfAddDouble(h * (h + 1), h + 1);
    assert (h + 2) * d == (h + 1) * d + d;
  }

  lemma TriangularStep(d: int, h: nat)
    ensures d + Triangular(d + 1, h) == Triangular(d, h + 1)
  {
    TriangularSucc(d, h);
    assert (h + 1) * (d + 1) == (h + 1) * d + h + 1;
  }

  /** Halving commutes with adding an even number. */
  lemma HalfAddDouble(x: int, y: int)
    ensures (x + 2 * y) / 2 == x / 2 + y
  {
  }

  /** The source's `GetTreeDepth(d)` is the triangular sum, not `d + height`. */
  lemma {:induction false} GetTreeDepthAsWrittenValue<V>(t: Node<V>, d: int)
    requires d >= 0
    requires |t.children| == 0 || |t.children| == 8
    requires forall i :: 0 <= i < |t.children| ==> EightOrNone(t.children[i])
    ensures GetTreeDepthAsWritten(t, d) == Triangular(d, Height(t))
    decreases t, 1
  {
    if t.children != [] {
      MaxChildDepthAsWrittenValue(t, 0, d + 1, -32767);
      TriangularStep(d, MaxChildHeight(t, 0));
    }
  }

  /** Every node has zero or eight children. */
  ghost predicate EightOrNone<V>(t: Node<V>) {
    && (|t.children| == 0 || |t.children| == 8)
    && forall i :: 0 <= i < |t.children| ==> EightOrNone(t.children[i])
  }

  lemma {:induction false} MaxChildDepthAsWrittenValue<V>(t: Node<V>, i: nat, cd: int, acc: int)
    requires 0 < cd && i < |t.children|
    requires forall j :: 0 <= j < |t.children| ==> EightOrNone(t.children[j])
    requires acc < cd
    ensures MaxChildDepthAsWritten(t, i, cd, acc) == Triangular(cd, MaxChildHeight(t, i))
    decreases t, 0, |t.children| - i
  {
    var c := t.children[i];
    GetTreeDepthAsWrittenValue(c, cd);
    var d := GetTreeDepthAsWritten(c, cd);
    assert d >= cd by { TriangularMonotone(cd, 0, Height(c)); }
    var acc' := if d > acc then d else acc;
    assert acc' == d;
    if i + 1 < |t.children| {
      MaxChildDepthAsWrittenTail(t, i + 1, cd, d);
      var rest := MaxChildHeight(t, i + 1);
      if Height(c) > rest {
        TriangularMonotone(cd, rest, Height(c));
      } else {
        TriangularMonotone(cd, Height(c), rest);
      }
    }
  }

  /** Continuing the scan from an accumulator that is a child's answer. */
  lemma {:induction false} MaxChildDepthAsWrittenTail<V>(t: Node<V>, i: nat, cd: int, acc: int)
    requires 0 < cd && i < |t.children|
    requires forall j :: 0 <= j < |t.children| ==> EightOrNone(t.children[j])
    requires cd <= acc
    ensures MaxChildDepthAsWritten(t, i, cd, acc)
         == (var m := Triangular(cd, MaxChildHeight(t, i)); if m > acc then m else acc)
    decreases t, 0, |t.children| - i
  {
    var c := t.children[i];
    GetTreeDepthAsWrittenValue(c, cd);
    var d := GetTreeDepthAsWritten(c, cd);
    var acc' := if d > acc then d else acc;
    if i + 1 < |t.children| {
      MaxChildDepthAsWrittenTail(t, i + 1, cd, acc');
      var rest := MaxChildHeight(t, i + 1);
      if Height(c) > rest {
        TriangularMonotone(cd, rest, Height(c));
      } else {
        TriangularMonotone(cd, Height(c), rest);
      }
    }
  }

  /** `GetTreeDepth` as evidently intended: the input depth plus the height. */
  function GetTreeDepth<V>(t: Node<V>, depth: int): (r: int)
    decreases t, 1
  {
    if t.children == [] then depth
    else MaxChildDepth(t, 0, depth + 1, -32767)
  }

  function MaxChildDepth<V>(t: Node<V>, i: nat, childDepth: int, newDepth: int): int
    requires i <= |t.children|
    decreases t, 0, |t.children| - i
  {
    if i == |t.children| then newDepth
    else
      var d := GetTreeDepth(t.children[i], childDepth);
      MaxChildDepth(t, i + 1, childDepth, if d > newDepth then d else newDepth)
  }

  /** The corrected query returns the input depth plus the tree height. */
  lemma {:induction false} GetTreeDepthIsHeight<V>(t: Node<V>, d: int)
    requires d > -32767
    ensures GetTreeDepth(t, d) == d + Height(t)
    decreases t, 1
  {
    if t.children != [] {
      MaxChildDepthValue(t, 0, d + 1, -32767);
    }
  }

  lemma {:induction false} MaxChildDepthValue<V>(t: Node<V>, i: nat, cd: int, acc: int)
    requires -32767 < cd && i <= |t.children|
    requires acc < cd
    ensures i < |t.children| ==> MaxChildDepth(t, i, cd, acc) == cd + MaxChildHeight(t, i)
    decreases t, 0, |t.children| - i
  {
    if i < |t.children| {
      GetTreeDepthIsHeight(t.children[i], cd);
      MaxChildDepthTail(t, i + 1, cd, cd + Height(t.children[i]));
    }
  }

  lemma {:induction false} MaxChildDepthTail<V>(t: Node<V>, i: nat, cd: int, acc: int)
    requires -32767 < cd && i <= |t.children|
    requires cd <= acc
    ensures MaxChildDepth(t, i, cd, acc)
         == (if i < |t.children| && cd + MaxChildHeight(t, i) > acc then cd + MaxChildHeight(t, i) else acc)
    decreases t, 0, |t.children| - i
  {
    if i < |t.children| {
      GetTreeDepthIsHeight(t.children[i], cd);
      var d := cd + Height(t.children[i]);
      MaxChildDepthTail(t, i + 1, cd, if d > acc then d else acc);
    }
  }

  /** A root whose first child has one level of children below it. */
  function TwoLevelTree(): Node<int> {
    var leaf := New<int>(1, Zero3, Zero3);
    var mid := leaf.(children := seq(8, _ => leaf));
    leaf.(children := [mid] + seq(7, _ => leaf))
  }

  /** Concrete witness: for a tree of height 2, `GetTreeDepth(0)` answers 3. */
  lemma GetTreeDepthWitness()
    ensures Height(TwoLevelTree()) == 2
    ensures GetTreeDepthAsWritten(TwoLevelTree(), 0) == 3
    ensures GetTreeDepth(TwoLevelTree(), 0) == 2
  {
    var t := TwoLevelTree();
    var leaf := New<int>(1, Zero3, Zero3);
    assert forall i :: 0 <= i < |t.children| ==> EightOrNone(t.children[i]) by {
      assert EightOrNone(leaf);
      assert EightOrNone(t.children[0]);
    }
    assert Height(t.children[0]) == 1 by {
      var mid := t.children[0];
      MaxChildHeightAttained(mid, 0);
    }
    assert MaxChildHeight(t, 0) == 1 by {
      MaxChildHeightBound(t, 0, 0);
      MaxChildHeightAttained(t, 0);
      forall j | 0 <= j < 8 ensures Height(t.children[j]) <= 1 {
        if j > 0 { assert t.children[j] == leaf; }
      }
    }
    GetTreeDepthAsWrittenValue(t, 0);
    GetTreeDepthIsHeight(t, 0);
  }

  // ---------------------------------------------------------------------------
  // insertNode
  // ---------------------------------------------------------------------------

  /** `insertNode(item, pos)`.  Capacity 0 makes the source split forever,
      so `Valid` asks for a positive capacity. */
  function Insert<V>(t: Node<V>, item: V, pos: Vec3): (r: Node<V>)
    requires Valid(t)
    ensures Valid(r)
    ensures r.capacity == t.capacity && r.min == t.min && r.max == t.max && r.position == t.position
    ensures !Fits(t, pos) ==> r == t
    ensures Fits(t, pos) && t.children == [] && |t.items| < t.capacity ==>
              r.items == t.items + [Entry(pos, item)] && r.children == []
    ensures Fits(t, pos) && t.children != [] ==> r.items == t.items && |r.children| == 8
    ensures Fits(t, pos) && t.children != [] ==>
              forall j :: 0 <= j < 8 && j != ChildIndex(t, pos) ==> r.children[j] == t.children[j]
    decreases Height(t), if t.children == [] && |t.items| >= t.capacity then 1 else 0
  {
    if !Fits(t, pos) then t
    else if t.children == [] then
      if |t.items| < t.capacity then
        t.(items := t.items + [Entry(pos, item)])
      else
        var kids := MakeChildren(t);
        var i := ChildIndex(t, pos);
        assert Height(kids[i]) == 0;
        t.(children := kids[i := Insert(kids[i], item, pos)])
    else
      var i := ChildIndex(t, pos);
      ChildHeightSmaller(t, i);
      t.(children := t.children[i := Insert(t.children[i], item, pos)])
  }

  /** Splitting a full leaf: eight octant children, the parent keeps its own
      items (redistribution is commented out in the source) and the new
      entry lands, alone, in the child `GetChildIndex(pos)`. */
  lemma InsertSplitsFullLeaf<V>(t: Node<V>, item: V, pos: Vec3)
    requires Valid(t) && Fits(t, pos)
    requires t.children == [] && |t.items| == t.capacity
    ensures var r := Insert(t, item, pos);
      var i := ChildIndex(t, pos);
      && r.items == t.items
      && |r.children| == 8
      && (forall j :: 0 <= j < 8 && j != i ==> r.children[j] == New(t.capacity, OctantMin(t, j), OctantMax(t, j)))
      && r.children[i] == New(t.capacity, OctantMin(t, i), OctantMax(t, i)).(items := [Entry(pos, item)])
  {
    var i := ChildIndex(t, pos);
    FitsChosenOctant(t, pos);
  }

  // ---------------------------------------------------------------------------
  // Item count
  // ---------------------------------------------------------------------------

  /** Total number of entries stored in the tree. */
  function Count<V>(t: Node<V>): nat
    decreases t, 1
  {
    |t.items| + CountFrom(t, 0)
  }

  function CountFrom<V>(t: Node<V>, i: nat): nat
    requires i <= |t.children|
    decreases t, 0, |t.children| - i
  {
    if i == |t.children| then 0 else Count(t.children[i]) + CountFrom(t, i + 1)
  }

  /** Replacing child `j` changes the children's total by the difference. */
  lemma {:induction false} CountFromUpdate<V>(t: Node<V>, i: nat, j: nat, c: Node<V>)
    requires i <= j < |t.children|
    ensures CountFrom(t.(children := t.children[j := c]), i) + Count(t.children[j])
         == CountFrom(t, i) + Count(c)
    decreases |t.children| - i
  {
    var t' := t.(children := t.children[j := c]);
    if i < j {
      CountFromUpdate(t, i + 1, j, c);
    } else {
      CountFromSame(t, t', i + 1);
    }
  }

  lemma {:induction false} CountFromSame<V>(t: Node<V>, t': Node<V>, i: nat)
    requires |t.children| == |t'.children| && i <= |t.children|
    requires forall k :: i <= k < |t.children| ==> t.children[k] == t'.children[k]
    ensures CountFrom(t, i) == CountFrom(t', i)
    decreases |t.children| - i
  {
    if i < |t.children| {
      CountFromSame(t, t', i + 1);
    }
  }

  /** The eight freshly made children hold nothing. */
  lemma {:induction false} CountFromFresh<V>(t: Node<V>, i: nat)
    requires i <= |t.children|
    requires forall k :: i <= k < |t.children| ==> t.children[k].items == [] && t.children[k].children == []
    ensures CountFrom(t, i) == 0
    decreases |t.children| - i
  {
    if i < |t.children| {
      CountFromFresh(t, i + 1);
      assert Count(t.children[i]) == 0 by {
        assert CountFrom(t.children[i], 0) == 0;
      }
    }
  }

  /** For a tree whose children are the octants of their parents (any tree
      built by the two constructors and `insertNode`), inserting a point that
      fits the root stores it in exactly one node. */
  lemma {:induction false} InsertCountsOne<V>(t: Node<V>, item: V, pos: Vec3)
    requires Valid(t) && Octants(t) && Fits(t, pos)
    ensures Count(Insert(t, item, pos)) == Count(t) + 1
    decreases Height(t)
  {
    var r := Insert(t, item, pos);
    var i := ChildIndex(t, pos);
    FitsChosenOctant(t, pos);
    if t.children == [] {
      if |t.items| < t.capacity {
        assert CountFrom(r, 0) == 0 && CountFrom(t, 0) == 0;
      } else {
        var kids := MakeChildren(t);
        var parent := t.(children := kids);
        CountFromFresh(parent, 0);
        var child := Insert(kids[i], item, pos);
        assert Count(child) == 1 by {
          assert child.children == [];
          assert CountFrom(child, 0) == 0;
        }
        CountFromUpdate(parent, 0, i, child);
        assert Count(kids[i]) == 0 by { assert CountFrom(kids[i], 0) == 0; }
        assert CountFrom(t, 0) == 0;
      }
    } else {
      var c := t.children[i];
      ChildHeightSmaller(t, i);
      assert Fits(c, pos);
      InsertCountsOne(c, item, pos);
      CountFromUpdate(t, 0, i, Insert(c, item, pos));
    }
  }

  /** `insertNode` keeps every child inside its parent's octant. */
  lemma {:induction false} InsertKeepsOctants<V>(t: Node<V>, item: V, pos: Vec3)
    requires Valid(t) && Octants(t)
    ensures Octants(Insert(t, item, pos))
    decreases Height(t)
  {
    if Fits(t, pos) && t.children != [] {
      var i := ChildIndex(t, pos);
      ChildHeightSmaller(t, i);
      InsertKeepsOctants(t.children[i], item, pos);
      var r := Insert(t, item, pos);
      assert r.children == t.children[i := Insert(t.children[i], item, pos)];
      forall j | 0 <= j < |r.children|
        ensures r.children[j].min == OctantMin(r, j) && r.children[j].max == OctantMax(r, j)
                && Octants(r.children[j])
      {
        assert OctantMin(r, j) == OctantMin(t, j) && OctantMax(r, j) == OctantMax(t, j);
      }
    }
  }

  // ---------------------------------------------------------------------------
  // GetData / GetDataRange and their preorder reference
  // ---------------------------------------------------------------------------

  /** The items of one node, tagged with its level. */
  datatype Level = Level(level: int, positions: seq<Vec3>)

  function Positions<V>(items: seq<Entry<V>>): (ps: seq<Vec3>)
    ensures |ps| == |items|
    ensures forall k :: 0 <= k < |items| ==> ps[k] == items[k].pos
  {
    if items == [] then [] else [items[0].pos] + Positions(items[1..])
  }

  /** Reference traversal: every node in preorder (own items, then children
      0..7), tagged with its level counted from `l`. */
  function Preorder<V>(t: Node<V>, l: int): seq<Level>
    decreases t, 1
  {
    [Level(l, Positions(t.items))] + PreorderFrom(t, 0, l + 1)
  }

  function PreorderFrom<V>(t: Node<V>, i: nat, l: int): seq<Level>
    requires i <= |t.children|
    decreases t, 0, |t.children| - i
  {
    if i == |t.children| then [] else Preorder(t.children[i], l) + PreorderFrom(t, i + 1, l)
  }

  /** The positions of the nodes whose level lies in `[lo, hi)`, in order. */
  function Select(ls: seq<Level>, lo: int, hi: int): seq<Vec3> {
    if ls == [] then []
    else (if lo <= ls[0].level < hi then ls[0].positions else []) + Select(ls[1..], lo, hi)
  }

  lemma {:induction false} SelectAppend(a: seq<Level>, b: seq<Level>, lo: int, hi: int)
    ensures Select(a + b, lo, hi) == Select(a, lo, hi) + Select(b, lo, hi)
    decreases |a|
  {
    if a == [] {
      assert a + b == b;
    } else {
      assert (a + b)[1..] == a[1..] + b;
      SelectAppend(a[1..], b, lo, hi);
    }
  }

  /** Selecting only levels no listed node reaches yields nothing. */
  lemma {:induction false} SelectNone(ls: seq<Level>, lo: int, hi: int)
    requires forall k :: 0 <= k < |ls| ==> ls[k].level >= hi
    ensures Select(ls, lo, hi) == []
    decreases |ls|
  {
    if ls != [] {
      SelectNone(ls[1..], lo, hi);
    }
  }

  /** The lower bound does not matter below the shallowest listed level. */
  lemma {:induction false} SelectLowerBound(ls: seq<Level>, lo: int, lo': int, hi: int, l: int)
    requires lo <= l && lo' <= l
    requires forall k :: 0 <= k < |ls| ==> ls[k].level >= l
    ensures Select(ls, lo, hi) == Select(ls, lo', hi)
    decreases |ls|
  {
    if ls != [] {
      SelectLowerBound(ls[1..], lo, lo', hi, l);
    }
  }

  lemma {:induction false} PreorderLevels<V>(t: Node<V>, l: int)
    ensures forall k :: 0 <= k < |Preorder(t, l)| ==> Preorder(t, l)[k].level >= l
    decreases t, 1
  {
    PreorderFromLevels(t, 0, l + 1);
  }

  lemma {:induction false} PreorderFromLevels<V>(t: Node<V>, i: nat, l: int)
    requires i <= |t.children|
    ensures forall k :: 0 <= k < |PreorderFrom(t, i, l)| ==> PreorderFrom(t, i, l)[k].level >= l
    decreases t, 0, |t.children| - i
  {
    if i < |t.children| {
      PreorderLevels(t.children[i], l);
      PreorderFromLevels(t, i + 1, l);
    }
  }

  /** `GetData(depth, Data)`: the positions it appends to `Data`. */
  function GetData<V>(t: Node<V>, depth: int): seq<Vec3>
    decreases t, 1
  {
    Positions(t.items) + (if t.children != [] && depth > 0 then GetDataFrom(t, 0, depth - 1) else [])
  }

  function GetDataFrom<V>(t: Node<V>, i: nat, depth: int): seq<Vec3>
    requires i <= |t.children|
    decreases t, 0, |t.children| - i
  {
    if i == |t.children| then [] else GetData(t.children[i], depth) + GetDataFrom(t, i + 1, depth)
  }

  /** `GetDataRange(startingDepth, endDepth, Data)`: the positions it appends. */
  function GetDataRange<V>(t: Node<V>, s: int, e: int): seq<Vec3>
    decreases t, 1
  {
    if s > 0 then
      (if t.children != [] then GetDataRangeFrom(t, 0, s - 1, e - 1) else [])
    else if e > 0 then
      Positions(t.items) + (if t.children != [] then GetDataRangeFrom(t, 0, s, e - 1) else [])
    else []
  }

  function GetDataRangeFrom<V>(t: Node<V>, i: nat, s: int, e: int): seq<Vec3>
    requires i <= |t.children|
    decreases t, 0, |t.children| - i
  {
    if i == |t.children| then [] else GetDataRange(t.children[i], s, e) + GetDataRangeFrom(t, i + 1, s, e)
  }

  function MaxInt(a: int, b: int): int { if a >= b then a else b }

  /** `GetData(d)` collects, in preorder, the items of the nodes at relative
      levels 0 through `d` (level 0 alone when `d <= 0`). */
  lemma GetDataSelectsLevels<V>(t: Node<V>, d: int)
    ensures GetData(t, d) == Select(Preorder(t, 0), 0, MaxInt(d, 0) + 1)
  {
    GetDataLevels(t, d, 0, 0);
  }

  lemma {:induction false} GetDataLevels<V>(t: Node<V>, d: int, l: int, lo: int)
    requires lo <= l
    ensures GetData(t, d) == Select(Preorder(t, l), lo, l + MaxInt(d, 0) + 1)
    decreases t, 1
  {
    var hi := l + MaxInt(d, 0) + 1;
    var head := [Level(l, Positions(t.items))];
    SelectAppend(head, PreorderFrom(t, 0, l + 1), lo, hi);
    assert Select(head, lo, hi) == Positions(t.items) by {
      assert head[1..] == [];
    }
    if t.children != [] && d > 0 {
      GetDataFromLevels(t, 0, d - 1, l + 1, lo);
    } else {
      PreorderFromLevels(t, 0, l + 1);
      SelectNone(PreorderFrom(t, 0, l + 1), lo, l + 1);
      if t.children == [] {
        assert PreorderFrom(t, 0, l + 1) == [];
      } else {
        assert hi == l + 1;
      }
    }
  }

  lemma {:induction false} GetDataFromLevels<V>(t: Node<V>, i: nat, d: int, l: int, lo: int)
    requires i <= |t.children| && lo <= l && d >= 0
    ensures GetDataFrom(t, i, d) == Select(PreorderFrom(t, i, l), lo, l + d + 1)
    decreases t, 0, |t.children| - i
  {
    if i < |t.children| {
      GetDataLevels(t.children[i], d, l, lo);
      GetDataFromLevels(t, i + 1, d, l, lo);
      SelectAppend(Preorder(t.children[i], l), PreorderFrom(t, i + 1, l), lo, l + d + 1);
    }
  }

  /** `GetDataRange(s, e)` collects, in preorder, exactly the items of the
      nodes at relative levels `l` with `s <= l < e`. */
  lemma GetDataRangeSelectsLevels<V>(t: Node<V>, s: int, e: int)
    ensures GetDataRange(t, s, e) == Select(Preorder(t, 0), s, e)
  {
    GetDataRangeLevels(t, s, e, 0, s);
  }

  lemma {:induction false} GetDataRangeLevels<V>(t: Node<V>, s: int, e: int, l: int, lo: int)
    requires (s > 0 && lo == l + s) || (s <= 0 && lo <= l)
    ensures GetDataRange(t, s, e) == Select(Preorder(t, l), lo, l + e)
    decreases t, 1
  {
    var hi := l + e;
    var head := [Level(l, Positions(t.items))];
    SelectAppend(head, PreorderFrom(t, 0, l + 1), lo, hi);
    assert head[1..] == [];
    PreorderFromLevels(t, 0, l + 1);
    if s > 0 {
      assert Select(head, lo, hi) == [];
      if t.children != [] {
        GetDataRangeFromLevels(t, 0, s - 1, e - 1, l + 1, lo);
      }
    } else if e > 0 {
      assert Select(head, lo, hi) == Positions(t.items);
      if t.children != [] {
        GetDataRangeFromLevels(t, 0, s, e - 1, l + 1, lo);
      }
    } else {
      assert Select(head, lo, hi) == [];
      SelectNone(PreorderFrom(t, 0, l + 1), lo, hi);
    }
  }

  lemma {:induction false} GetDataRangeFromLevels<V>(t: Node<V>, i: nat, s: int, e: int, l: int, lo: int)
    requires i <= |t.children|
    requires (s > 0 && lo == l + s) || (s <= 0 && lo <= l)
    ensures GetDataRangeFrom(t, i, s, e) == Select(PreorderFrom(t, i, l), lo, l + e)
    decreases t, 0, |t.children| - i
  {
    if i < |t.children| {
      GetDataRangeLevels(t.children[i], s, e, l, lo);
      GetDataRangeFromLevels(t, i + 1, s, e, l, lo);
      SelectAppend(Preorder(t.children[i], l), PreorderFrom(t, i + 1, l), lo, l + e);
    }
  }
}
