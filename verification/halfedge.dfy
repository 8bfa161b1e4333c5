/** `legion::physics::HalfEdgeEdge`: the re-linking primitives of a half-edge
    mesh.  Raw pointers become integer handles into maps; a handle that is
    not a key stands for a null or deleted pointer.  Face loops are stated by
    `IsLoop`, and `Join` is the one theorem every splice in the merge rests
    on. */
module HalfEdge {
  import opened Base

  type EdgeId = int
  type FaceId = int

  /** The handle of a pointer that has not been set yet. */
  const Null: int := -1

  datatype Edge = Edge(
    identifier: int,
    position: Vec3,      // `edgePosition`: the vertex the edge starts at
    face: FaceId,
    next: EdgeId,
    prev: EdgeId,
    pairing: EdgeId)

  /** A face: its start edge, plane, and the vertices its `faceToVert`
      record holds (released when the face is merged away). */
  datatype Face = Face(start: EdgeId, normal: Vec3, centroid: Vec3, verts: seq<Vec3>)

  datatype Mesh = Mesh(edges: map<EdgeId, Edge>, faces: map<FaceId, Face>)

  // ---------------------------------------------------------------------------
  // Construction: the static identifier counter
  // ---------------------------------------------------------------------------

  /** `HalfEdgeEdge(position)`: takes the counter's value as identifier and
      advances the counter.  The links start unset. */
  function NewEdge(counter: int, position: Vec3): (r: (Edge, int))
    ensures r.0.identifier == counter && r.1 == counter + 1
    ensures r.0.position == position
  {
    (Edge(counter, position, Null, Null, Null, Null), counter + 1)
  }

  /** Constructing one edge per position, in order. */
  function NewEdges(counter: int, positions: seq<Vec3>): (r: (seq<Edge>, int))
    ensures |r.0| == |positions| && r.1 == counter + |positions|
    ensures forall i :: 0 <= i < |positions| ==> r.0[i].position == positions[i]
    ensures forall i :: 0 <= i < |positions| ==> counter <= r.0[i].identifier < r.1
    ensures forall i, j :: 0 <= i < j < |positions| ==> r.0[i].identifier < r.0[j].identifier
    decreases |positions|
  {
    if positions == [] then ([], counter)
    else
      var (e, c) := NewEdge(counter, positions[0]);
      var (rest, c') := NewEdges(c, positions[1..]);
      ([e] + rest, c')
  }

  /** Edges built in one run have pairwise distinct identifiers, and a later
      run never reuses an identifier of an earlier one. */
  lemma IdentifiersUnique(counter: int, first: seq<Vec3>, second: seq<Vec3>)
    ensures var (a, c) := NewEdges(counter, first);
      var (b, _) := NewEdges(c, second);
      forall i, j :: 0 <= i < |a| && 0 <= j < |b| ==> a[i].identifier < b[j].identifier
  {
  }

  // ---------------------------------------------------------------------------
  // Link primitives
  // ---------------------------------------------------------------------------

  /** Only the `next` and `prev` links of the edges may differ. */
  ghost predicate OnlyLinksChanged(m: Mesh, r: Mesh) {
    && r.faces == m.faces
    && r.edges.Keys == m.edges.Keys
    && forall x :: x in m.edges ==>
         r.edges[x] == m.edges[x].(next := r.edges[x].next, prev := r.edges[x].prev)
  }

  /** `setNextAndPrevEdge(prev, next)`: sets this edge's two links only. */
  function SetNextAndPrev(m: Mesh, e: EdgeId, p: EdgeId, n: EdgeId): (r: Mesh)
    requires e in m.edges
    ensures OnlyLinksChanged(m, r)
    ensures r.edges[e].next == n && r.edges[e].prev == p
    ensures forall x :: x in m.edges && x != e ==> r.edges[x] == m.edges[x]
  {
    m.(edges := m.edges[e := m.edges[e].(next := n, prev := p)])
  }

  /** `setNext(n)`: this edge's `next` becomes `n` and `n`'s `prev` becomes
      this edge. */
  function SetNext(m: Mesh, e: EdgeId, n: EdgeId): (r: Mesh)
    requires e in m.edges && n in m.edges
    ensures OnlyLinksChanged(m, r)
    ensures r.edges[e].next == n && r.edges[n].prev == e
    ensures forall x :: x in m.edges && x != e ==> r.edges[x].next == m.edges[x].next
    ensures forall x :: x in m.edges && x != n ==> r.edges[x].prev == m.edges[x].prev
  {
    var es := m.edges[e := m.edges[e].(next := n)];
    m.(edges := es[n := es[n].(prev := e)])
  }

  /** `setPrev(p)`: this edge's `prev` becomes `p` and `p`'s `next` becomes
      this edge. */
  function SetPrev(m: Mesh, e: EdgeId, p: EdgeId): (r: Mesh)
    requires e in m.edges && p in m.edges
    ensures OnlyLinksChanged(m, r)
    ensures r.edges[e].prev == p && r.edges[p].next == e
    ensures forall x :: x in m.edges && x != e ==> r.edges[x].prev == m.edges[x].prev
    ensures forall x :: x in m.edges && x != p ==> r.edges[x].next == m.edges[x].next
  {
    var es := m.edges[e := m.edges[e].(prev := p)];
    m.(edges := es[p := es[p].(next := e)])
  }

  /** `a.setPrev(b)` and `b.setNext(a)` leave the same mesh. */
  lemma SetPrevIsSetNext(m: Mesh, a: EdgeId, b: EdgeId)
    requires a in m.edges && b in m.edges
    ensures SetPrev(m, a, b) == SetNext(m, b, a)
  {
    var l, r := SetPrev(m, a, b), SetNext(m, b, a);
    assert forall x :: x in l.edges <==> x in r.edges;
    assert l.edges == r.edges;
  }

  /** `setPairingEdge(t)`: makes the pairing symmetric. */
  function SetPairing(m: Mesh, e: EdgeId, t: EdgeId): (r: Mesh)
    requires e in m.edges && t in m.edges
    ensures r.faces == m.faces && r.edges.Keys == m.edges.Keys
    ensures r.edges[e].pairing == t && r.edges[t].pairing == e
    ensures forall x :: x in m.edges ==> r.edges[x] == m.edges[x].(pairing := r.edges[x].pairing)
    ensures forall x :: x in m.edges && x != e && x != t ==> r.edges[x] == m.edges[x]
  {
    var es := m.edges[e := m.edges[e].(pairing := t)];
    m.(edges := es[t := es[t].(pairing := e)])
  }

  /** Pairing is symmetric in its two arguments. */
  lemma SetPairingSymmetric(m: Mesh, e: EdgeId, t: EdgeId)
    requires e in m.edges && t in m.edges
    ensures SetPairing(m, e, t) == SetPairing(m, t, e)
  {
    var l, r := SetPairing(m, e, t), SetPairing(m, t, e);
    assert forall x :: x in l.edges <==> x in r.edges;
    assert l.edges == r.edges;
  }

  // ---------------------------------------------------------------------------
  // Visibility
  // ---------------------------------------------------------------------------

  /** `math::pointToPlane(point, planePoint, normal)`, which is not part of
      this model. */
  type PointToPlane = (Vec3, Vec3, Vec3) -> real

  /** `isVertexVisible(vert, epsilon)`: strictly above this edge's face plane
      by more than `epsilon`. */
  function IsVertexVisible(m: Mesh, e: EdgeId, vert: Vec3, epsilon: real, dist: PointToPlane): (r: Result<bool>)
    ensures r.Ok? <==> e in m.edges && m.edges[e].face in m.faces
    ensures r.Ok? ==> (r.value <==>
      dist(vert, m.faces[m.edges[e].face].centroid, m.faces[m.edges[e].face].normal) > epsilon)
  {
    if e !in m.edges || m.edges[e].face !in m.faces then Err("null edge or face")
    else
      var f := m.faces[m.edges[e].face];
      Ok(dist(vert, f.centroid, f.normal) > epsilon)
  }

  /** `isEdgeHorizonFromVertex(vert, epsilon)`: visible from this edge's face
      and not from its twin's. */
  function IsEdgeHorizon(m: Mesh, e: EdgeId, vert: Vec3, epsilon: real, dist: PointToPlane): (r: Result<bool>)
    ensures r.Ok? ==> e in m.edges
    ensures r.Ok? <==>
      IsVertexVisible(m, e, vert, epsilon, dist).Ok?
      && (IsVertexVisible(m, e, vert, epsilon, dist) == Ok(true) ==>
            IsVertexVisible(m, m.edges[e].pairing, vert, epsilon, dist).Ok?)
    ensures r.Ok? ==> (r.value <==>
      IsVertexVisible(m, e, vert, epsilon, dist) == Ok(true)
      && IsVertexVisible(m, m.edges[e].pairing, vert, epsilon, dist) == Ok(false))
  {
    var here :- IsVertexVisible(m, e, vert, epsilon, dist);
    if !here then Ok(false)
    else
      var there :- IsVertexVisible(m, m.edges[e].pairing, vert, epsilon, dist);
      Ok(!there)
  }

  /** With a symmetric pairing, an edge and its twin are never both horizon
      edges for the same vertex. */
  lemma HorizonNotBothWays(m: Mesh, e: EdgeId, vert: Vec3, epsilon: real, dist: PointToPlane)
    requires e in m.edges && m.edges[e].pairing in m.edges
    requires m.edges[m.edges[e].pairing].pairing == e
    ensures !(IsEdgeHorizon(m, e, vert, epsilon, dist) == Ok(true)
              && IsEdgeHorizon(m, m.edges[e].pairing, vert, epsilon, dist) == Ok(true))
  {
  }

  // ---------------------------------------------------------------------------
  // Loops
  // ---------------------------------------------------------------------------

  /** `a.next == b` and `b.prev == a`. */
  predicate Linked(m: Mesh, a: EdgeId, b: EdgeId) {
    a in m.edges && b in m.edges && m.edges[a].next == b && m.edges[b].prev == a
  }

  predicate Distinct(s: seq<EdgeId>) {
    forall i, j :: 0 <= i < j < |s| ==> s[i] != s[j]
  }

  /** Consecutive edges of `s` are linked both ways. */
  predicate Chain(m: Mesh, s: seq<EdgeId>) {
    && (forall i :: 0 <= i < |s| ==> s[i] in m.edges)
    && (forall i :: 0 <= i < |s| - 1 ==> Linked(m, s[i], s[i + 1]))
  }

  /** `s` is a closed loop of distinct edges. */
  predicate IsLoop(m: Mesh, s: seq<EdgeId>) {
    |s| >= 1 && Distinct(s) && Chain(m, s) && Linked(m, s[|s| - 1], s[0])
  }

  /** A chain survives any change that keeps the links it uses. */
  lemma ChainFrame(m: Mesh, r: Mesh, s: seq<EdgeId>)
    requires Chain(m, s)
    requires forall i :: 0 <= i < |s| ==> s[i] in r.edges
    requires forall i :: 0 <= i < |s| - 1 ==> r.edges[s[i]].next == m.edges[s[i]].next
    requires forall i :: 1 <= i < |s| ==> r.edges[s[i]].prev == m.edges[s[i]].prev
    ensures Chain(m, s) && Chain(r, s)
  {
    forall i | 0 <= i < |s| - 1 ensures Linked(r, s[i], s[i + 1]) {
      assert Linked(m, s[i], s[i + 1]);
    }
  }

  /** Joining two disjoint chains end to end, both ways round, closes a loop. */
  lemma Join(m: Mesh, xs: seq<EdgeId>, ys: seq<EdgeId>)
    requires |xs| >= 1 && |ys| >= 1
    requires Distinct(xs + ys)
    requires Chain(m, xs) && Chain(m, ys)
    requires Linked(m, xs[|xs| - 1], ys[0]) && Linked(m, ys[|ys| - 1], xs[0])
    ensures IsLoop(m, xs + ys)
  {
    var s := xs + ys;
    forall i | 0 <= i < |s| - 1 ensures Linked(m, s[i], s[i + 1]) {
      if i < |xs| - 1 {
        assert s[i] == xs[i] && s[i + 1] == xs[i + 1];
      } else if i == |xs| - 1 {
        assert s[i] == xs[|xs| - 1] && s[i + 1] == ys[0];
      } else {
        assert s[i] == ys[i - |xs|] && s[i + 1] == ys[i - |xs| + 1];
      }
    }
  }

  /** The chain of a loop's tail. */
  lemma LoopTail(m: Mesh, x: EdgeId, s: seq<EdgeId>)
    requires IsLoop(m, [x] + s) && |s| >= 1
    ensures Chain(m, s) && Linked(m, x, s[0]) && Linked(m, s[|s| - 1], x)
    ensures x !in s && Distinct(s)
  {
    var l := [x] + s;
    forall i | 0 <= i < |s| ensures s[i] in m.edges {
      assert l[i + 1] == s[i];
    }
    forall i | 0 <= i < |s| - 1 ensures Linked(m, s[i], s[i + 1]) {
      assert l[i + 1] == s[i] && l[i + 2] == s[i + 1];
    }
    assert l[1] == s[0];
    forall i | 0 <= i < |s| ensures s[i] != x {
      assert l[i + 1] == s[i];
    }
    forall i, j | 0 <= i < j < |s| ensures s[i] != s[j] {
      assert l[i + 1] == s[i] && l[j + 1] == s[j];
    }
  }

  /** The chain of a loop's middle after two leading edges. */
  lemma LoopTail2(m: Mesh, x: EdgeId, y: EdgeId, s: seq<EdgeId>)
    requires IsLoop(m, [x, y] + s) && |s| >= 1
    ensures Chain(m, s) && Linked(m, x, y) && Linked(m, y, s[0]) && Linked(m, s[|s| - 1], x)
    ensures x !in s && y !in s && x != y && Distinct(s)
  {
    var l := [x, y] + s;
    assert l[0] == x && l[1] == y && l[2] == s[0];
    forall i | 0 <= i < |s| ensures s[i] in m.edges {
      assert l[i + 2] == s[i];
    }
    forall i | 0 <= i < |s| - 1 ensures Linked(m, s[i], s[i + 1]) {
      assert l[i + 2] == s[i] && l[i + 3] == s[i + 1];
    }
    forall i | 0 <= i < |s| ensures s[i] != x && s[i] != y {
      assert l[i + 2] == s[i];
    }
    forall i, j | 0 <= i < j < |s| ensures s[i] != s[j] {
      assert l[i + 2] == s[i] && l[j + 2] == s[j];
    }
  }

  /** A loop read from any of its edges is a loop. */
  lemma LoopRotate(m: Mesh, s: seq<EdgeId>, k: nat)
    requires IsLoop(m, s) && 0 < k < |s|
    ensures IsLoop(m, s[k..] + s[..k])
  {
    var xs, ys := s[k..], s[..k];
    forall i | 0 <= i < |xs| - 1 ensures Linked(m, xs[i], xs[i + 1]) {
      assert xs[i] == s[k + i] && xs[i + 1] == s[k + i + 1];
    }
    assert Linked(m, s[k - 1], s[k]);
    assert Distinct(xs + ys) by {
      var r := xs + ys;
      forall i, j | 0 <= i < j < |r| ensures r[i] != r[j] {
        var si := if i < |xs| then k + i else i - |xs|;
        var sj := if j < |xs| then k + j else j - |xs|;
        assert r[i] == s[si] && r[j] == s[sj] && si != sj;
      }
    }
    Join(m, xs, ys);
  }

  // ---------------------------------------------------------------------------
  // forEachEdge
  // ---------------------------------------------------------------------------

  /** The walk of `forEachEdge`: from `cur`, follow `next` until the edge
      after the current one is `start`.  `fuel` bounds a walk that never
      returns. */
  function WalkFrom(m: Mesh, start: EdgeId, cur: EdgeId, fuel: nat): (r: Result<seq<EdgeId>>)
    ensures r.Ok? ==> |r.value| >= 1 && r.value[0] == cur
    ensures r.Ok? ==> forall i :: 0 <= i < |r.value| ==> r.value[i] in m.edges
    decreases fuel
  {
    if cur !in m.edges then Err("null edge in face loop")
    else if fuel == 0 then Err("face loop does not close")
    else if m.edges[cur].next == start then Ok([cur])
    else
      var rest :- WalkFrom(m, start, m.edges[cur].next, fuel - 1);
      Ok([cur] + rest)
  }

  /** `face->forEachEdge(f)` visits the edges of the loop through the face's
      start edge, once each, in order; its bound is the number of edges. */
  function FaceEdges(m: Mesh, f: FaceId): (r: Result<seq<EdgeId>>)
    ensures r.Ok? ==> |r.value| >= 1 && f in m.faces && r.value[0] == m.faces[f].start
  {
    if f !in m.faces then Err("null face")
    else WalkFrom(m, m.faces[f].start, m.faces[f].start, |m.edges|)
  }

  /** On a loop, the walk from its first edge returns the loop. */
  lemma {:induction false} WalkLoop(m: Mesh, s: seq<EdgeId>, k: nat, fuel: nat)
    requires IsLoop(m, s) && k < |s| && fuel >= |s| - k
    ensures WalkFrom(m, s[0], s[k], fuel) == Ok(s[k..])
    decreases |s| - k
  {
    if k < |s| - 1 {
      assert Linked(m, s[k], s[k + 1]);
      assert s[k + 1] != s[0];
      WalkLoop(m, s, k + 1, fuel - 1);
      assert s[k..] == [s[k]] + s[k + 1..];
      assert WalkFrom(m, s[0], s[k], fuel) == Ok([s[k]] + s[k + 1..]);
    } else {
      assert Linked(m, s[|s| - 1], s[0]);
      assert s[k..] == [s[k]];
    }
  }

  /** A loop has no more edges than the mesh. */
  lemma {:induction false} LoopFitsMesh(s: seq<EdgeId>, keys: set<EdgeId>)
    requires Distinct(s)
    requires forall i :: 0 <= i < |s| ==> s[i] in keys
    ensures |s| <= |keys|
    decreases |s|
  {
    if s != [] {
      var x := s[|s| - 1];
      var s' := s[..|s| - 1];
      forall i | 0 <= i < |s'| ensures s'[i] in keys - {x} {
        assert s'[i] == s[i];
      }
      LoopFitsMesh(s', keys - {x});
    }
  }

  /** `forEachEdge` on a face whose start edge begins a loop visits exactly
      that loop. */
  lemma FaceEdgesOfLoop(m: Mesh, f: FaceId, s: seq<EdgeId>)
    requires f in m.faces && IsLoop(m, s) && s[0] == m.faces[f].start
    ensures FaceEdges(m, f) == Ok(s)
  {
    LoopFitsMesh(s, m.edges.Keys);
    WalkLoop(m, s, 0, |m.edges|);
  }

  /** The starting vertices of the edges of `s`, in order. */
  function Positions(m: Mesh, s: seq<EdgeId>): (ps: seq<Vec3>)
    requires forall i :: 0 <= i < |s| ==> s[i] in m.edges
    ensures |ps| == |s|
    ensures forall i :: 0 <= i < |s| ==> ps[i] == m.edges[s[i]].position
  {
    if s == [] then [] else [m.edges[s[0]].position] + Positions(m, s[1..])
  }

  /** `forEachEdge(setEdgeFace)`: every edge of the face's loop gets the face. */
  function SetFaceOf(m: Mesh, s: seq<EdgeId>, f: FaceId): (r: Mesh)
    requires forall i :: 0 <= i < |s| ==> s[i] in m.edges
    ensures r.faces == m.faces && r.edges.Keys == m.edges.Keys
    ensures forall x :: x in m.edges ==>
      r.edges[x] == if x in s then m.edges[x].(face := f) else m.edges[x]
    decreases |s|
  {
    if s == [] then m
    else
      var x := s[0];
      var r := SetFaceOf(m.(edges := m.edges[x := m.edges[x].(face := f)]), s[1..], f);
      assert forall y :: y in s <==> y == x || y in s[1..];
      r
  }
}
