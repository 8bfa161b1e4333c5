/** `HalfEdgeEdge::suicidalMergeWithPairing`: an edge merges the face of its
    twin into its own face and deletes itself and the twin.  Every pointer
    the source dereferences is looked up in the mesh; a dangling one (which
    the source would dereference anyway) yields `Err`.  The geometric tests
    are parameters. */
module HalfEdgeMerge {
  import opened Base
  import opened HalfEdge

  /** `PhysicsStatics::isNewellFacesCoplanar(face, other, edge, epsilon, ...)`. */
  type Coplanar = (Mesh, FaceId, FaceId, EdgeId, real) -> bool

  /** The normal `PhysicsStatics::CalculateNewellPlane` computes from a
      face's vertices. */
  type NewellNormal = seq<Vec3> -> Vec3

  function GetEdge(m: Mesh, x: EdgeId): (r: Result<Edge>)
    ensures r.Ok? <==> x in m.edges
    ensures r.Ok? ==> r.value == m.edges[x]
  {
    if x in m.edges then Ok(m.edges[x]) else Err("dangling edge")
  }

  function GetFace(m: Mesh, f: FaceId): (r: Result<Face>)
    ensures r.Ok? <==> f in m.faces
    ensures r.Ok? ==> r.value == m.faces[f]
  {
    if f in m.faces then Ok(m.faces[f]) else Err("dangling face")
  }

  /** The state after the splice: the mesh, the four edges the source names
      `prevFromCurrent`, `prevFromCurrentConnection`, `nextFromCurrent` and
      `nextFromCurrentConnection`, and the released vertices so far. */
  datatype Spliced = Spliced(mesh: Mesh, pfc: EdgeId, pfcc: EdgeId, nfc: EdgeId, nfcc: EdgeId, unmerged: seq<Vec3>)

  /** The splice: release the twin's face, link the twin's neighbours into
      this edge's face loop in place of this edge, move the start edge, set
      the normal and delete the twin's face. */
  function Splice(m: Mesh, e: EdgeId, unmerged: seq<Vec3>, normal: Vec3): Result<Spliced>
  {
    var E :- GetEdge(m, e);
    var T :- GetEdge(m, E.pairing);
    var mergeFace := T.face;
    var MF :- GetFace(m, mergeFace);
    var unmerged1 := unmerged + MF.verts;
    var pfc := T.prev;
    var PFC :- GetEdge(m, pfc);
    var X :- GetEdge(m, PFC.next);
    var Y :- GetEdge(m, X.pairing);
    var pfcc := Y.next;
    var _ :- GetEdge(m, pfcc);
    var m1 := SetNext(m, pfc, pfcc);
    var E1 :- GetEdge(m1, e);
    var T1 :- GetEdge(m1, E1.pairing);
    var nfc := T1.next;
    var NFC :- GetEdge(m1, nfc);
    var X1 :- GetEdge(m1, NFC.prev);
    var Y1 :- GetEdge(m1, X1.pairing);
    var nfcc := Y1.prev;
    var _ :- GetEdge(m1, nfcc);
    var m2 := SetPrev(m1, nfc, nfcc);
    var E2 :- GetEdge(m2, e);
    var F :- GetFace(m2, E2.face);
    var m3 := m2.(faces := m2.faces[E2.face := F.(start := pfc, normal := normal)]);
    var m4 := m3.(faces := m3.faces - {mergeFace});
    Ok(Spliced(m4, pfc, pfcc, nfc, nfcc, unmerged1))
  }

  /** The state after the two edge pairs are cut out: the mesh, the edge
      before `a` (`prevFromPFC`), the absorbed face and the released vertices. */
  datatype Cut = Cut(mesh: Mesh, before: EdgeId, absorbed: FaceId, unmerged: seq<Vec3>)

  /** The first part of `handleDoubleAdjacentMergeResult(a, b)`, for
      consecutive edges `a`, `b` of this edge's face whose twins lie in one
      face: that face is released, the edge before `a` is linked to the edge
      after `a`'s twin, the edge after `b` to the edge before `b`'s twin, and
      both edge pairs are deleted. */
  function CutPairs(m: Mesh, a: EdgeId, b: EdgeId, unmerged: seq<Vec3>): Result<Cut>
  {
    var A :- GetEdge(m, a);
    var Ap :- GetEdge(m, A.pairing);
    var N := Ap.face;
    var NF :- GetFace(m, N);
    var unmerged1 := unmerged + NF.verts;
    var pa := A.prev;
    var nn := Ap.next;
    var _ :- GetEdge(m, pa);
    var _ :- GetEdge(m, nn);
    var m1 := SetNext(m, pa, nn);
    var B :- GetEdge(m1, b);
    var nb := B.next;
    var Bp :- GetEdge(m1, B.pairing);
    var np := Bp.prev;
    var _ :- GetEdge(m1, nb);
    var _ :- GetEdge(m1, np);
    var m2 := SetPrev(m1, nb, np);
    var A2 :- GetEdge(m2, a);
    var m3 := m2.(edges := m2.edges - {A2.pairing, a});
    var B3 :- GetEdge(m3, b);
    var m4 := m3.(edges := m3.edges - {B3.pairing, b});
    Ok(Cut(m4, pa, N, unmerged1))
  }

  /** `handleDoubleAdjacentMergeResult(a, b)`: after the cut, this edge's
      face starts at the edge before `a`, its normal is recomputed from the
      vertices `forEachEdge` visits, and the absorbed face is deleted. */
  function Absorb(m: Mesh, e: EdgeId, a: EdgeId, b: EdgeId, unmerged: seq<Vec3>,
                  newell: NewellNormal): Result<(Mesh, seq<Vec3>)>
  {
    var c :- CutPairs(m, a, b, unmerged);
    Refit(c, e, newell)
  }

  /** The end of `handleDoubleAdjacentMergeResult`, after the cut. */
  function Refit(c: Cut, e: EdgeId, newell: NewellNormal): Result<(Mesh, seq<Vec3>)>
  {
    var E :- GetEdge(c.mesh, e);
    var F :- GetFace(c.mesh, E.face);
    var m5 := c.mesh.(faces := c.mesh.faces[E.face := F.(start := c.before)]);
    var loop :- FaceEdges(m5, E.face);
    var m6 := m5.(faces := m5.faces[E.face := m5.faces[E.face].(normal := newell(Positions(m5, loop)))]);
    Ok((m6.(faces := m6.faces - {c.absorbed}), c.unmerged))
  }

  /** One of the two double-adjacency checks: when the twins of the
      consecutive edges `a`, `b` lie in one face, every edge of this face is
      relabelled with it, and the neighbour is absorbed if the coplanarity
      test (asked with the face of `other`'s twin and the edge `a`) accepts. */
  function DoubleAdjacent(m: Mesh, e: EdgeId, a: EdgeId, b: EdgeId, other: EdgeId, unmerged: seq<Vec3>,
                          epsilon: real, coplanar: Coplanar, newell: NewellNormal): Result<(Mesh, seq<Vec3>)>
  {
    var A :- GetEdge(m, a);
    var Ap :- GetEdge(m, A.pairing);
    var B :- GetEdge(m, b);
    var Bp :- GetEdge(m, B.pairing);
    if Ap.face != Bp.face then Ok((m, unmerged))
    else
      var E :- GetEdge(m, e);
      var loop :- FaceEdges(m, E.face);
      var m1 := SetFaceOf(m, loop, E.face);
      var O :- GetEdge(m1, other);
      var Op :- GetEdge(m1, O.pairing);
      if coplanar(m1, E.face, Op.face, a, epsilon) then Absorb(m1, e, a, b, unmerged, newell)
      else Ok((m1, unmerged))
  }

  /** `suicidalMergeWithPairing(unmergedVertices, normal, epsilon)`.
      `initializeFace` is not part of this model and leaves the mesh as is. */
  function MergeWithPairing(m: Mesh, e: EdgeId, unmerged: seq<Vec3>, normal: Vec3, epsilon: real,
                            coplanar: Coplanar, newell: NewellNormal): Result<(Mesh, seq<Vec3>)>
  {
    var sp :- Splice(m, e, unmerged, normal);
    var r1 :- DoubleAdjacent(sp.mesh, e, sp.pfc, sp.pfcc, sp.pfc, sp.unmerged, epsilon, coplanar, newell);
    var r2 :- DoubleAdjacent(r1.0, e, sp.nfcc, sp.nfc, sp.nfc, r1.1, epsilon, coplanar, newell);
    var E :- GetEdge(r2.0, e);
    Ok((r2.0.(edges := r2.0.edges - {E.pairing, e}), r2.1))
  }

  // ---------------------------------------------------------------------------
  // Frame lemmas
  // ---------------------------------------------------------------------------

  /** A loop survives any change that keeps its edges and their links. */
  lemma LoopFrame(m: Mesh, r: Mesh, s: seq<EdgeId>)
    requires IsLoop(m, s)
    requires forall i :: 0 <= i < |s| ==>
      s[i] in r.edges && r.edges[s[i]].next == m.edges[s[i]].next && r.edges[s[i]].prev == m.edges[s[i]].prev
    ensures IsLoop(r, s)
  {
    ChainFrame(m, r, s);
    assert Linked(m, s[|s| - 1], s[0]);
  }

  /** The pairwise disjointness of two edge lists. */
  predicate Disjoint(xs: seq<EdgeId>, ys: seq<EdgeId>) {
    forall i, j :: 0 <= i < |xs| && 0 <= j < |ys| ==> xs[i] != ys[j]
  }

  lemma DistinctAppend(xs: seq<EdgeId>, ys: seq<EdgeId>)
    requires Distinct(xs) && Distinct(ys) && Disjoint(xs, ys)
    ensures Distinct(xs + ys)
  {
    var s := xs + ys;
    forall i, j | 0 <= i < j < |s| ensures s[i] != s[j] {
      if j < |xs| {
        assert s[i] == xs[i] && s[j] == xs[j];
      } else if i < |xs| {
        assert s[i] == xs[i] && s[j] == ys[j - |xs|];
      } else {
        assert s[i] == ys[i - |xs|] && s[j] == ys[j - |xs|];
      }
    }
  }

  // ---------------------------------------------------------------------------
  // The splice
  // ---------------------------------------------------------------------------

  /** The precondition of the main case: edge `e` in the loop `[e] + fs`, its
      twin `t` in the disjoint loop `[t] + ms`, the pairing symmetric and the
      two faces distinct and present. */
  ghost predicate MergeSetting(m: Mesh, e: EdgeId, fs: seq<EdgeId>, ms: seq<EdgeId>) {
    && e in m.edges
    && var t := m.edges[e].pairing;
    && t in m.edges && m.edges[t].pairing == e
    && |fs| >= 1 && |ms| >= 1
    && IsLoop(m, [e] + fs) && IsLoop(m, [t] + ms)
    && Disjoint([e] + fs, [t] + ms)
    && m.edges[e].face in m.faces && m.edges[t].face in m.faces
    && m.edges[e].face != m.edges[t].face
  }

  /** The facts about the two loops of `MergeSetting` the splice uses. */
  lemma SettingFacts(m: Mesh, e: EdgeId, fs: seq<EdgeId>, ms: seq<EdgeId>)
    requires MergeSetting(m, e, fs, ms)
    ensures var t := m.edges[e].pairing;
      && Chain(m, fs) && Chain(m, ms) && Distinct(fs) && Distinct(ms) && Disjoint(fs, ms)
      && Linked(m, e, fs[0]) && Linked(m, fs[|fs| - 1], e)
      && Linked(m, t, ms[0]) && Linked(m, ms[|ms| - 1], t)
      && e !in fs && e !in ms && t !in fs && t !in ms && e != t
  {
    var t := m.edges[e].pairing;
    LoopTail(m, e, fs);
    LoopTail(m, t, ms);
    var lf, lm := [e] + fs, [t] + ms;
    assert lf[0] == e && lm[0] == t;
    assert forall j :: 0 <= j < |ms| ==> lm[j + 1] == ms[j];
    assert forall j :: 0 <= j < |fs| ==> lf[j + 1] == fs[j];
  }

  /** The mesh the splice's two link operations leave. */
  function SplicedLinks(m: Mesh, fs: seq<EdgeId>, ms: seq<EdgeId>): Mesh
    requires |fs| >= 1 && |ms| >= 1
    requires fs[0] in m.edges && fs[|fs| - 1] in m.edges && ms[0] in m.edges && ms[|ms| - 1] in m.edges
  {
    SetPrev(SetNext(m, ms[|ms| - 1], fs[0]), ms[0], fs[|fs| - 1])
  }

  /** Linking the end of `ys` to the head of `xs` with `setNext`, then the
      head of `ys` to the end of `xs` with `setPrev`, closes `xs + ys`. */
  lemma JoinLinks(m: Mesh, xs: seq<EdgeId>, ys: seq<EdgeId>)
    requires |xs| >= 1 && |ys| >= 1
    requires Chain(m, xs) && Chain(m, ys) && Distinct(xs) && Distinct(ys) && Disjoint(xs, ys)
    ensures IsLoop(SplicedLinks(m, xs, ys), xs + ys)
  {
    var P, f0, n0, L := ys[|ys| - 1], xs[0], ys[0], xs[|xs| - 1];
    var m1 := SetNext(m, P, f0);
    var m2 := SetPrev(m1, n0, L);
    assert forall i :: 0 <= i < |xs| - 1 ==> xs[i] != L && xs[i] != P;
    assert forall i :: 1 <= i < |ys| ==> ys[i] != n0 && ys[i] != f0;
    assert forall i :: 1 <= i < |xs| ==> xs[i] != n0 && xs[i] != f0;
    assert forall i :: 0 <= i < |ys| - 1 ==> ys[i] != L && ys[i] != P;
    ChainFrame(m, m2, xs);
    ChainFrame(m, m2, ys);
    assert Linked(m2, P, f0) && Linked(m2, L, n0);
    DistinctAppend(xs, ys);
    Join(m2, xs, ys);
  }

  /** After the splice's two link operations, `fs + ms` is a loop. */
  lemma SplicedLinksLoop(m: Mesh, e: EdgeId, fs: seq<EdgeId>, ms: seq<EdgeId>)
    requires MergeSetting(m, e, fs, ms)
    ensures fs[0] in m.edges && fs[|fs| - 1] in m.edges && ms[0] in m.edges && ms[|ms| - 1] in m.edges
    ensures IsLoop(SplicedLinks(m, fs, ms), fs + ms)
  {
    SettingFacts(m, e, fs, ms);
    JoinLinks(m, fs, ms);
  }

  /** The splice reads the four named edges off the two loops. */
  lemma SpliceSteps(m: Mesh, e: EdgeId, fs: seq<EdgeId>, ms: seq<EdgeId>, unmerged: seq<Vec3>, normal: Vec3)
    requires MergeSetting(m, e, fs, ms)
    ensures fs[0] in m.edges && fs[|fs| - 1] in m.edges && ms[0] in m.edges && ms[|ms| - 1] in m.edges
    ensures var t := m.edges[e].pairing;
      var F := m.edges[e].face;
      var M := m.edges[t].face;
      var m2 := SplicedLinks(m, fs, ms);
      Splice(m, e, unmerged, normal) == Ok(Spliced(
        m2.(faces := m2.faces[F := m.faces[F].(start := ms[|ms| - 1], normal := normal)] - {M}),
        ms[|ms| - 1], fs[0], ms[0], fs[|fs| - 1], unmerged + m.faces[M].verts))
  {
    SettingFacts(m, e, fs, ms);
    var t := m.edges[e].pairing;
    var P, f0, n0, L := ms[|ms| - 1], fs[0], ms[0], fs[|fs| - 1];
    assert m.edges[t].prev == P && m.edges[P].next == t && m.edges[e].next == f0;
    var m1 := SetNext(m, P, f0);
    assert e != P && e != f0 && t != P && n0 != f0;
    assert m1.edges[e] == m.edges[e];
    assert m1.edges[t].next == n0 && m1.edges[n0].prev == t && m1.edges[e].prev == L;
    var m2 := SetPrev(m1, n0, L);
    assert m2.edges[e] == m.edges[e] && m2.faces == m.faces;
  }

  /** Main case: this edge's face loop becomes its own loop with this edge
      replaced by the twin's loop without the twin, read from `twin.next` to
      `twin.prev`; the start edge is `twin.prev`, the normal the given one;
      the twin's face is gone and its vertices released; only links changed. */
  lemma SpliceResult(m: Mesh, e: EdgeId, fs: seq<EdgeId>, ms: seq<EdgeId>, unmerged: seq<Vec3>, normal: Vec3)
    requires MergeSetting(m, e, fs, ms)
    ensures var r := Splice(m, e, unmerged, normal);
      var t := m.edges[e].pairing;
      var F := m.edges[e].face;
      var M := m.edges[t].face;
      && r.Ok?
      && r.value.pfc == ms[|ms| - 1] && r.value.pfcc == fs[0]
      && r.value.nfc == ms[0] && r.value.nfcc == fs[|fs| - 1]
      && IsLoop(r.value.mesh, fs + ms)
      && OnlyLinksChanged(m, r.value.mesh.(faces := m.faces))
      && r.value.mesh.faces.Keys == m.faces.Keys - {M}
      && r.value.mesh.faces[F] == m.faces[F].(start := ms[|ms| - 1], normal := normal)
      && (forall g :: g in m.faces && g != F && g != M ==> r.value.mesh.faces[g] == m.faces[g])
      && r.value.unmerged == unmerged + m.faces[M].verts
  {
    SpliceSteps(m, e, fs, ms, unmerged, normal);
    SplicedLinksLoop(m, e, fs, ms);
    var m2 := SplicedLinks(m, fs, ms);
    var r := Splice(m, e, unmerged, normal);
    LoopFrame(m2, r.value.mesh, fs + ms);
  }

  // ---------------------------------------------------------------------------
  // Absorbing a doubly adjacent face
  // ---------------------------------------------------------------------------

  /** The precondition of an absorption: `a`, `b` lead the loop
      `[a, b] + gs` of this edge's face, their twins `a'`, `b'` lie in the
      disjoint loop `[b', a'] + ns` of another face, and this edge `e` is in
      neither loop. */
  ghost predicate AbsorbSetting(m: Mesh, e: EdgeId, a: EdgeId, b: EdgeId, gs: seq<EdgeId>, ns: seq<EdgeId>) {
    && a in m.edges && b in m.edges && e in m.edges
    && var ap := m.edges[a].pairing;
    && var bp := m.edges[b].pairing;
    && ap in m.edges && bp in m.edges
    && |gs| >= 1 && |ns| >= 1
    && IsLoop(m, [a, b] + gs) && IsLoop(m, [bp, ap] + ns)
    && Disjoint([a, b] + gs, [bp, ap] + ns)
    && e !in [a, b] + gs && e !in [bp, ap] + ns
    && m.edges[e].face in m.faces && m.edges[ap].face in m.faces
    && m.edges[e].face != m.edges[ap].face
  }

  /** The facts about the two loops of `AbsorbSetting` the cut uses. */
  lemma AbsorbFacts(m: Mesh, e: EdgeId, a: EdgeId, b: EdgeId, gs: seq<EdgeId>, ns: seq<EdgeId>)
    requires AbsorbSetting(m, e, a, b, gs, ns)
    ensures var ap := m.edges[a].pairing;
      var bp := m.edges[b].pairing;
      && Chain(m, gs) && Chain(m, ns) && Distinct(gs) && Distinct(ns) && Disjoint(ns, gs)
      && Linked(m, a, b) && Linked(m, b, gs[0]) && Linked(m, gs[|gs| - 1], a)
      && Linked(m, bp, ap) && Linked(m, ap, ns[0]) && Linked(m, ns[|ns| - 1], bp)
      && a !in gs && b !in gs && ap !in gs && bp !in gs && e !in gs
      && a !in ns && b !in ns && ap !in ns && bp !in ns && e !in ns
      && a != b && ap != bp && a != ap && a != bp && b != ap && b != bp
  {
    var ap := m.edges[a].pairing;
    var bp := m.edges[b].pairing;
    LoopTail2(m, a, b, gs);
    LoopTail2(m, bp, ap, ns);
    var lg, ln := [a, b] + gs, [bp, ap] + ns;
    assert lg[0] == a && lg[1] == b && ln[0] == bp && ln[1] == ap;
    assert forall j :: 0 <= j < |gs| ==> lg[j + 2] == gs[j];
    assert forall j :: 0 <= j < |ns| ==> ln[j + 2] == ns[j];
  }

  /** The cut reads its edges off the two loops. */
  lemma CutPairsSteps(m: Mesh, e: EdgeId, a: EdgeId, b: EdgeId, gs: seq<EdgeId>, ns: seq<EdgeId>, unmerged: seq<Vec3>)
    requires AbsorbSetting(m, e, a, b, gs, ns)
    ensures ns[0] in m.edges && ns[|ns| - 1] in m.edges && gs[0] in m.edges && gs[|gs| - 1] in m.edges
    ensures var ap := m.edges[a].pairing;
      var bp := m.edges[b].pairing;
      var m2 := SplicedLinks(m, ns, gs);
      CutPairs(m, a, b, unmerged) == Ok(Cut(m2.(edges := m2.edges - {ap, a} - {bp, b}),
        gs[|gs| - 1], m.edges[ap].face, unmerged + m.faces[m.edges[ap].face].verts))
  {
    AbsorbFacts(m, e, a, b, gs, ns);
    var ap := m.edges[a].pairing;
    var bp := m.edges[b].pairing;
    var pa, nn, nb, np := gs[|gs| - 1], ns[0], gs[0], ns[|ns| - 1];
    var m1 := SetNext(m, pa, nn);
    assert m1.edges[b].next == nb && m1.edges[b].pairing == bp && m1.edges[bp].prev == np;
    var m2 := SetPrev(m1, nb, np);
    assert m2.edges[a].pairing == ap;
  }

  /** After the cut, `ns + gs` is a loop of the remaining edges. */
  lemma CutPairsLoop(m: Mesh, e: EdgeId, a: EdgeId, b: EdgeId, gs: seq<EdgeId>, ns: seq<EdgeId>, unmerged: seq<Vec3>)
    requires AbsorbSetting(m, e, a, b, gs, ns)
    ensures var ap := m.edges[a].pairing;
      var bp := m.edges[b].pairing;
      var c := CutPairs(m, a, b, unmerged);
      && c.Ok?
      && IsLoop(c.value.mesh, ns + gs)
      && c.value.mesh.edges.Keys == m.edges.Keys - {a, b, ap, bp}
      && c.value.mesh.faces == m.faces
      && (forall x :: x in c.value.mesh.edges ==>
            c.value.mesh.edges[x] == m.edges[x].(next := c.value.mesh.edges[x].next, prev := c.value.mesh.edges[x].prev))
  {
    AbsorbFacts(m, e, a, b, gs, ns);
    CutPairsSteps(m, e, a, b, gs, ns, unmerged);
    var ap := m.edges[a].pairing;
    var bp := m.edges[b].pairing;
    JoinLinks(m, ns, gs);
    var m2 := SplicedLinks(m, ns, gs);
    var c := CutPairs(m, a, b, unmerged).value;
    var l := ns + gs;
    assert forall i :: 0 <= i < |l| ==> l[i] != a && l[i] != b && l[i] != ap && l[i] != bp by {
      forall i | 0 <= i < |l| ensures l[i] != a && l[i] != b && l[i] != ap && l[i] != bp {
        if i < |ns| { assert l[i] == ns[i]; } else { assert l[i] == gs[i - |ns|]; }
      }
    }
    LoopFrame(m2, c.mesh, l);
    assert forall x :: x in c.mesh.edges <==> x in m.edges - {a, b, ap, bp};
  }

  /** The loop `ns + gs` read from the last edge of `gs`. */
  function FromBefore(gs: seq<EdgeId>, ns: seq<EdgeId>): seq<EdgeId>
    requires |gs| >= 1
  {
    [gs[|gs| - 1]] + ns + gs[..|gs| - 1]
  }

  /** After the cut, the face starts at the edge before the removed pair
      and is walked, and re-planed, along the new loop. */
  lemma RefitResult(c: Cut, e: EdgeId, loop: seq<EdgeId>, newell: NewellNormal)
    requires IsLoop(c.mesh, loop) && loop[0] == c.before
    requires e in c.mesh.edges && c.mesh.edges[e].face in c.mesh.faces
    requires c.mesh.edges[e].face != c.absorbed
    ensures var F := c.mesh.edges[e].face;
      var r := Refit(c, e, newell);
      && r.Ok?
      && r.value.0.edges == c.mesh.edges
      && IsLoop(r.value.0, loop)
      && FaceEdges(r.value.0, F) == Ok(loop)
      && r.value.0.faces.Keys == c.mesh.faces.Keys - {c.absorbed}
      && r.value.0.faces[F] == c.mesh.faces[F].(start := c.before, normal := newell(Positions(r.value.0, loop)))
      && r.value.1 == c.unmerged
  {
    var F := c.mesh.edges[e].face;
    var m5 := c.mesh.(faces := c.mesh.faces[F := c.mesh.faces[F].(start := c.before)]);
    LoopFrame(c.mesh, m5, loop);
    FaceEdgesOfLoop(m5, F, loop);
    var r := Refit(c, e, newell).value;
    assert r.0.edges == m5.edges;
    assert Positions(m5, loop) == Positions(r.0, loop);
    LoopFrame(m5, r.0, loop);
    FaceEdgesOfLoop(r.0, F, loop);
  }

  /** Absorption: the neighbour's two shared edge pairs are deleted and the
      rest of its loop takes their place, the start edge is the edge before
      the removed pair, `forEachEdge` walks the new loop from there, the
      normal is the Newell normal of that walk's vertices, the neighbour face
      is deleted and its vertices released. */
  lemma AbsorbResult(m: Mesh, e: EdgeId, a: EdgeId, b: EdgeId, gs: seq<EdgeId>, ns: seq<EdgeId>,
                     unmerged: seq<Vec3>, newell: NewellNormal)
    requires AbsorbSetting(m, e, a, b, gs, ns)
    ensures var ap := m.edges[a].pairing;
      var bp := m.edges[b].pairing;
      var F := m.edges[e].face;
      var N := m.edges[ap].face;
      var r := Absorb(m, e, a, b, unmerged, newell);
      var loop := FromBefore(gs, ns);
      && r.Ok?
      && r.value.0.edges.Keys == m.edges.Keys - {a, b, ap, bp}
      && IsLoop(r.value.0, loop)
      && FaceEdges(r.value.0, F) == Ok(loop)
      && r.value.0.faces.Keys == m.faces.Keys - {N}
      && r.value.0.faces[F] == m.faces[F].(start := gs[|gs| - 1], normal := newell(Positions(r.value.0, loop)))
      && r.value.1 == unmerged + m.faces[N].verts
  {
    CutFacts(m, e, a, b, gs, ns, unmerged, newell);
    var c := CutPairs(m, a, b, unmerged).value;
    RotateToBefore(c.mesh, gs, ns);
    RefitResult(c, e, FromBefore(gs, ns), newell);
  }

  lemma RotateToBefore(m: Mesh, gs: seq<EdgeId>, ns: seq<EdgeId>)
    requires |gs| >= 1 && |ns| >= 1 && IsLoop(m, ns + gs)
    ensures IsLoop(m, FromBefore(gs, ns))
  {
    var l := ns + gs;
    var k := |l| - 1;
    LoopRotate(m, l, k);
    assert l[k..] + l[..k] == FromBefore(gs, ns) by {
      assert l[k..] == [gs[|gs| - 1]];
      assert l[..k] == ns + gs[..|gs| - 1];
    }
  }

  /** What the absorption needs to know about the cut. */
  lemma CutFacts(m: Mesh, e: EdgeId, a: EdgeId, b: EdgeId, gs: seq<EdgeId>, ns: seq<EdgeId>, unmerged: seq<Vec3>,
                 newell: NewellNormal)
    requires AbsorbSetting(m, e, a, b, gs, ns)
    ensures var ap := m.edges[a].pairing;
      var bp := m.edges[b].pairing;
      var N := m.edges[ap].face;
      var r := CutPairs(m, a, b, unmerged);
      && r.Ok?
      && var c := r.value;
      && Absorb(m, e, a, b, unmerged, newell) == Refit(c, e, newell)
      && IsLoop(c.mesh, ns + gs)
      && c.mesh.edges.Keys == m.edges.Keys - {a, b, ap, bp}
      && c.before == gs[|gs| - 1] && c.absorbed == N
      && c.unmerged == unmerged + m.faces[N].verts
      && e in c.mesh.edges && c.mesh.edges[e].face == m.edges[e].face
      && c.mesh.faces == m.faces
  {
    CutPairsSteps(m, e, a, b, gs, ns, unmerged);
    CutPairsLoop(m, e, a, b, gs, ns, unmerged);
  }

  lemma RotationMembers(s: seq<EdgeId>, k: nat)
    requires k <= |s|
    ensures forall x :: x in s[k..] + s[..k] <==> x in s
  {
    assert s == s[..k] + s[k..];
  }

  /** Relabelling depends only on which edges are listed. */
  lemma SetFaceOfMembers(m: Mesh, s1: seq<EdgeId>, s2: seq<EdgeId>, f: FaceId)
    requires forall x :: x in s1 <==> x in s2
    requires forall i :: 0 <= i < |s1| ==> s1[i] in m.edges
    requires forall i :: 0 <= i < |s2| ==> s2[i] in m.edges
    ensures SetFaceOf(m, s1, f) == SetFaceOf(m, s2, f)
  {
    var l, r := SetFaceOf(m, s1, f), SetFaceOf(m, s2, f);
    assert forall x :: x in l.edges <==> x in r.edges;
    assert forall x :: x in l.edges ==> l.edges[x] == r.edges[x];
    assert l.edges == r.edges;
  }

  /** `forEachEdge(setEdgeFace)` on a face whose start edge lies on the loop
      `s` relabels exactly the edges of `s`. */
  lemma RelabelLoop(m: Mesh, f: FaceId, s: seq<EdgeId>)
    requires f in m.faces && IsLoop(m, s) && m.faces[f].start in s
    ensures FaceEdges(m, f).Ok?
    ensures SetFaceOf(m, FaceEdges(m, f).value, f) == SetFaceOf(m, s, f)
  {
    var k :| 0 <= k < |s| && s[k] == m.faces[f].start;
    if k == 0 {
      FaceEdgesOfLoop(m, f, s);
    } else {
      LoopRotate(m, s, k);
      FaceEdgesOfLoop(m, f, s[k..] + s[..k]);
      RotationMembers(s, k);
      SetFaceOfMembers(m, s[k..] + s[..k], s, f);
    }
  }

  /** Relabelling keeps every link of every edge. */
  lemma SetFaceOfLinks(m: Mesh, s: seq<EdgeId>, f: FaceId)
    requires forall i :: 0 <= i < |s| ==> s[i] in m.edges
    ensures var r := SetFaceOf(m, s, f);
      forall x :: x in m.edges ==>
        x in r.edges && r.edges[x].next == m.edges[x].next && r.edges[x].prev == m.edges[x].prev
        && r.edges[x].pairing == m.edges[x].pairing
        && (x !in s ==> r.edges[x].face == m.edges[x].face)
  {
  }

  /** Relabelling the loop of `a` and `b` with the face of `e` keeps the
      absorb setting. */
  lemma RelabelKeepsAbsorbSetting(m: Mesh, e: EdgeId, a: EdgeId, b: EdgeId, gs: seq<EdgeId>, ns: seq<EdgeId>)
    requires AbsorbSetting(m, e, a, b, gs, ns)
    ensures AbsorbSetting(SetFaceOf(m, [a, b] + gs, m.edges[e].face), e, a, b, gs, ns)
  {
    var F := m.edges[e].face;
    var L := [a, b] + gs;
    var m1 := SetFaceOf(m, L, F);
    AbsorbFacts(m, e, a, b, gs, ns);
    SetFaceOfLinks(m, L, F);
    var ap, bp := m.edges[a].pairing, m.edges[b].pairing;
    assert ap !in L && bp !in L by {
      assert L[0] == a && L[1] == b;
      assert forall j :: 0 <= j < |gs| ==> L[j + 2] == gs[j];
    }
    LoopFrame(m, m1, L);
    LoopFrame(m, m1, [bp, ap] + ns);
  }

  /** One double-adjacency check whose condition holds: the face's loop is
      relabelled, after which the absorption's setting still holds; the
      neighbour is absorbed exactly when the coplanarity test accepts. */
  lemma DoubleAdjacentResult(m: Mesh, e: EdgeId, a: EdgeId, b: EdgeId, other: EdgeId, gs: seq<EdgeId>, ns: seq<EdgeId>,
                             unmerged: seq<Vec3>, epsilon: real, coplanar: Coplanar, newell: NewellNormal)
    requires AbsorbSetting(m, e, a, b, gs, ns)
    requires m.edges[m.edges[a].pairing].face == m.edges[m.edges[b].pairing].face
    requires m.faces[m.edges[e].face].start in [a, b] + gs
    requires other == a || other == b
    ensures var F := m.edges[e].face;
      var N := m.edges[m.edges[a].pairing].face;
      var m1 := SetFaceOf(m, [a, b] + gs, F);
      && AbsorbSetting(m1, e, a, b, gs, ns)
      && (forall x :: x in [a, b] + gs ==> m1.edges[x].face == F)
      && DoubleAdjacent(m, e, a, b, other, unmerged, epsilon, coplanar, newell)
         == if coplanar(m1, F, N, a, epsilon) then Absorb(m1, e, a, b, unmerged, newell) else Ok((m1, unmerged))
  {
    var F := m.edges[e].face;
    var L := [a, b] + gs;
    RelabelLoop(m, F, L);
    RelabelKeepsAbsorbSetting(m, e, a, b, gs, ns);
  }

  // ---------------------------------------------------------------------------
  // The whole merge when no face is doubly adjacent
  // ---------------------------------------------------------------------------

  /** A double-adjacency check whose two twins lie on different faces changes nothing. */
  lemma DoubleAdjacentNone(m: Mesh, e: EdgeId, a: EdgeId, b: EdgeId, other: EdgeId, unmerged: seq<Vec3>,
                           epsilon: real, coplanar: Coplanar, newell: NewellNormal)
    requires a in m.edges && b in m.edges
    requires m.edges[a].pairing in m.edges && m.edges[b].pairing in m.edges
    requires m.edges[m.edges[a].pairing].face != m.edges[m.edges[b].pairing].face
    ensures DoubleAdjacent(m, e, a, b, other, unmerged, epsilon, coplanar, newell) == Ok((m, unmerged))
  {
  }

  /** `suicidalMergeWithPairing` when neither corner of the merged edge joins
      a face twice: the two loops become one loop `fs + ms` owned by the face
      of `e`, whose start is the last edge of the other face and whose normal is
      the given one; the other face is gone, its vertices are queued, and the
      edge and its twin are deleted. */
  lemma MergeMainCase(m: Mesh, e: EdgeId, fs: seq<EdgeId>, ms: seq<EdgeId>, unmerged: seq<Vec3>, normal: Vec3,
                      epsilon: real, coplanar: Coplanar, newell: NewellNormal)
    requires MergeSetting(m, e, fs, ms)
    requires var P, f0, n0, L := ms[|ms| - 1], fs[0], ms[0], fs[|fs| - 1];
      && P in m.edges && f0 in m.edges && n0 in m.edges && L in m.edges
      && m.edges[P].pairing in m.edges && m.edges[f0].pairing in m.edges
      && m.edges[n0].pairing in m.edges && m.edges[L].pairing in m.edges
      && m.edges[m.edges[P].pairing].face != m.edges[m.edges[f0].pairing].face
      && m.edges[m.edges[n0].pairing].face != m.edges[m.edges[L].pairing].face
    ensures var r := MergeWithPairing(m, e, unmerged, normal, epsilon, coplanar, newell);
      var t := m.edges[e].pairing;
      var F := m.edges[e].face;
      var M := m.edges[t].face;
      && r.Ok?
      && r.value.0.edges.Keys == m.edges.Keys - {e, t}
      && IsLoop(r.value.0, fs + ms)
      && r.value.0.faces.Keys == m.faces.Keys - {M}
      && r.value.0.faces[F] == m.faces[F].(start := ms[|ms| - 1], normal := normal)
      && r.value.1 == unmerged + m.faces[M].verts
  {
    SettingFacts(m, e, fs, ms);
    SpliceResult(m, e, fs, ms, unmerged, normal);
    var sp := Splice(m, e, unmerged, normal).value;
    var t := m.edges[e].pairing;
    var P, f0, n0, L := ms[|ms| - 1], fs[0], ms[0], fs[|fs| - 1];
    assert P in [t] + ms && f0 in [e] + fs && n0 in [t] + ms && L in [e] + fs;
    DoubleAdjacentNone(sp.mesh, e, P, f0, P, sp.unmerged, epsilon, coplanar, newell);
    DoubleAdjacentNone(sp.mesh, e, L, n0, n0, sp.unmerged, epsilon, coplanar, newell);
    var r := sp.mesh.(edges := sp.mesh.edges - {t, e});
    assert e !in fs + ms && t !in fs + ms;
    LoopFrame(sp.mesh, r, fs + ms);
  }
}
