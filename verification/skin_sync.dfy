/**
 * UpdateTransverts: copying the working buffer into the display arrays of
 * every material the deformer's object has a slot in, and accumulating the
 * bounding box over all of them in one pass.
 */
module SkinSync {
  import opened Common
  import opened Geometry
  import opened RasTypes
  import opened RasMesh
  import opened SkinModel

  /** Every display vertex of the object's slots refers to a vertex of the working buffer. */
  predicate IndicesInRange(ms: seq<MeshMaterial>, s: Storage) {
    forall m, i | 0 <= m < |ms| && ms[m].slot.Some? && 0 <= i < |ms[m].slot.value| ::
      ms[m].slot.value[i].origIndex < |s.verts| && ms[m].slot.value[i].origIndex < |s.nors|
  }

  /** One display vertex after the sync. */
  function SyncVertex(v: TexVert, s: Storage, copyNormals: bool): TexVert
    requires v.origIndex < |s.verts| && v.origIndex < |s.nors|
  {
    v.(xyz := s.verts[v.origIndex], normal := if copyNormals then s.nors[v.origIndex] else v.normal)
  }

  predicate ArrayInRange(a: seq<TexVert>, s: Storage) {
    forall i | 0 <= i < |a| :: a[i].origIndex < |s.verts| && a[i].origIndex < |s.nors|
  }

  function SyncArray(a: seq<TexVert>, s: Storage, copyNormals: bool): seq<TexVert>
    requires ArrayInRange(a, s)
  {
    seq(|a|, i requires 0 <= i < |a| => SyncVertex(a[i], s, copyNormals))
  }

  function SyncSlot(o: Option<seq<TexVert>>, s: Storage, copyNormals: bool): Option<seq<TexVert>>
    requires o.Some? ==> ArrayInRange(o.value, s)
  {
    match o
    case None => None
    case Some(a) => Some(SyncArray(a, s, copyNormals))
  }

  function SyncMaterial(mm: MeshMaterial, s: Storage, copyNormals: bool): MeshMaterial
    requires mm.slot.Some? ==> ArrayInRange(mm.slot.value, s)
  {
    mm.(slot := SyncSlot(mm.slot, s, copyNormals))
  }

  function PositionsOf(a: seq<TexVert>): seq<Vec3> {
    seq(|a|, i requires 0 <= i < |a| => a[i].xyz)
  }

  /** Positions of the display vertices of the object's slots, material after material. */
  function Positions(ms: seq<MeshMaterial>): seq<Vec3>
    decreases |ms|
  {
    if |ms| == 0 then []
    else
      var last := ms[|ms| - 1].slot;
      Positions(ms[..|ms| - 1]) + (if last.Some? then PositionsOf(last.value) else [])
  }

  /** Grow a box by one point; the first point seeds it. */
  function Extend(b: Option<Box>, p: Vec3): Box {
    match b
    case None => Box(p, p)
    case Some(bx) => Box(MinV(bx.lo, p), MaxV(bx.hi, p))
  }

  /** The running box over a sequence of points, seeded by the first. */
  function Accumulate(ps: seq<Vec3>): Option<Box>
    decreases |ps|
  {
    if |ps| == 0 then None else Some(Extend(Accumulate(ps[..|ps| - 1]), ps[|ps| - 1]))
  }

  /** Each of the box's six coordinates is the coordinate of some point. */
  predicate Attained(b: Box, ps: seq<Vec3>) {
    && (exists k | 0 <= k < |ps| :: b.lo.x == ps[k].x)
    && (exists k | 0 <= k < |ps| :: b.lo.y == ps[k].y)
    && (exists k | 0 <= k < |ps| :: b.lo.z == ps[k].z)
    && (exists k | 0 <= k < |ps| :: b.hi.x == ps[k].x)
    && (exists k | 0 <= k < |ps| :: b.hi.y == ps[k].y)
    && (exists k | 0 <= k < |ps| :: b.hi.z == ps[k].z)
  }

  /**
   * The running box is the exact componentwise min/max: it contains every
   * point and each of its six coordinates is attained by some point.
   */
  lemma {:induction false} AccumulateIsExactBounds(ps: seq<Vec3>)
    ensures Accumulate(ps).Some? <==> |ps| > 0
    ensures Accumulate(ps).Some? ==>
              var b := Accumulate(ps).value;
              && (forall k | 0 <= k < |ps| :: Contains(b, ps[k]))
              && Attained(b, ps)
    decreases |ps|
  {
    if |ps| > 1 {
      var n := |ps| - 1;
      var pre := ps[..n];
      AccumulateIsExactBounds(pre);
      assert forall k | 0 <= k < n :: pre[k] == ps[k];
      var b := Accumulate(pre).value;
      assert Attained(b, pre);
      ExtendAttained(ps, b);
    } else if |ps| == 1 {
      assert ps[..0] == [];
      assert Accumulate(ps).value == Box(ps[0], ps[0]);
      assert Attained(Box(ps[0], ps[0]), ps);
    }
  }

  /** Extending a box attained by all points but the last keeps it attained. */
  lemma ExtendAttained(ps: seq<Vec3>, b: Box)
    requires |ps| > 1 && Attained(b, ps[..|ps| - 1])
    ensures Attained(Extend(Some(b), ps[|ps| - 1]), ps)
  {
    var n := |ps| - 1;
    var pre := ps[..n];
    var b' := Extend(Some(b), ps[n]);
    if b'.lo.x == b.lo.x { var k :| 0 <= k < n && b.lo.x == pre[k].x; assert b'.lo.x == ps[k].x; }
    else { assert b'.lo.x == ps[n].x; }
    if b'.lo.y == b.lo.y { var k :| 0 <= k < n && b.lo.y == pre[k].y; assert b'.lo.y == ps[k].y; }
    else { assert b'.lo.y == ps[n].y; }
    if b'.lo.z == b.lo.z { var k :| 0 <= k < n && b.lo.z == pre[k].z; assert b'.lo.z == ps[k].z; }
    else { assert b'.lo.z == ps[n].z; }
    if b'.hi.x == b.hi.x { var k :| 0 <= k < n && b.hi.x == pre[k].x; assert b'.hi.x == ps[k].x; }
    else { assert b'.hi.x == ps[n].x; }
    if b'.hi.y == b.hi.y { var k :| 0 <= k < n && b.hi.y == pre[k].y; assert b'.hi.y == ps[k].y; }
    else { assert b'.hi.y == ps[n].y; }
    if b'.hi.z == b.hi.z { var k :| 0 <= k < n && b.hi.z == pre[k].z; assert b'.hi.z == ps[k].z; }
    else { assert b'.hi.z == ps[n].z; }
  }

  /** Three vertices at (0,0,0), (2,0,0) and (0,3,0) give the box (0,0,0)-(2,3,0). */
  lemma ThreePointBox()
    ensures Accumulate([Vec3(0.0, 0.0, 0.0), Vec3(2.0, 0.0, 0.0), Vec3(0.0, 3.0, 0.0)])
            == Some(Box(Vec3(0.0, 0.0, 0.0), Vec3(2.0, 3.0, 0.0)))
  {
    var ps := [Vec3(0.0, 0.0, 0.0), Vec3(2.0, 0.0, 0.0), Vec3(0.0, 3.0, 0.0)];
    assert ps[..2][..1][..0] == [];
    assert ps[..2][..1] == [ps[0]];
    assert ps[..2] == [ps[0], ps[1]];
    assert Accumulate([ps[0]]) == Some(Box(ps[0], ps[0]));
    assert Accumulate([ps[0], ps[1]]) == Some(Box(Vec3(0.0, 0.0, 0.0), Vec3(2.0, 0.0, 0.0)));
  }

  /**
   * The inner loop of UpdateTransverts over one display array: the synced
   * array, with the running box extended by its positions after `before`.
   */
  method SyncArrayBounds(arr: seq<TexVert>, s: Storage, copyNormals: bool, autoBounds: bool, ghost before: seq<Vec3>,
                         first: bool, lo: Vec3, hi: Vec3, ghost lo0: Vec3, ghost hi0: Vec3)
    returns (arr': seq<TexVert>, first': bool, lo': Vec3, hi': Vec3)
    requires ArrayInRange(arr, s)
    requires first == (!autoBounds || |before| == 0)
    requires !first ==> Accumulate(before) == Some(Box(lo, hi))
    requires first ==> lo == lo0 && hi == hi0
    ensures arr' == SyncArray(arr, s, copyNormals)
    ensures first' == (!autoBounds || |before + PositionsOf(arr')| == 0)
    ensures !first' ==> Accumulate(before + PositionsOf(arr')) == Some(Box(lo', hi'))
    ensures first' ==> lo' == lo0 && hi' == hi0
  {
    arr' := [];
    first', lo', hi' := first, lo, hi;
    assert before + PositionsOf(arr') == before;
    var i := 0;
    while i < |arr|
      invariant 0 <= i <= |arr|
      invariant arr' == SyncArray(arr[..i], s, copyNormals)
      invariant first' == (!autoBounds || |before + PositionsOf(arr')| == 0)
      invariant !first' ==> Accumulate(before + PositionsOf(arr')) == Some(Box(lo', hi'))
      invariant first' ==> lo' == lo0 && hi' == hi0
    {
      var v := SyncVertex(arr[i], s, copyNormals);
      assert arr[..i + 1] == arr[..i] + [arr[i]];
      ghost var ps := before + PositionsOf(arr');
      assert PositionsOf(arr' + [v]) == PositionsOf(arr') + [v.xyz];
      assert before + PositionsOf(arr' + [v]) == ps + [v.xyz];
      assert (ps + [v.xyz])[..|ps|] == ps;
      arr' := arr' + [v];
      var vertpos := v.xyz;
      if autoBounds {
        if first' {
          lo', hi' := vertpos, vertpos;
          first' := false;
        } else {
          lo' := MinV(lo', vertpos);
          hi' := MaxV(hi', vertpos);
        }
      }
      i := i + 1;
    }
    assert arr[..|arr|] == arr;
  }

  /**
   * UpdateTransverts: when the object uses vertex arrays and the working
   * buffer exists, every display vertex of the object's slot in every
   * material takes its position (and its normal, if the last skinning asked
   * for it) from the buffer, the normal request is cleared, and with
   * automatic bounds the AABB becomes the box of all synced positions
   * across materials. Base slots and the modified flag are untouched.
   */
  method UpdateTransverts(d: SkinDeformer, useVertexArray: bool, rmesh: MeshObject, autoBounds: bool)
    returns (d': SkinDeformer, rmesh': MeshObject)
    requires d.base.storage.Some? ==> IndicesInRange(rmesh.materials, d.base.storage.value)
    ensures (!useVertexArray || d.base.storage.None?) ==> d' == d && rmesh' == rmesh
    ensures useVertexArray && d.base.storage.Some? ==>
              var s := d.base.storage.value;
              var ms, ms' := rmesh.materials, rmesh'.materials;
              && rmesh'.modifiedFlag == rmesh.modifiedFlag
              && |ms'| == |ms|
              && (forall m | 0 <= m < |ms| :: ms'[m].baseArray == ms[m].baseArray && ms'[m].slot.Some? == ms[m].slot.Some?)
              && (forall m | 0 <= m < |ms| && ms[m].slot.Some? ::
                    && |ms'[m].slot.value| == |ms[m].slot.value|
                    && forall i | 0 <= i < |ms[m].slot.value| ::
                         var v, v' := ms[m].slot.value[i], ms'[m].slot.value[i];
                         && v' == v.(xyz := v'.xyz, normal := v'.normal)
                         && v'.xyz == s.verts[v.origIndex]
                         && v'.normal == (if d.copyNormals then s.nors[v.origIndex] else v.normal))
              && d' == d.(copyNormals := false, base := d'.base)
              && d'.base == d.base.(aabbMin := d'.base.aabbMin, aabbMax := d'.base.aabbMax)
              && (autoBounds && |Positions(ms')| > 0 ==>
                    Accumulate(Positions(ms')) == Some(Box(d'.base.aabbMin, d'.base.aabbMax)))
              && (!autoBounds || |Positions(ms')| == 0 ==>
                    d'.base.aabbMin == d.base.aabbMin && d'.base.aabbMax == d.base.aabbMax)
  {
    if !useVertexArray || d.base.storage.None? {
      return d, rmesh;
    }
    var s := d.base.storage.value;
    var ms := rmesh.materials;
    var aabbMin, aabbMax := d.base.aabbMin, d.base.aabbMax;
    var first := true;
    var ms' := [];
    var imat := 0;
    while imat < |ms|
      invariant 0 <= imat <= |ms|
      invariant |ms'| == imat
      invariant forall m | 0 <= m < imat :: ms'[m] == SyncMaterial(ms[m], s, d.copyNormals)
      invariant first == (!autoBounds || |Positions(ms')| == 0)
      invariant !first ==> Accumulate(Positions(ms')) == Some(Box(aabbMin, aabbMax))
      invariant first ==> aabbMin == d.base.aabbMin && aabbMax == d.base.aabbMax
    {
      var mm := ms[imat];
      if mm.slot.None? {
        assert (ms' + [mm])[..imat] == ms';
        assert Positions(ms' + [mm]) == Positions(ms') + [];
        assert Positions(ms') + [] == Positions(ms');
        ms' := ms' + [mm];
      } else {
        var arr := mm.slot.value;
        assert ArrayInRange(arr, s);
        ghost var before := Positions(ms');
        var arr';
        arr', first, aabbMin, aabbMax := SyncArrayBounds(arr, s, d.copyNormals, autoBounds, before,
                                                         first, aabbMin, aabbMax, d.base.aabbMin, d.base.aabbMax);
        var mm' := mm.(slot := Some(arr'));
        assert (ms' + [mm'])[..imat] == ms';
        assert Positions(ms' + [mm']) == before + PositionsOf(arr');
        ms' := ms' + [mm'];
      }
      imat := imat + 1;
    }
    d' := d.(copyNormals := false, base := d.base.(aabbMin := aabbMin, aabbMax := aabbMax));
    rmesh' := rmesh.(materials := ms');
  }
}
