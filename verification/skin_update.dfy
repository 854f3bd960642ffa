/**
 * The once-per-frame update of a skin deformer (UpdateInternal): the pose
 * gate, the rest-pose copy, the apply/restore bracket around the chosen
 * skinning strategy, the frame stamp and the sync into the display arrays.
 */
module SkinUpdate {
  import opened Common
  import opened Geometry
  import opened RasTypes
  import opened RasMesh
  import opened SkinModel
  import opened SkinBge
  import opened SkinSync

  /** Calls made on the armature and on Blender while updating. */
  datatype Event =
    | ApplyPose
    | RestorePose
    | BgeDeform
    | ArmatureDeformVerts(obmat: Mat4, flags: bv16)
    | RecalcNormals

  /** normal_short_to_float_v3: shorts scaled to unit range. */
  function NormalShortToFloat(n: ShortNormal): (r: Vec3)
    ensures r.x * 32767.0 == n.x as real && r.y * 32767.0 == n.y as real && r.z * 32767.0 == n.z as real
  {
    Vec3(n.x as real / 32767.0, n.y as real / 32767.0, n.z as real / 32767.0)
  }

  /**
   * The working buffer as copied from the mesh's rest vertices: entry v is
   * vertex v's rest position and its stored normal scaled to unit range.
   */
  function RestStorage(mesh: Mesh): (s: Storage)
    ensures |s.verts| == |mesh.mvert| && |s.nors| == |mesh.mvert|
    ensures forall v | 0 <= v < |mesh.mvert| ::
              s.verts[v] == mesh.mvert[v].co && s.nors[v] == NormalShortToFloat(mesh.mvert[v].no)
  {
    Storage(seq(|mesh.mvert|, v requires 0 <= v < |mesh.mvert| => mesh.mvert[v].co),
            seq(|mesh.mvert|, v requires 0 <= v < |mesh.mvert| => NormalShortToFloat(mesh.mvert[v].no)))
  }

  /**
   * The buffer the skinning starts from: the one a shape deform already
   * filled, or else the rest pose.
   */
  function StartStorage(d: SkinDeformer, shapeApplied: bool, mesh: Mesh): Storage
    requires shapeApplied ==> d.base.storage.Some?
  {
    if shapeApplied then d.base.storage.value else RestStorage(mesh)
  }

  /** What the BGE skinning pass needs of the mesh and the cache it will use. */
  predicate BgeReady(d: SkinDeformer, obj: BlenderObject, mesh: Mesh, arma: Armature) {
    mesh.dvert.Some? ==>
      && |mesh.dvert.value| >= |mesh.mvert|
      && CacheUsable(d, arma, obj)
      && forall i | 0 <= i < |mesh.mvert| && i < |mesh.dvert.value| ::
           SkinDefined(mesh.dvert.value[i], PassMats(d, arma, obj), |obj.defbase|)
  }

  /** Every display vertex of the object's slots refers to one of the mesh's n source vertices. */
  predicate OrigIndicesBelow(ms: seq<MeshMaterial>, n: nat) {
    forall m, i | 0 <= m < |ms| && ms[m].slot.Some? && 0 <= i < |ms[m].slot.value| ::
      ms[m].slot.value[i].origIndex < n
  }

  /** The calls a skinning strategy makes, between applying and restoring the pose. */
  function DeformEvents(d: SkinDeformer, arma: Armature): seq<Event> {
    if arma.vertDeformType == BgeCpu then [BgeDeform]
    else [ArmatureDeformVerts(d.obmat, d.deformFlags)] + (if d.recalcNormal then [RecalcNormals] else [])
  }

  /**
   * BlenderDeformVerts: the mesh object's matrix is replaced by the
   * deformer's reference matrix for the duration of the foreign deform
   * call and then restored; normals are recomputed when asked for.
   */
  method BlenderDeformVerts(d: SkinDeformer, obj: BlenderObject, arma: Armature, num: Numerics)
    returns (d': SkinDeformer, obj': BlenderObject, trace: seq<Event>)
    requires d.base.storage.Some?
    ensures obj' == obj
    ensures trace == [ArmatureDeformVerts(d.obmat, d.deformFlags)] + (if d.recalcNormal then [RecalcNormals] else [])
    ensures d'.base.storage.Some?
    ensures d' == d.(base := d.base.(storage := d'.base.storage))
    ensures var s, s' := d.base.storage.value, d'.base.storage.value;
            && |s'.verts| == |s.verts|
            && (forall i | 0 <= i < |s.verts| :: s'.verts[i] == num.armatureDeform(arma, d.obmat, i, s.verts[i], d.deformFlags))
            && (!d.recalcNormal ==> s'.nors == s.nors)
            && (d.recalcNormal ==> |s'.nors| == |s.nors| && forall i | 0 <= i < |s.nors| :: s'.nors[i] == num.recalcNormal(s'.verts, i))
  {
    var s := d.base.storage.value;
    var saved := obj.obmat;
    var substituted := obj.(obmat := d.obmat);
    var verts := seq(|s.verts|, i requires 0 <= i < |s.verts| =>
                       num.armatureDeform(arma, substituted.obmat, i, s.verts[i], d.deformFlags));
    trace := [ArmatureDeformVerts(substituted.obmat, d.deformFlags)];
    obj' := substituted.(obmat := saved);
    var nors := s.nors;
    if d.recalcNormal {
      nors := seq(|s.nors|, i requires 0 <= i < |s.nors| => num.recalcNormal(verts, i));
      trace := trace + [RecalcNormals];
    }
    d' := d.(base := d.base.(storage := Some(Storage(verts, nors))));
  }

  /**
   * The working buffer after one skinning pass from the start buffer s0:
   * the BGE pass blends each weighted vertex and keeps the rest, the
   * Blender pass deforms every position and recomputes the normals only
   * when asked to.
   */
  predicate SkinnedFrom(d: SkinDeformer, arma: Armature, obj: BlenderObject, mesh: Mesh, num: Numerics,
                        s0: Storage, s': Storage)
    requires |s0.verts| == |mesh.mvert| && |s0.nors| == |mesh.mvert|
    requires arma.vertDeformType == BgeCpu && mesh.dvert.Some? ==> CacheUsable(d, arma, obj)
  {
    && |s'.verts| == |mesh.mvert| && |s'.nors| == |mesh.mvert|
    && (arma.vertDeformType == BgeCpu && mesh.dvert.None? ==> s' == s0)
    && (arma.vertDeformType == BgeCpu && mesh.dvert.Some? ==>
          var dv := mesh.dvert.value;
          var mats := PassMats(d, arma, obj);
          var tot := |obj.defbase|;
          var post := num.refFrame(d.obmat, arma.obmat);
          && |dv| >= |mesh.mvert|
          && (forall v | 0 <= v < |mesh.mvert| && |dv[v]| == 0 ::
                s'.verts[v] == s0.verts[v] && s'.nors[v] == s0.nors[v])
          && (forall v | 0 <= v < |mesh.mvert| && |dv[v]| > 0 ::
                && SkinDefined(dv[v], mats, tot)
                && s'.verts[v] == SkinPosition(s0.verts[v], dv[v], mats, tot, num.invert(post), post, num)
                && s'.nors[v] == SkinNormal(s0.nors[v], dv[v], mats, tot, num)))
    && (arma.vertDeformType != BgeCpu ==>
          && (forall v | 0 <= v < |mesh.mvert| ::
                s'.verts[v] == num.armatureDeform(arma, d.obmat, v, s0.verts[v], d.deformFlags))
          && (forall v | 0 <= v < |mesh.mvert| ::
                s'.nors[v] == if d.recalcNormal then num.recalcNormal(s'.verts, v) else s0.nors[v]))
  }

  /**
   * Steps 1 to 6 of UpdateInternal once the pose has changed: the start
   * buffer, apply-pose, the skinning pass of the armature's kind, the frame
   * stamp, restore-pose and the dynamic mark.
   */
  method SkinPass(d: SkinDeformer, shapeApplied: bool, arma: Armature, obj: BlenderObject, mesh: Mesh, num: Numerics)
    returns (cur: SkinDeformer, obj': BlenderObject, trace: seq<Event>)
    requires d.armature == Some(arma.id)
    requires shapeApplied ==>
               && d.base.storage.Some?
               && |d.base.storage.value.verts| == |mesh.mvert|
               && |d.base.storage.value.nors| == |mesh.mvert|
    requires arma.vertDeformType == BgeCpu ==> BgeReady(d, obj, mesh, arma)
    ensures trace == [ApplyPose] + DeformEvents(d, arma) + [RestorePose]
    ensures obj' == obj
    ensures cur.base.storage.Some?
    ensures cur == d.(lastArmaUpdate := arma.lastFrame,
                      copyNormals := d.copyNormals || (arma.vertDeformType == BgeCpu && mesh.dvert.Some?),
                      dfnrToPC := if arma.vertDeformType == BgeCpu && mesh.dvert.Some?
                                  then Some(CacheFor(d, arma, obj)) else d.dfnrToPC,
                      base := d.base.(storage := cur.base.storage, dynamic := true))
    ensures SkinnedFrom(d, arma, obj, mesh, num, StartStorage(d, shapeApplied, mesh), cur.base.storage.value)
  {
    cur := d;
    if !shapeApplied {
      cur := cur.(base := cur.base.(storage := Some(RestStorage(mesh))));
    }
    assert cur.base.storage == Some(StartStorage(d, shapeApplied, mesh));
    assert CacheFor(cur, arma, obj) == CacheFor(d, arma, obj);
    trace := [ApplyPose];
    obj' := obj;
    if arma.vertDeformType == BgeCpu {
      assert mesh.dvert.Some? ==> PassMats(cur, arma, obj) == PassMats(d, arma, obj);
      cur := BgeDeformVerts(cur, obj, mesh, arma, num);
      trace := trace + [BgeDeform];
    } else {
      var events;
      cur, obj', events := BlenderDeformVerts(cur, obj, arma, num);
      trace := trace + events;
    }
    cur := cur.(lastArmaUpdate := arma.lastFrame);
    trace := trace + [RestorePose];
    cur := cur.(base := cur.base.(dynamic := true));
  }

  /**
   * UpdateInternal: when the pose changed, copy the rest pose (unless a
   * shape deform already filled the buffer), apply the pose, skin, stamp
   * the frame, restore the pose, mark the deformer dynamic and sync the
   * object's display arrays; otherwise do nothing.
   */
  method UpdateInternal(d: SkinDeformer, shapeApplied: bool, poseUpdated: bool,
                        arma: Armature, obj: BlenderObject, mesh: Mesh,
                        useVertexArray: bool, rmesh: MeshObject, autoBounds: bool,
                        num: Numerics)
    returns (fired: bool, d': SkinDeformer, obj': BlenderObject, rmesh': MeshObject, trace: seq<Event>)
    requires poseUpdated ==> d.armature == Some(arma.id)
    requires poseUpdated && shapeApplied ==>
               && d.base.storage.Some?
               && |d.base.storage.value.verts| == |mesh.mvert|
               && |d.base.storage.value.nors| == |mesh.mvert|
    requires poseUpdated && arma.vertDeformType == BgeCpu ==> BgeReady(d, obj, mesh, arma)
    requires poseUpdated ==> OrigIndicesBelow(rmesh.materials, |mesh.mvert|)
    ensures !poseUpdated ==> !fired && d' == d && obj' == obj && rmesh' == rmesh && trace == []
    ensures poseUpdated ==>
              && fired
              && trace == [ApplyPose] + DeformEvents(d, arma) + [RestorePose]
              && obj' == obj
              && d'.lastArmaUpdate == arma.lastFrame
              && d'.base.dynamic
              && d'.armature == d.armature && d'.releaseObject == d.releaseObject
              && d'.obmat == d.obmat && d'.deformFlags == d.deformFlags && d'.recalcNormal == d.recalcNormal
              && d'.base == d.base.(storage := d'.base.storage, dynamic := true,
                                    aabbMin := d'.base.aabbMin, aabbMax := d'.base.aabbMax)
              && d'.base.storage.Some?
              && |d'.base.storage.value.verts| == |mesh.mvert|
              && |d'.base.storage.value.nors| == |mesh.mvert|
              && (arma.vertDeformType == BgeCpu && mesh.dvert.Some? ==> d'.dfnrToPC == Some(CacheFor(d, arma, obj)))
              && (arma.vertDeformType != BgeCpu || mesh.dvert.None? ==> d'.dfnrToPC == d.dfnrToPC)
    ensures poseUpdated && arma.vertDeformType == BgeCpu && mesh.dvert.None? ==>
              d'.base.storage == Some(StartStorage(d, shapeApplied, mesh))
    ensures poseUpdated && arma.vertDeformType == BgeCpu && mesh.dvert.Some? ==>
              var s0 := StartStorage(d, shapeApplied, mesh);
              var s' := d'.base.storage.value;
              var dv := mesh.dvert.value;
              var mats := PassMats(d, arma, obj);
              var tot := |obj.defbase|;
              var post := num.refFrame(d.obmat, arma.obmat);
              && (forall v | 0 <= v < |mesh.mvert| && |dv[v]| == 0 ::
                    s'.verts[v] == s0.verts[v] && s'.nors[v] == s0.nors[v])
              && (forall v | 0 <= v < |mesh.mvert| && |dv[v]| > 0 ::
                    && SkinDefined(dv[v], mats, tot)
                    && s'.verts[v] == SkinPosition(s0.verts[v], dv[v], mats, tot, num.invert(post), post, num)
                    && s'.nors[v] == SkinNormal(s0.nors[v], dv[v], mats, tot, num))
    ensures poseUpdated && arma.vertDeformType != BgeCpu ==>
              var s0 := StartStorage(d, shapeApplied, mesh);
              var s' := d'.base.storage.value;
              && (forall v | 0 <= v < |mesh.mvert| ::
                    s'.verts[v] == num.armatureDeform(arma, d.obmat, v, s0.verts[v], d.deformFlags))
              && (forall v | 0 <= v < |mesh.mvert| ::
                    s'.nors[v] == if d.recalcNormal then num.recalcNormal(s'.verts, v) else s0.nors[v])
    ensures poseUpdated && !useVertexArray ==>
              && rmesh' == rmesh
              && d'.base.aabbMin == d.base.aabbMin && d'.base.aabbMax == d.base.aabbMax
              && d'.copyNormals == (d.copyNormals || (arma.vertDeformType == BgeCpu && mesh.dvert.Some?))
    ensures poseUpdated && useVertexArray ==>
              var copied := d.copyNormals || (arma.vertDeformType == BgeCpu && mesh.dvert.Some?);
              var s' := d'.base.storage.value;
              var ms, ms' := rmesh.materials, rmesh'.materials;
              && !d'.copyNormals
              && rmesh'.modifiedFlag == rmesh.modifiedFlag
              && |ms'| == |ms|
              && (forall m | 0 <= m < |ms| :: ms'[m].baseArray == ms[m].baseArray && ms'[m].slot.Some? == ms[m].slot.Some?)
              && (forall m | 0 <= m < |ms| && ms[m].slot.None? :: ms'[m] == ms[m])
              && forall m, i | 0 <= m < |ms| && ms[m].slot.Some? && 0 <= i < |ms[m].slot.value| ::
                   var v := ms[m].slot.value[i];
                   && ms'[m].slot.Some? && |ms'[m].slot.value| == |ms[m].slot.value|
                   && ms'[m].slot.value[i] == v.(xyz := ms'[m].slot.value[i].xyz, normal := ms'[m].slot.value[i].normal)
                   && ms'[m].slot.value[i].xyz == s'.verts[v.origIndex]
                   && ms'[m].slot.value[i].normal == if copied then s'.nors[v.origIndex] else v.normal
    ensures poseUpdated && useVertexArray ==>
              var ps := Positions(rmesh'.materials);
              && (autoBounds && |ps| > 0 ==> Accumulate(ps) == Some(Box(d'.base.aabbMin, d'.base.aabbMax)))
              && (!autoBounds || |ps| == 0 ==> d'.base.aabbMin == d.base.aabbMin && d'.base.aabbMax == d.base.aabbMax)
  {
    if !poseUpdated {
      return false, d, obj, rmesh, [];
    }
    var cur;
    cur, obj', trace := SkinPass(d, shapeApplied, arma, obj, mesh, num);
    d', rmesh' := UpdateTransverts(cur, useVertexArray, rmesh, autoBounds);
    assert d'.base.storage == cur.base.storage;
    fired := true;
  }
}
