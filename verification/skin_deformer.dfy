/**
 * Life cycle of a skin deformer: deform flags, the two constructors, the
 * destructor's release rule, relinking, replication, and the per-material
 * attribute copy done by Apply.
 */
module SkinLifecycle {
  import opened Common
  import opened Geometry
  import opened RasTypes
  import opened RasMesh
  import opened SkinModel

  predicate IsArmature(md: Modifier) {
    md.kind == ArmatureModifier
  }

  /** Index of the first armature modifier of the stack, if there is one. */
  function FirstArmature(mods: seq<Modifier>): (r: Option<nat>)
    ensures r.Some? ==> r.value < |mods| && IsArmature(mods[r.value])
    ensures r.Some? ==> forall j | 0 <= j < r.value :: !IsArmature(mods[j])
    ensures r.None? ==> forall j | 0 <= j < |mods| :: !IsArmature(mods[j])
    decreases |mods|
  {
    if |mods| == 0 then None
    else if IsArmature(mods[0]) then Some(0)
    else match FirstArmature(mods[1..])
      case None => None
      case Some(k) => Some(k + 1)
  }

  /**
   * get_deformflags: the vertex-group bit, plus the deform flag of the first
   * armature modifier only.
   */
  function DeformFlags(mods: seq<Modifier>): (flags: bv16)
    ensures flags & ArmDefVgroup == ArmDefVgroup
    ensures (forall j | 0 <= j < |mods| :: !IsArmature(mods[j])) ==> flags == ArmDefVgroup
    ensures forall k | 0 <= k < |mods| && IsArmature(mods[k]) ::
              (forall j | 0 <= j < k :: !IsArmature(mods[j])) ==> flags == ArmDefVgroup | mods[k].deformflag
  {
    match FirstArmature(mods)
    case None => ArmDefVgroup
    case Some(k) => ArmDefVgroup | mods[k].deformflag
  }

  /** Modifiers after the first armature modifier never change the flags. */
  lemma LaterModifiersIgnored(mods: seq<Modifier>, k: nat, rest: seq<Modifier>)
    requires k < |mods| && IsArmature(mods[k])
    requires forall j | 0 <= j < k :: !IsArmature(mods[j])
    ensures DeformFlags(mods[..k + 1] + rest) == DeformFlags(mods)
  {
    var ms := mods[..k + 1] + rest;
    assert ms[k] == mods[k];
    assert forall j | 0 <= j < k :: ms[j] == mods[j];
  }

  /** The first constructor: the deformer's own mesh object supplies matrix and flags. */
  function NewSkinDeformer(base: MeshDeformerBase, bmeshobj: BlenderObject, arma: Option<nat>): (d: SkinDeformer)
    ensures d.base == base && d.armature == arma
    ensures d.lastArmaUpdate == FrameSentinel
    ensures !d.releaseObject && d.recalcNormal && !d.copyNormals
    ensures d.dfnrToPC.None?
    ensures d.obmat == bmeshobj.obmat
    ensures d.deformFlags == DeformFlags(bmeshobj.modifiers)
  {
    SkinDeformer(base, arma, FrameSentinel, false, true, false, None,
                 bmeshobj.obmat, DeformFlags(bmeshobj.modifiers))
  }

  /**
   * The second constructor, used when a mesh is replaced: the matrix and the
   * flags come from the object that owns the original mesh (`bmeshobjNew`);
   * the other object only feeds the base class, folded into `base`.
   */
  function NewSkinDeformerReplacing(base: MeshDeformerBase, bmeshobjNew: BlenderObject,
                                    releaseObject: bool, recalcNormal: bool,
                                    arma: Option<nat>): (d: SkinDeformer)
    ensures d.base == base && d.armature == arma
    ensures d.lastArmaUpdate == FrameSentinel
    ensures d.releaseObject == releaseObject && d.recalcNormal == recalcNormal && !d.copyNormals
    ensures d.dfnrToPC.None?
    ensures d.obmat == bmeshobjNew.obmat
    ensures d.deformFlags == DeformFlags(bmeshobjNew.modifiers)
  {
    SkinDeformer(base, arma, FrameSentinel, releaseObject, recalcNormal, false, None,
                 bmeshobjNew.obmat, DeformFlags(bmeshobjNew.modifiers))
  }

  /** The armature the destructor calls Release() on, if any. */
  function ReleasedOnDestroy(d: SkinDeformer): (released: Option<nat>)
    ensures released.Some? <==> d.releaseObject && d.armature.Some?
    ensures released.Some? ==> released == d.armature
  {
    if d.releaseObject && d.armature.Some? then d.armature else None
  }

  /**
   * Relink: the armature pointer is looked up in the duplication map.
   * Like std::map::operator[], a missing key yields NULL and is inserted.
   */
  function Relink(d: SkinDeformer, m: map<nat, Option<nat>>): (r: (SkinDeformer, map<nat, Option<nat>>))
    ensures d.armature.None? ==> r == (d, m)
    ensures d.armature.Some? ==> d.armature.value in r.1
    ensures d.armature.Some? ==> r.0 == d.(armature := r.1[d.armature.value])
    ensures d.armature.Some? && d.armature.value in m ==> r.1 == m
    ensures d.armature.Some? && d.armature.value !in m ==> r.1 == m[d.armature.value := None] && r.0.armature.None?
  {
    match d.armature
    case None => (d, m)
    case Some(a) =>
      var m' := if a in m then m else m[a := None];
      (d.(armature := m'[a]), m')
  }

  /**
   * GetReplica followed by ProcessReplica: a copy whose frame stamp is the
   * sentinel, which does not own the armature, and whose bone cache is
   * unbuilt. The armature pointer is left for Relink to fix. `processed` is
   * the base part as the base class's ProcessReplica leaves it; that reset
   * is not part of this model and comes in as a parameter, as the
   * constructors take theirs.
   */
  function GetReplica(d: SkinDeformer, processed: MeshDeformerBase): (r: SkinDeformer)
    ensures r.lastArmaUpdate == FrameSentinel && !r.releaseObject && r.dfnrToPC.None?
    ensures r.base == processed && r.armature == d.armature && r.obmat == d.obmat
    ensures r.deformFlags == d.deformFlags && r.recalcNormal == d.recalcNormal
    ensures r.copyNormals == d.copyNormals
  {
    d.(base := processed, lastArmaUpdate := FrameSentinel, releaseObject := false, dfnrToPC := None)
  }

  /** Destroying a replica never releases the armature it shares. */
  lemma ReplicaNeverReleases(d: SkinDeformer, processed: MeshDeformerBase)
    ensures ReleasedOnDestroy(GetReplica(d, processed)).None?
  {
  }

  /** Destroying a deformer built by the first constructor never releases the armature. */
  lemma FirstConstructorNeverReleases(base: MeshDeformerBase, obj: BlenderObject, arma: Option<nat>)
    ensures ReleasedOnDestroy(NewSkinDeformer(base, obj, arma)).None?
  {
  }

  /** Replicating a replica, with the same base reset, is the same as replicating once. */
  lemma ReplicaIdempotent(d: SkinDeformer, processed: MeshDeformerBase)
    ensures GetReplica(GetReplica(d, processed), processed) == GetReplica(d, processed)
  {
  }

  /** The attribute copy Apply performs on one display vertex. */
  function CopyModified(v: TexVert, orig: TexVert, flag: bv16): TexVert {
    v.(tangent := if flag & TangentModified != 0 then orig.tangent else v.tangent,
       uvs := if flag & UvsModified != 0 then orig.uvs else v.uvs,
       rgba := if flag & ColorsModified != 0 then orig.rgba else v.rgba)
  }

  /**
   * Apply: when the mesh reports modified attributes, copy tangents, UVs and
   * colours (each only when its bit is set) from the material's base slot
   * into this object's slot. Always answers false.
   */
  method Apply(useVertexArray: bool, mesh: MeshObject, mat: Option<nat>)
    returns (result: bool, mesh': MeshObject)
    requires mat.Some? ==> mat.value < |mesh.materials|
    requires mat.Some? && mesh.materials[mat.value].slot.Some? ==>
               |mesh.materials[mat.value].slot.value| <= |mesh.materials[mat.value].baseArray|
    ensures !result
    ensures (|| !useVertexArray || mat.None? || mesh.modifiedFlag == 0
             || mesh.materials[mat.value].slot.None?) ==> mesh' == mesh
    ensures useVertexArray && mat.Some? && mesh.modifiedFlag != 0 && mesh.materials[mat.value].slot.Some? ==>
              var mm := mesh.materials[mat.value];
              var arr := mm.slot.value;
              var flag := mesh.modifiedFlag;
              && |mesh'.materials| == |mesh.materials|
              && (forall k | 0 <= k < |mesh.materials| && k != mat.value :: mesh'.materials[k] == mesh.materials[k])
              && mesh'.modifiedFlag == flag
              && mesh'.materials[mat.value].baseArray == mm.baseArray
              && mesh'.materials[mat.value].slot.Some?
              && |mesh'.materials[mat.value].slot.value| == |arr|
              && forall i | 0 <= i < |arr| ::
                   var v, v' := arr[i], mesh'.materials[mat.value].slot.value[i];
                   && v'.xyz == v.xyz && v'.normal == v.normal && v'.origIndex == v.origIndex
                   && v'.tangent == (if flag & TangentModified != 0 then mm.baseArray[i].tangent else v.tangent)
                   && v'.uvs == (if flag & UvsModified != 0 then mm.baseArray[i].uvs else v.uvs)
                   && v'.rgba == (if flag & ColorsModified != 0 then mm.baseArray[i].rgba else v.rgba)
  {
    result := false;
    mesh' := mesh;
    if !useVertexArray || mat.None? {
      return;
    }
    var flag := mesh.modifiedFlag;
    if flag == 0 {
      return;
    }
    var mm := mesh.materials[mat.value];
    if mm.slot.None? {
      return;
    }
    var arr := mm.slot.value;
    var orig := mm.baseArray;
    var i := 0;
    while i < |arr|
      invariant 0 <= i <= |arr|
      invariant |arr| == |mm.slot.value|
      invariant forall k | 0 <= k < i :: arr[k] == CopyModified(mm.slot.value[k], orig[k], flag)
      invariant forall k | i <= k < |arr| :: arr[k] == mm.slot.value[k]
    {
      arr := arr[i := CopyModified(arr[i], orig[i], flag)];
      i := i + 1;
    }
    mesh' := mesh.(materials := mesh.materials[mat.value := mm.(slot := Some(arr))]);
  }
}
