/**
 * Data model of the skin deformer (BL_SkinDeformer): the Blender-side
 * objects it reads, the armature it follows and its own state.
 */
module SkinModel {
  import opened Common
  import opened Geometry

  /**
   * The vertex-group bit of an armature deform flag (ARM_DEF_VGROUP in
   * Blender's armature DNA header, which is not part of this model).
   */
  const ArmDefVgroup: bv16 := 1

  /** The frame stamp a deformer starts with, so that its first update runs. */
  const FrameSentinel: real := -1.0

  datatype ModifierKind = ArmatureModifier | OtherModifier

  /** A modifier of the mesh object; `deformflag` matters only for armature modifiers. */
  datatype Modifier = Modifier(kind: ModifierKind, deformflag: bv16)

  /**
   * The Blender object that owns the mesh: its transform, its modifier stack
   * and its deform groups (`defbase`), listed by name.
   */
  datatype BlenderObject = BlenderObject(obmat: Mat4, modifiers: seq<Modifier>, defbase: seq<string>)

  /** A pose channel: its bone's name, the bone's BONE_NO_DEFORM flag and the channel matrix. */
  datatype PoseChannel = PoseChannel(name: string, noDeform: bool, chanMat: Mat4)

  /** ARM_VDEF_BGE_CPU selects the engine's own skinning; anything else delegates to Blender. */
  datatype VertDeformType = BgeCpu | BlenderDeform

  /** The armature game object the deformer follows. */
  datatype Armature = Armature(
    id: nat,
    obmat: Mat4,
    pose: seq<PoseChannel>,
    lastFrame: real,
    vertDeformType: VertDeformType)

  /** One (deform group index, weight) entry of a source vertex. */
  datatype DeformWeight = DeformWeight(defNr: nat, weight: real)

  /** A normal stored as three signed shorts, as in Blender's MVert. */
  datatype ShortNormal = ShortNormal(x: int, y: int, z: int)

  datatype MVert = MVert(co: Vec3, no: ShortNormal)

  /**
   * The Blender mesh: rest vertices (their count is totvert) and, when the
   * mesh is weighted, one list of deform weights per vertex.
   */
  datatype Mesh = Mesh(mvert: seq<MVert>, dvert: Option<seq<seq<DeformWeight>>>)

  /** The working vertex buffer: one position and one normal per source vertex. */
  datatype Storage = Storage(verts: seq<Vec3>, nors: seq<Vec3>)

  /**
   * State that belongs to the BL_MeshDeformer base class, whose code is not
   * part of this model: the working buffer, the dynamic flag and the AABB.
   */
  datatype MeshDeformerBase = MeshDeformerBase(
    storage: Option<Storage>,
    dynamic: bool,
    aabbMin: Vec3,
    aabbMax: Vec3)

  /**
   * Deform group index to the position of its channel in the armature's
   * pose, standing for the channel pointer the deformer keeps; `None` means
   * "no influence". The channel matrices are read through it on every
   * pass, so they follow the pose of that pass.
   */
  type BoneCache = seq<Option<nat>>

  datatype SkinDeformer = SkinDeformer(
    base: MeshDeformerBase,
    armature: Option<nat>,
    lastArmaUpdate: real,
    releaseObject: bool,
    recalcNormal: bool,
    copyNormals: bool,
    dfnrToPC: Option<BoneCache>,
    obmat: Mat4,
    deformFlags: bv16)

  /**
   * The numerical collaborators, kept abstract: matrix times homogeneous
   * vector, the 3x3 rotational part applied to a normal, the reference
   * frame inverse(meshRef) * armatureObmat, matrix inverse, Blender's
   * armature_deform_verts for one vertex, and normal recomputation.
   */
  datatype Numerics = Numerics(
    transform: (Mat4, Vec4) -> Vec4,
    rotate: (Mat4, Vec3) -> Vec3,
    refFrame: (Mat4, Mat4) -> Mat4,
    invert: Mat4 -> Mat4,
    armatureDeform: (Armature, Mat4, nat, Vec3, bv16) -> Vec3,
    recalcNormal: (seq<Vec3>, nat) -> Vec3)
}
