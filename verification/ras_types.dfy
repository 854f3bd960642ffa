/**
 * Rasterizer-side vertex records shared by the skin deformer and the
 * display-array bucket: RAS_TexVert and the mesh-object modification bits.
 */
module RasTypes {
  import opened Geometry

  /**
   * Bits of RAS_MeshObject's modified flag. The header that defines them is
   * not part of this model; the proofs rely only on their being distinct
   * single bits.
   */
  const MeshModified: bv16 := 1
  const TangentModified: bv16 := 2
  const UvsModified: bv16 := 4
  const ColorsModified: bv16 := 8

  datatype UV = UV(u: real, v: real)

  /**
   * One display vertex. `origIndex` is the index of the source-mesh vertex
   * it was split from; several display vertices may share one.
   */
  datatype TexVert = TexVert(
    xyz: Vec3,
    normal: Vec3,
    tangent: Vec4,
    uvs: seq<UV>,
    rgba: bv32,
    origIndex: nat)
}

/**
 * The rasterizer mesh object as the skin deformer sees it: its modified
 * flag and, per material, the display array of the slot that belongs to
 * the deformer's game object (`None` when it has no slot) and the display
 * array of the material's base slot.
 */
module RasMesh {
  import opened Common
  import opened RasTypes

  datatype MeshMaterial = MeshMaterial(slot: Option<seq<TexVert>>, baseArray: seq<TexVert>)

  datatype MeshObject = MeshObject(modifiedFlag: bv16, materials: seq<MeshMaterial>)
}
