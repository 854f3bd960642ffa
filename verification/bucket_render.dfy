/**
 * Drawing through a display-array bucket: the plain path, which draws each
 * active slot, and the instancing path, which packs one record per active
 * slot into a buffer and draws them all at once.
 */
module BucketRender {
  import opened Geometry
  import opened DisplayArrayBucket

  /** A float[16] in OpenGL's column-major order. */
  type Matrix16 = m: seq<real> | |m| == 16 witness seq(16, i => 0.0)

  /** Row r, column c of a column-major 4x4 matrix. */
  function Entry(mat: Matrix16, r: nat, c: nat): real
    requires r < 4 && c < 4
  {
    mat[r + 4 * c]
  }

  /**
   * One instance as the instancing shader reads it: the 3x3 rotation-scale
   * part row by row, the translation and the colour scaled to 0..255.
   */
  datatype InstancingObject = InstancingObject(matrix: seq<real>, position: seq<real>, color: seq<real>)

  predicate WellFormedRecord(o: InstancingObject) {
    |o.matrix| == 9 && |o.position| == 3 && |o.color| == 4
  }

  /** Row r, column c of a record's 3x3 part. */
  function Cell(o: InstancingObject, r: nat, c: nat): real
    requires WellFormedRecord(o) && r < 3 && c < 3
  {
    o.matrix[3 * r + c]
  }

  /** The packing done for one slot of UpdateActiveMeshSlotsInstancingBuffer. */
  function PackInstance(mat: Matrix16, rgba: Vec4): (o: InstancingObject)
    ensures WellFormedRecord(o)
    ensures forall r, c | 0 <= r < 3 && 0 <= c < 3 :: Cell(o, r, c) == Entry(mat, r, c)
    ensures forall k | 0 <= k < 3 :: o.position[k] == Entry(mat, k, 3)
    ensures o.color == [rgba.x * 255.0, rgba.y * 255.0, rgba.z * 255.0, rgba.w * 255.0]
  {
    InstancingObject(
      [mat[0], mat[4], mat[8], mat[1], mat[5], mat[9], mat[2], mat[6], mat[10]],
      [mat[12], mat[13], mat[14]],
      [rgba.x * 255.0, rgba.y * 255.0, rgba.z * 255.0, rgba.w * 255.0])
  }

  /** A matrix whose last row is 0 0 0 1, as object transforms are. */
  predicate Affine(mat: Matrix16) {
    Entry(mat, 3, 0) == 0.0 && Entry(mat, 3, 1) == 0.0 && Entry(mat, 3, 2) == 0.0 && Entry(mat, 3, 3) == 1.0
  }

  /** The affine matrix a record stands for. */
  function UnpackInstance(o: InstancingObject): (mat: Matrix16)
    requires WellFormedRecord(o)
    ensures Affine(mat)
  {
    [o.matrix[0], o.matrix[3], o.matrix[6], 0.0,
     o.matrix[1], o.matrix[4], o.matrix[7], 0.0,
     o.matrix[2], o.matrix[5], o.matrix[8], 0.0,
     o.position[0], o.position[1], o.position[2], 1.0]
  }

  /** Packing loses only the last row, so an affine matrix comes back whole. */
  lemma PackUnpackAffine(mat: Matrix16, rgba: Vec4)
    requires Affine(mat)
    ensures UnpackInstance(PackInstance(mat, rgba)) == mat
  {
    var o := PackInstance(mat, rgba);
    var u := UnpackInstance(o);
    forall i | 0 <= i < 16
      ensures u[i] == mat[i]
    {
      assert Entry(mat, i % 4, i / 4) == mat[i];
      if i % 4 < 3 && i / 4 < 3 {
        assert Cell(o, i % 4, i / 4) == Entry(mat, i % 4, i / 4);
      } else if i % 4 < 3 {
        assert o.position[i % 4] == Entry(mat, i % 4, 3);
      }
    }
  }

  /** A record's geometry survives unpacking and packing again. */
  lemma UnpackPackRecord(o: InstancingObject, rgba: Vec4)
    requires WellFormedRecord(o)
    ensures PackInstance(UnpackInstance(o), rgba).matrix == o.matrix
    ensures PackInstance(UnpackInstance(o), rgba).position == o.position
  {
  }

  /**
   * UpdateActiveMeshSlotsInstancingBuffer: record i packs the transform the
   * rasterizer computes for active slot i in the material's drawing mode.
   */
  method UpdateActiveMeshSlotsInstancingBuffer(b: Bucket, mb: MaterialBucket, getTransform: (MeshSlot, int) -> Matrix16)
    returns (buffer: seq<InstancingObject>)
    ensures |buffer| == |b.activeSlots|
    ensures forall i | 0 <= i < |buffer| ::
              var mat := getTransform(b.activeSlots[i], mb.material.drawingMode);
              && WellFormedRecord(buffer[i])
              && (forall r, c | 0 <= r < 3 && 0 <= c < 3 :: Cell(buffer[i], r, c) == Entry(mat, r, c))
              && (forall k | 0 <= k < 3 :: buffer[i].position[k] == Entry(mat, k, 3))
    ensures forall i | 0 <= i < |buffer| ::
              var mat := getTransform(b.activeSlots[i], mb.material.drawingMode);
              Affine(mat) ==> UnpackInstance(buffer[i]) == mat
  {
    buffer := [];
    var i := 0;
    while i < |b.activeSlots|
      invariant 0 <= i <= |b.activeSlots|
      invariant |buffer| == i
      invariant forall j | 0 <= j < i ::
                  buffer[j] == PackInstance(getTransform(b.activeSlots[j], mb.material.drawingMode), b.activeSlots[j].rgba)
    {
      var ms := b.activeSlots[i];
      var mat := getTransform(ms, mb.material.drawingMode);
      PackUnpackAffineWhenAffine(mat, ms.rgba);
      buffer := buffer + [PackInstance(mat, ms.rgba)];
      i := i + 1;
    }
  }

  lemma PackUnpackAffineWhenAffine(mat: Matrix16, rgba: Vec4)
    ensures Affine(mat) ==> UnpackInstance(PackInstance(mat, rgba)) == mat
  {
    if Affine(mat) {
      PackUnpackAffine(mat, rgba);
    }
  }

  function RenderTrace(slots: seq<MeshSlot>): (t: seq<Event>)
    ensures |t| == |slots| && forall i | 0 <= i < |slots| :: t[i] == RenderMeshSlot(slots[i])
  {
    seq(|slots|, i requires 0 <= i < |slots| => RenderMeshSlot(slots[i]))
  }

  /**
   * RenderMeshSlots: nothing at all without active slots; otherwise the
   * settings update, then every active slot drawn once, in order, between
   * binding and unbinding the primitives.
   */
  method RenderMeshSlots(b: Bucket, mb: MaterialBucket, rasty: Rasterizer, meshFlag: bv16, isDynamic: nat -> bool)
    returns (r: Bucket, trace: seq<Event>)
    ensures |b.activeSlots| == 0 ==> r == b && trace == []
    ensures |b.activeSlots| > 0 ==>
              && r == b.(useDisplayList := r.useDisplayList, meshModified := r.meshModified)
              && (r.useDisplayList <==> DisplayListAllowed(b, mb, rasty, isDynamic))
              && (r.meshModified <==> MeshChanged(b, meshFlag, isDynamic))
              && trace == UpdateTrace(b, rasty, r.meshModified)
                          + [BindPrimitives] + RenderTrace(b.activeSlots) + [UnbindPrimitives]
  {
    if |b.activeSlots| == 0 {
      return b, [];
    }
    var pre;
    r, pre := UpdateActiveMeshSlots(b, mb, rasty, meshFlag, isDynamic);
    trace := pre + [BindPrimitives];
    var i := 0;
    while i < |r.activeSlots|
      invariant 0 <= i <= |r.activeSlots|
      invariant trace == pre + [BindPrimitives] + RenderTrace(r.activeSlots[..i])
    {
      trace := trace + [RenderMeshSlot(r.activeSlots[i])];
      assert r.activeSlots[..i + 1] == r.activeSlots[..i] + [r.activeSlots[i]];
      i := i + 1;
    }
    assert r.activeSlots[..i] == b.activeSlots;
    trace := trace + [UnbindPrimitives];
  }

  /**
   * RenderMeshSlotsInstancing: nothing at all without active slots;
   * otherwise the settings update, the buffer of one record per active
   * slot, and one instanced draw bracketed by the material's instancing
   * switch and the primitive binding.
   */
  method RenderMeshSlotsInstancing(b: Bucket, mb: MaterialBucket, rasty: Rasterizer, meshFlag: bv16,
                                   isDynamic: nat -> bool, getTransform: (MeshSlot, int) -> Matrix16)
    returns (r: Bucket, buffer: seq<InstancingObject>, trace: seq<Event>)
    ensures |b.activeSlots| == 0 ==> r == b && buffer == [] && trace == []
    ensures |b.activeSlots| > 0 ==>
              && r == b.(useDisplayList := r.useDisplayList, meshModified := r.meshModified)
              && (r.useDisplayList <==> DisplayListAllowed(b, mb, rasty, isDynamic))
              && (r.meshModified <==> MeshChanged(b, meshFlag, isDynamic))
              && |buffer| == |b.activeSlots|
              && (forall i | 0 <= i < |buffer| :: WellFormedRecord(buffer[i]))
              && (forall i | 0 <= i < |buffer| ::
                    Affine(getTransform(b.activeSlots[i], mb.material.drawingMode)) ==>
                      UnpackInstance(buffer[i]) == getTransform(b.activeSlots[i], mb.material.drawingMode))
              && trace == UpdateTrace(b, rasty, r.meshModified)
                          + [UploadInstances(|b.activeSlots|), ActivateInstancing, BindPrimitives,
                             IndexPrimitivesInstancing, DesactivateInstancing, UnbindPrimitives]
  {
    if |b.activeSlots| == 0 {
      return b, [], [];
    }
    var pre;
    r, pre := UpdateActiveMeshSlots(b, mb, rasty, meshFlag, isDynamic);
    buffer := UpdateActiveMeshSlotsInstancingBuffer(r, mb, getTransform);
    trace := pre + [UploadInstances(|buffer|), ActivateInstancing, BindPrimitives,
                    IndexPrimitivesInstancing, DesactivateInstancing, UnbindPrimitives];
  }
}
