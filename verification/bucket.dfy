/**
 * RAS_DisplayArrayBucket bookkeeping: the reference count, the registration
 * with the owning material bucket, the active mesh-slot list, the deformer
 * list, replicas and the per-frame render-settings decision.
 *
 * Buckets, display arrays, slots and deformers are named by address; the
 * material bucket is reduced to the list of display-array buckets it holds,
 * its z-sort flag and its material's three switches.
 */
module DisplayArrayBucket {
  import opened Common
  import opened Geometry
  import opened RasTypes

  const U32Modulus: int := 0x1_0000_0000

  /** An `unsigned int`. */
  type U32 = x: int | 0 <= x < U32Modulus

  datatype PolyMaterial = PolyMaterial(usesObjectColor: bool, useInstancing: bool, drawingMode: int)

  datatype MaterialBucket = MaterialBucket(arrayBuckets: seq<nat>, zSort: bool, material: PolyMaterial)

  /** A mesh slot drawn through this bucket: its game object, matrix and colour. */
  datatype MeshSlot = MeshSlot(clientObj: nat, glMatrix: seq<real>, rgba: Vec4)

  datatype Bucket = Bucket(
    addr: nat,
    refcount: U32,
    displayArray: Option<nat>,
    mesh: nat,
    activeSlots: seq<MeshSlot>,
    deformers: seq<nat>,
    useDisplayList: bool,
    meshModified: bool,
    storageInfo: Option<nat>)

  /** Registering a bucket with its material bucket (AddDisplayArrayBucket). */
  function Register(mb: MaterialBucket, addr: nat): (r: MaterialBucket)
    ensures r.arrayBuckets == mb.arrayBuckets + [addr]
    ensures r.zSort == mb.zSort && r.material == mb.material
  {
    mb.(arrayBuckets := mb.arrayBuckets + [addr])
  }

  /**
   * The constructor: one reference, no active slot or deformer, neither
   * flag set, no storage info, and the bucket registered with its material
   * bucket.
   */
  function NewBucket(addr: nat, mb: MaterialBucket, arr: Option<nat>, mesh: nat)
    : (r: (Bucket, MaterialBucket))
    ensures r.0.addr == addr && r.0.displayArray == arr && r.0.mesh == mesh
    ensures r.0.refcount == 1
    ensures GetNumActiveMeshSlots(r.0) == 0 && r.0.deformers == []
    ensures !r.0.useDisplayList && !r.0.meshModified && r.0.storageInfo.None?
    ensures addr in r.1.arrayBuckets && |r.1.arrayBuckets| == |mb.arrayBuckets| + 1
  {
    (Bucket(addr, 1, arr, mesh, [], [], false, false, None), Register(mb, addr))
  }

  // Reference counting

  /** ++m_refcount on an unsigned int. */
  function AddRef(b: Bucket): (r: Bucket)
    ensures r == b.(refcount := r.refcount)
    ensures b.refcount < U32Modulus - 1 ==> r.refcount == b.refcount + 1
    ensures b.refcount == U32Modulus - 1 ==> r.refcount == 0
  {
    b.(refcount := (b.refcount + 1) % U32Modulus)
  }

  /**
   * --m_refcount; the bucket is destroyed (None) exactly when the count
   * reaches zero, and otherwise is returned with the lower count.
   */
  function Release(b: Bucket): (r: Option<Bucket>)
    ensures r.None? <==> b.refcount == 1
    ensures r.Some? ==> r.value == b.(refcount := r.value.refcount)
    ensures r.Some? && b.refcount > 1 ==> r.value.refcount == b.refcount - 1
    ensures b.refcount == 0 ==> r == Some(b.(refcount := U32Modulus - 1))
  {
    var c := (b.refcount - 1) % U32Modulus;
    if c == 0 then None else Some(b.(refcount := c))
  }

  function GetRefCount(b: Bucket): U32 {
    b.refcount
  }

  /** A reference taken and given back leaves a live bucket as it was. */
  lemma AddRefThenRelease(b: Bucket)
    requires b.refcount != 0
    ensures Release(AddRef(b)) == Some(b)
  {
  }

  function AddRefs(b: Bucket, k: nat): Bucket
    decreases k
  {
    if k == 0 then b else AddRefs(AddRef(b), k - 1)
  }

  /** k releases in a row, stopping at destruction. */
  function Releases(b: Option<Bucket>, k: nat): Option<Bucket>
    decreases k
  {
    if k == 0 || b.None? then b else Releases(Release(b.value), k - 1)
  }

  lemma {:induction false} AddRefsCount(b: Bucket, k: nat)
    requires b.refcount + k < U32Modulus
    ensures AddRefs(b, k) == b.(refcount := b.refcount + k)
    decreases k
  {
    if k > 0 {
      AddRefsCount(AddRef(b), k - 1);
    }
  }

  lemma {:induction false} ReleasesCount(b: Bucket, k: nat)
    requires b.refcount > k
    ensures Releases(Some(b), k) == Some(b.(refcount := b.refcount - k))
    ensures Releases(Some(b), k + 1) == Release(b.(refcount := b.refcount - k))
    decreases k
  {
    if k > 0 {
      ReleasesCount(b.(refcount := b.refcount - 1), k - 1);
    }
  }

  /**
   * The lifetime of a bucket: after k further references and k releases it
   * is alive with its original count; a new bucket then dies on the next
   * release, and not before.
   */
  lemma BalancedLifetime(addr: nat, mb: MaterialBucket, arr: Option<nat>, mesh: nat, k: nat)
    requires 1 + k < U32Modulus
    ensures var b := NewBucket(addr, mb, arr, mesh).0;
            && Releases(Some(AddRefs(b, k)), k) == Some(b)
            && Releases(Some(AddRefs(b, k)), k + 1).None?
            && forall j | 0 <= j <= k :: Releases(Some(AddRefs(b, k)), j).Some?
  {
    var b := NewBucket(addr, mb, arr, mesh).0;
    AddRefsCount(b, k);
    var top := AddRefs(b, k);
    ReleasesCount(top, k);
    forall j | 0 <= j <= k
      ensures Releases(Some(top), j).Some?
    {
      ReleasesCount(top, j);
    }
  }

  // Active mesh slots

  function ActivateMesh(b: Bucket, slot: MeshSlot): (r: Bucket)
    ensures r.activeSlots == b.activeSlots + [slot]
    ensures r == b.(activeSlots := r.activeSlots)
    ensures |b.activeSlots| + 1 < U32Modulus ==> GetNumActiveMeshSlots(r) == GetNumActiveMeshSlots(b) + 1
  {
    b.(activeSlots := b.activeSlots + [slot])
  }

  function RemoveActiveMeshSlots(b: Bucket): (r: Bucket)
    ensures GetNumActiveMeshSlots(r) == 0
    ensures r == b.(activeSlots := [])
  {
    b.(activeSlots := [])
  }

  function GetNumActiveMeshSlots(b: Bucket): U32
  {
    |b.activeSlots| % U32Modulus
  }

  /** Activating slots one after another lists them in that order. */
  function ActivateAll(b: Bucket, slots: seq<MeshSlot>): Bucket
    decreases |slots|
  {
    if |slots| == 0 then b else ActivateAll(ActivateMesh(b, slots[0]), slots[1..])
  }

  lemma {:induction false} ActivateAllAppends(b: Bucket, slots: seq<MeshSlot>)
    ensures ActivateAll(b, slots) == b.(activeSlots := b.activeSlots + slots)
    decreases |slots|
  {
    if |slots| > 0 {
      ActivateAllAppends(ActivateMesh(b, slots[0]), slots[1..]);
      assert b.activeSlots + [slots[0]] + slots[1..] == b.activeSlots + slots;
    }
  }

  /** After clearing, the count is the number of slots activated since. */
  lemma ClearThenActivateCounts(b: Bucket, slots: seq<MeshSlot>)
    requires |slots| < U32Modulus
    ensures GetNumActiveMeshSlots(ActivateAll(RemoveActiveMeshSlots(b), slots)) == |slots|
    ensures ActivateAll(RemoveActiveMeshSlots(b), slots).activeSlots == slots
  {
    ActivateAllAppends(RemoveActiveMeshSlots(b), slots);
  }

  // Deformers

  function AddDeformer(b: Bucket, d: nat): (r: Bucket)
    ensures r.deformers == b.deformers + [d]
    ensures r == b.(deformers := r.deformers)
  {
    b.(deformers := b.deformers + [d])
  }

  /** Index of the first occurrence of `x` (std::find). */
  function FindFirst(s: seq<nat>, x: nat): (r: Option<nat>)
    ensures r.None? <==> x !in s
    ensures r.Some? ==> r.value < |s| && s[r.value] == x
    ensures r.Some? ==> forall j | 0 <= j < r.value :: s[j] != x
    decreases |s|
  {
    if |s| == 0 then None
    else if s[0] == x then Some(0)
    else match FindFirst(s[1..], x)
      case None => None
      case Some(i) => Some(i + 1)
  }

  /**
   * Erases the first occurrence of the deformer and keeps the rest in
   * order; nothing changes when it is absent.
   */
  function RemoveDeformer(b: Bucket, d: nat): (r: Bucket)
    ensures r == b.(deformers := r.deformers)
    ensures d !in b.deformers ==> r == b
    ensures d in b.deformers ==>
              exists i | 0 <= i < |b.deformers| ::
                && b.deformers[i] == d && d !in b.deformers[..i]
                && r.deformers == b.deformers[..i] + b.deformers[i + 1..]
    ensures multiset(r.deformers) == multiset(b.deformers) - multiset{d}
  {
    match FindFirst(b.deformers, d)
    case None => b
    case Some(i) =>
      var ds := b.deformers;
      EraseFirstFacts(ds, d, i);
      b.(deformers := ds[..i] + ds[i + 1..])
  }

  /** Erasing the first occurrence at i removes exactly one copy of it. */
  lemma EraseFirstFacts(ds: seq<nat>, d: nat, i: nat)
    requires i < |ds| && ds[i] == d
    requires forall j | 0 <= j < i :: ds[j] != d
    ensures d !in ds[..i]
    ensures multiset(ds[..i] + ds[i + 1..]) == multiset(ds) - multiset{d}
  {
    assert forall j | 0 <= j < i :: ds[..i][j] == ds[j];
    assert ds == ds[..i] + [d] + ds[i + 1..];
  }

  /** Adding a deformer that was not there and removing it again is a no-op. */
  lemma AddThenRemove(b: Bucket, d: nat)
    requires d !in b.deformers
    ensures RemoveDeformer(AddDeformer(b, d), d) == b
  {
    var ds := b.deformers + [d];
    assert FindFirst(ds, d) == Some(|b.deformers|);
    assert ds[..|b.deformers|] == b.deformers;
  }

  /** With the deformer already present, the earlier copy goes and the new one stays last. */
  lemma AddThenRemovePresent(b: Bucket, d: nat)
    requires d in b.deformers
    ensures RemoveDeformer(AddDeformer(b, d), d).deformers == RemoveDeformer(b, d).deformers + [d]
  {
    var i := FindFirst(b.deformers, d).value;
    FindFirstAppend(b.deformers, d, i);
    RemoveFoundAt(AddDeformer(b, d), d, i);
    RemoveFoundAt(b, d, i);
    CutBeforeAppend(b.deformers, d, i);
  }

  /** Appending keeps the first occurrence where it was. */
  lemma FindFirstAppend(s: seq<nat>, x: nat, i: nat)
    requires FindFirst(s, x) == Some(i)
    ensures FindFirst(s + [x], x) == Some(i)
  {
    var ds := s + [x];
    assert ds[i] == x;
    var j := FindFirst(ds, x).value;
    assert j <= i;
  }

  lemma CutBeforeAppend(s: seq<nat>, x: nat, i: nat)
    requires i < |s|
    ensures (s + [x])[..i] + (s + [x])[i + 1..] == s[..i] + s[i + 1..] + [x]
  {
    assert (s + [x])[..i] == s[..i];
    assert (s + [x])[i + 1..] == s[i + 1..] + [x];
  }

  /** RemoveDeformer cuts out exactly the position FindFirst reports. */
  lemma RemoveFoundAt(b: Bucket, d: nat, i: nat)
    requires FindFirst(b.deformers, d) == Some(i)
    ensures RemoveDeformer(b, d).deformers == b.deformers[..i] + b.deformers[i + 1..]
  {
  }

  // Replicas

  /**
   * GetReplica: a member-wise copy at a fresh address, reset by
   * ProcessReplica to one reference and no active slot, holding its own
   * copy of the display array (at the next fresh address) and registered
   * with the same material bucket. Deformers, mesh and storage-info
   * pointer are carried over as the copy made them. Returns the replica,
   * the material bucket and the next free address.
   */
  function GetReplica(b: Bucket, mb: MaterialBucket, next: nat): (r: (Bucket, MaterialBucket, nat))
    ensures var rep := r.0;
            && rep.addr == next && rep.refcount == 1 && GetNumActiveMeshSlots(rep) == 0
            && rep.displayArray.Some? == b.displayArray.Some?
            && (rep.displayArray.Some? ==> rep.displayArray.value >= next && rep.displayArray.value < r.2)
            && rep == b.(addr := rep.addr, refcount := 1, activeSlots := [], displayArray := rep.displayArray)
    ensures r.1 == Register(mb, next)
    ensures r.2 > next
  {
    var copy := b.(addr := next);
    var rep := copy.(refcount := 1, activeSlots := [],
                     displayArray := if b.displayArray.Some? then Some(next + 1) else None);
    (rep, Register(mb, next), if b.displayArray.Some? then next + 2 else next + 1)
  }

  /** A replica shares no display array with a bucket allocated below `next`. */
  lemma ReplicaOwnsItsArray(b: Bucket, mb: MaterialBucket, next: nat)
    requires b.addr < next && (b.displayArray.Some? ==> b.displayArray.value < next)
    ensures GetReplica(b, mb, next).0.addr != b.addr
    ensures GetReplica(b, mb, next).0.displayArray.Some? ==>
              GetReplica(b, mb, next).0.displayArray != b.displayArray
  {
  }

  /** The replica keeps the storage-info pointer of the bucket it was copied from. */
  lemma ReplicaKeepsStorageInfo(b: Bucket, mb: MaterialBucket, next: nat)
    ensures GetReplica(b, mb, next).0.storageInfo == b.storageInfo
  {
  }

  // Per-frame render settings

  datatype Rasterizer = Rasterizer(useDisplayLists: bool, drawingMode: int)

  datatype Event =
    | ApplyDeformer(deformer: nat)
    | StorageMeshModified(drawingMode: int, modified: bool)
    | BindPrimitives
    | RenderMeshSlot(slot: MeshSlot)
    | UnbindPrimitives
    | UploadInstances(count: nat)
    | ActivateInstancing
    | IndexPrimitivesInstancing
    | DesactivateInstancing

  predicate SomeDynamic(ds: seq<nat>, isDynamic: nat -> bool) {
    exists i | 0 <= i < |ds| :: isDynamic(ds[i])
  }

  /**
   * When display lists may be used: the rasterizer uses them, the bucket is
   * not z-sorted, the material uses neither object colour nor instancing,
   * there is a display array (none means modifiers) and no deformer is
   * dynamic.
   */
  predicate DisplayListAllowed(b: Bucket, mb: MaterialBucket, rasty: Rasterizer, isDynamic: nat -> bool) {
    && rasty.useDisplayLists
    && !mb.zSort
    && !mb.material.usesObjectColor && !mb.material.useInstancing
    && b.displayArray.Some?
    && !SomeDynamic(b.deformers, isDynamic)
  }

  /** When the mesh counts as modified this frame. */
  predicate MeshChanged(b: Bucket, meshFlag: bv16, isDynamic: nat -> bool) {
    SomeDynamic(b.deformers, isDynamic) || meshFlag & MeshModified != 0
  }

  function ApplyTrace(ds: seq<nat>): (t: seq<Event>)
    ensures |t| == |ds| && forall i | 0 <= i < |ds| :: t[i] == ApplyDeformer(ds[i])
  {
    seq(|ds|, i requires 0 <= i < |ds| => ApplyDeformer(ds[i]))
  }

  /** The calls of one settings update: each deformer applied, then the storage info told. */
  function UpdateTrace(b: Bucket, rasty: Rasterizer, modified: bool): seq<Event> {
    ApplyTrace(b.deformers)
    + (if b.storageInfo.Some? then [StorageMeshModified(rasty.drawingMode, modified)] else [])
  }

  /**
   * UpdateActiveMeshSlots. `isDynamic` reports each deformer's IsDynamic
   * after its Apply, and `meshFlag` is the mesh object's modified flag.
   * Every deformer is applied once, in list order; display lists are used
   * exactly when all five conditions hold; the mesh counts as modified
   * exactly when some deformer is dynamic or its MESH_MODIFIED bit is set;
   * the storage info, if any, is told so last.
   */
  method UpdateActiveMeshSlots(b: Bucket, mb: MaterialBucket, rasty: Rasterizer, meshFlag: bv16, isDynamic: nat -> bool)
    returns (r: Bucket, trace: seq<Event>)
    ensures r == b.(useDisplayList := r.useDisplayList, meshModified := r.meshModified)
    ensures r.useDisplayList <==> DisplayListAllowed(b, mb, rasty, isDynamic)
    ensures r.meshModified <==> MeshChanged(b, meshFlag, isDynamic)
    ensures trace == UpdateTrace(b, rasty, r.meshModified)
  {
    var useDisplayList := true;
    var meshModified := false;
    if !rasty.useDisplayLists {
      useDisplayList := false;
    } else if mb.zSort {
      useDisplayList := false;
    } else if mb.material.usesObjectColor || mb.material.useInstancing {
      useDisplayList := false;
    } else if b.displayArray.None? {
      useDisplayList := false;
    }
    ghost var staticOk := useDisplayList;
    trace := [];
    var i := 0;
    while i < |b.deformers|
      invariant 0 <= i <= |b.deformers|
      invariant trace == ApplyTrace(b.deformers[..i])
      invariant meshModified <==> SomeDynamic(b.deformers[..i], isDynamic)
      invariant useDisplayList <==> staticOk && !SomeDynamic(b.deformers[..i], isDynamic)
    {
      var d := b.deformers[i];
      trace := trace + [ApplyDeformer(d)];
      if isDynamic(d) {
        useDisplayList := false;
        meshModified := true;
      }
      assert b.deformers[..i + 1] == b.deformers[..i] + [d];
      i := i + 1;
    }
    assert b.deformers[..i] == b.deformers;
    if meshFlag & MeshModified != 0 {
      meshModified := true;
    }
    if b.storageInfo.Some? {
      trace := trace + [StorageMeshModified(rasty.drawingMode, meshModified)];
    }
    r := b.(useDisplayList := useDisplayList, meshModified := meshModified);
  }
}
