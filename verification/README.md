# Skin deformer, python components and display-array buckets

A Dafny model of three pieces of the Blender Game Engine (UPBGE) and proofs
about them:

- **BL_SkinDeformer**, the deformer that skins a mesh with an armature
  (modules `SkinModel`, `SkinLifecycle`, `SkinBge`, `SkinSync`, `SkinUpdate`).
  The model covers:
  - the deform-flag computation;
  - construction, destruction, relinking and replicas;
  - the modified-attribute copy of `Apply`;
  - the engine's own CPU skinning: the lazily built bone-channel cache, the
    weight filtering, the total weight and the dominant channel. The cache
    holds the positions of the channels in the pose, standing for the
    channel pointers the code keeps, so every pass reads the `chan_mat` of
    the current pose;
  - the save and restore of the object matrix around Blender's
    `armature_deform_verts`;
  - the sync of the skinned vertices into the display arrays, with the
    bounding box accumulated over all materials;
  - the once-per-frame `UpdateInternal`, which brackets the skinning between
    applying and restoring the pose.

  Matrix arithmetic is kept abstract: a `Numerics` record of function
  values (transform, rotate, reference frame, inverse, Blender's deform
  call, normal recomputation) is passed in.
- **python_component.c**, the DNA side of Python components (modules
  `Component`, `ComponentMerge`, `ComponentList`). The model covers:
  - splitting `"module.class"`;
  - classifying the values of a class's `args` dictionary into typed
    properties;
  - the reconciliation of the new properties with the old list by name and
    type;
  - creating, reloading, copying and freeing components.

  Nodes carry an address `addr`, and a `next` counter allocates fresh ones.
  This lets the contracts say which nodes are moved, which are copied and
  which are freed.
- **RAS_DisplayArrayBucket**, the rasterizer's per-display-array draw bucket
  (modules `DisplayArrayBucket`, `BucketRender`). The model covers:
  - the unsigned reference count;
  - registration with the material bucket;
  - the active-slot and deformer lists;
  - replicas;
  - the per-frame choice between display lists and a modified mesh;
  - the packing of a column-major 4x4 matrix into an instancing record.

Shared vocabulary lives in `Common` (`Option`, `Result`), `Geometry`
(vectors, opaque matrices, boxes) and `RasTypes`/`RasMesh` (display
vertices, the mesh object's modified bits).

Where the code and its documentation differ, the model follows the code:

- A vertex whose weights sum to zero is divided by zero in
  `BGEDeformVerts`. The model does not invent a guard. It requires a
  non-zero total and a dominant channel (`SkinBge.SkinDefined`).
- The bone-channel cache is built only while it is null. It is not rebuilt
  when the number of vertex groups changes.
- The display array of the object's slot in each material is one field,
  `RasMesh.MeshMaterial.slot`, read by `Apply`, `UpdateTransverts` and
  `UpdateInternal` alike.

## Model

| member | source | states |
|---|---|---|
| SkinLifecycle.FirstArmature | source/gameengine/Converter/BL_SkinDeformer.cpp:74-80 | the first armature modifier of the stack: all modifiers before it are of another kind, and None exactly when there is no armature modifier |
| SkinLifecycle.DeformFlags | source/gameengine/Converter/BL_SkinDeformer.cpp:70-83 | the flags always contain ARM_DEF_VGROUP; with no armature modifier they are exactly that bit; otherwise they are that bit or-ed with the first armature modifier's deformflag |
| SkinLifecycle.LaterModifiersIgnored | source/gameengine/Converter/BL_SkinDeformer.cpp:74-80 | replacing every modifier after the first armature modifier leaves the flags unchanged |
| SkinLifecycle.NewSkinDeformer | source/gameengine/Converter/BL_SkinDeformer.cpp:85-100 | the frame stamp is -1, the deformer does not own the armature, recalculates normals, does not copy them, has no cache, and takes its matrix and flags from the mesh's object |
| SkinLifecycle.NewSkinDeformerReplacing | source/gameengine/Converter/BL_SkinDeformer.cpp:102-125 | as the first constructor, but ownership and normal recalculation are given, and the matrix and flags come from the object that owns the original mesh |
| SkinLifecycle.ReleasedOnDestroy | source/gameengine/Converter/BL_SkinDeformer.cpp:127-133 | the destructor releases an armature exactly when the release flag is set and the armature pointer is non-null, and then it is that armature |
| SkinLifecycle.Relink | source/gameengine/Converter/BL_SkinDeformer.cpp:135-142 | a null armature stays null and the map is untouched; otherwise the armature becomes its image in the map, and a missing key maps to null and is inserted |
| SkinLifecycle.GetReplica | source/gameengine/Converter/BL_SkinDeformer.cpp:191-207 | the replica has frame stamp -1, no release flag and no cache, and the base part the base-class reset produced; the armature pointer, matrix, flags and normal request are copied |
| SkinLifecycle.ReplicaNeverReleases | source/gameengine/Converter/BL_SkinDeformer.cpp:127-133 | destroying a replica never releases the armature it shares |
| SkinLifecycle.FirstConstructorNeverReleases | source/gameengine/Converter/BL_SkinDeformer.cpp:85-100 | a deformer from the first constructor never releases its armature |
| SkinLifecycle.ReplicaIdempotent | source/gameengine/Converter/BL_SkinDeformer.cpp:201-207 | replicating a replica, with the same base-class reset, gives the same state as replicating once |
| SkinLifecycle.Apply | source/gameengine/Converter/BL_SkinDeformer.cpp:144-189 | always false; no change without a vertex array, a material, a modified flag or a slot; otherwise each slot vertex receives, from the base vertex of the same index, the tangent only if the tangent bit is set, all UVs only if the UV bit is set and the colour only if the colour bit is set, while position, normal and origin index never change |
| SkinBge.FindChannel | source/gameengine/Converter/BL_SkinDeformer.cpp:250 | the pose-channel lookup yields the first channel with the given name, and None exactly when no channel has it |
| SkinBge.BuildCache | source/gameengine/Converter/BL_SkinDeformer.cpp:243-255 | one slot per deform group, each pointing into the pose; a filled slot points at the first channel with that group's name, whose bone deforms; an empty slot means there is no such channel or the first one does not deform |
| SkinBge.BuildCacheExact | source/gameengine/Converter/BL_SkinDeformer.cpp:243-255 | with unique channel names, slot i is filled exactly when a deforming channel bears the i-th group's name, and then it points at that channel |
| SkinBge.FindChannelSkeleton | source/gameengine/Converter/BL_SkinDeformer.cpp:250 | the name lookup gives the same channel in two poses with the same bones, whatever their matrices |
| SkinBge.Resolve | source/gameengine/Converter/BL_SkinDeformer.cpp:283-287 | a group has a matrix exactly when its cache slot is filled, and that matrix is the `chan_mat` the pointed-at channel holds in the pose being skinned |
| SkinBge.CacheFollowsPose | source/gameengine/Converter/BL_SkinDeformer.cpp:243-287 | a cache built on an earlier frame, for the same bones, makes a pass read exactly the matrices a cache built on this frame would: those of the current pose |
| SkinBge.DominantIsFirstMaximal | source/gameengine/Converter/BL_SkinDeformer.cpp:280-302 | the strict `weight > max_weight` scan from -1 selects the first contributing entry of maximal weight, and selects none exactly when no contributing weight exceeds -1 |
| SkinBge.DominantContributes | source/gameengine/Converter/BL_SkinDeformer.cpp:283-297 | the entry chosen for the normal is always a contributing one |
| SkinBge.AccumulateWeights | source/gameengine/Converter/BL_SkinDeformer.cpp:280-302 | the one-pass loop over a vertex's weights yields exactly the sum of the contributing weights, their weighted displacement and the dominant entry's channel |
| SkinBge.SingleFullWeightIsRigid | source/gameengine/Converter/BL_SkinDeformer.cpp:276-314 | a vertex with one full weight on a resolved channel moves rigidly with that channel, and its normal turns with it |
| SkinBge.BgeDeformVerts | source/gameengine/Converter/BL_SkinDeformer.cpp:230-317 | without deform weights nothing changes; otherwise the cache is built if null, normals are marked for copying, unweighted vertices keep position and normal, and weighted ones get the blended position and the dominant channel's normal, with the matrices of the current pose read through the cache |
| SkinBge.SkinVertices | source/gameengine/Converter/BL_SkinDeformer.cpp:263-315 | given the matrices the cache resolves for this pass, a vertex without weights keeps its position and normal, and a weighted vertex gets the weight-blended position taken through the armature-space matrices and its normal rotated by the dominant channel |
| SkinSync.AccumulateIsExactBounds | source/gameengine/Converter/BL_SkinDeformer.cpp:358-370 | the box seeded by the first point and grown by min/max contains every point, each of its six coordinates is attained, and there is a box exactly when there is a point |
| SkinSync.ThreePointBox | source/gameengine/Converter/BL_SkinDeformer.cpp:358-370 | the points (0,0,0), (2,0,0) and (0,3,0) give the box (0,0,0)-(2,3,0) |
| SkinSync.UpdateTransverts | source/gameengine/Converter/BL_SkinDeformer.cpp:319-377 | without a vertex array or a working buffer nothing changes; otherwise base slots and the modified flag are untouched, and every vertex of the object's slot in every material takes its position, and its normal only when requested, from the buffer entry of its origin index; the request is cleared; with automatic bounds and at least one vertex the box is exactly the bounds of all synced positions across materials |
| SkinSync.SyncArrayBounds | source/gameengine/Converter/BL_SkinDeformer.cpp:346-370 | one slot: every display vertex takes its buffer position (its normal when requested), and with automatic bounds the running box over the earlier positions becomes exactly the box of those positions followed by this slot's |
| SkinUpdate.NormalShortToFloat | source/gameengine/Converter/BL_SkinDeformer.cpp:390 | each component times 32767 gives back the stored short |
| SkinUpdate.RestStorage | source/gameengine/Converter/BL_SkinDeformer.cpp:383-392 | the rest copy has one entry per mesh vertex: entry v is vertex v's rest position and its stored normal scaled by 1/32767 |
| SkinUpdate.BlenderDeformVerts | source/gameengine/Converter/BL_SkinDeformer.cpp:209-228 | the foreign deform sees the deformer's reference matrix and flags, the object's own matrix is restored afterwards, normals are recomputed only when requested, and each position is Blender's deformed one |
| SkinUpdate.UpdateInternal | source/gameengine/Converter/BL_SkinDeformer.cpp:379-415 | without a pose update nothing happens; otherwise the trace is apply-pose, the chosen skinning, restore-pose; the frame stamp is the armature's last frame; the deformer becomes dynamic. Skinning starts from the shape-deformed buffer when a shape deform ran and from the rest pose otherwise. The engine's skinning keeps the start position and normal of unweighted vertices and skins the weighted ones with the current pose; without weights the buffer is the start buffer. Blender's deform moves every position, and the normals are recomputed or kept from the start buffer. The display vertices of the object's slots take the new positions, and the new normals exactly when the engine skinned or normals were already due, with every other vertex field, every base array, every slot-less material and the modified flag unchanged; with automatic bounds and at least one display vertex the box is exactly the bounds of all synced positions, and otherwise it is kept. Of the base part only the buffer, the dynamic mark and the box change |
| SkinUpdate.SkinPass | source/gameengine/Converter/BL_SkinDeformer.cpp:382-404 | the part of a fired update before the sync: the start buffer, apply-pose, the skinning of the armature's kind, the frame stamp, restore-pose and the dynamic mark; the cache is set exactly when the engine skinned with weights, normals become due exactly then, and the buffer is the start buffer skinned as `SkinnedFrom` describes |
| Component.CString | source/blender/blenkernel/intern/python_component.c:173 | the C string read from a Python str is its longest prefix without NUL |
| Component.StrNCopy | source/blender/blenkernel/intern/python_component.c:173 | the copy is the longest NUL-free prefix of at most size - 1 characters: it stops at the first NUL or at the buffer's end, and is the whole input when that fits and holds no NUL |
| Component.PyLongAsLong | source/blender/blenkernel/intern/python_component.c:178-184 | a value inside the 64-bit range is returned as is; one outside it gives -1 |
| Component.NarrowToInt | source/blender/blenkernel/intern/python_component.c:183-184 | the stored int lies in the 32-bit range and agrees with the long modulo 2^32 |
| Component.SetItems | source/blender/blenkernel/intern/python_component.c:193-211 | item j has value j, and its identifier and name are the j-th string cut to MAX_PROPSTRING |
| Component.Classify | source/blender/blenkernel/intern/python_component.c:167-221 | non-string keys and unsupported values are skipped; bool becomes BOOLEAN with data 0 or 1, int INT, float FLOAT, str STRING and set SET, in that order of tests; the name is cut to the 64-character buffer and at the first NUL |
| Component.BoolIsNeverInt | source/blender/blenkernel/intern/python_component.c:176-183 | a bool passes the int test yet is always classified BOOLEAN |
| Component.CreateProperty | source/blender/blenkernel/intern/python_component.c:67-101 | the fields a type does not use are cleared; INT, FLOAT and BOOLEAN keep data; STRING keeps ptr; SET keeps ptr, has data 0 and ptr2 the first identifier |
| Component.SetPropertyShape | source/blender/blenkernel/intern/python_component.c:93-97 | a set argument yields a SET property with data 0, item j equal to (j, j-th string) and ptr2 equal to the first string |
| Component.AcceptedSound | source/blender/blenkernel/intern/python_component.c:162-221 | every accepted argument is the classification of some entry, and every entry that classifies is accepted |
| Component.AcceptedAll | source/blender/blenkernel/intern/python_component.c:162-221 | when every entry is classifiable there is one argument per entry, in order |
| Component.FreshProperties | source/blender/blenkernel/intern/python_component.c:223 | one new property per accepted argument, at consecutive fresh addresses |
| ComponentMerge.FindMatch | source/blender/blenkernel/intern/python_component.c:227-228 | the first old property with the same name and type, or None exactly when there is none |
| ComponentMerge.RemoveAt | source/blender/blenkernel/intern/python_component.c:234 | unlinking one node keeps the others in order and removes exactly that node from the multiset |
| ComponentMerge.MergeShape | source/blender/blenkernel/intern/python_component.c:225-243 | one entry per new property, with its name and type; each is the new property or an old one of that key; a new property with no old counterpart is kept |
| ComponentMerge.FindMatchRemoveAt | source/blender/blenkernel/intern/python_component.c:227-234 | unlinking an old node of another key changes neither whether a lookup finds a match nor which node it finds |
| ComponentMerge.MergeTakesOver | source/blender/blenkernel/intern/python_component.c:225-243 | a new property whose key no earlier new property had is replaced by the first old property of that name and type, stored value and all, and kept only when there is none |
| ComponentMerge.MergeDiscardsMatched | source/blender/blenkernel/intern/python_component.c:229-235 | with distinct new keys, the new properties freed are exactly those that found an old counterpart, in order |
| ComponentMerge.MergeConserves | source/blender/blenkernel/intern/python_component.c:225-259 | every old and every new node ends up exactly once in the new list, among the freed new nodes or among the freed leftovers |
| ComponentMerge.LeftoversUnmatched | source/blender/blenkernel/intern/python_component.c:252-257 | when old keys are distinct, no freed leftover shares a name and type with any new property |
| ComponentMerge.CreateProperties | source/blender/blenkernel/intern/python_component.c:135-262 | without an args dictionary the component is unchanged; otherwise only the property list changes, and it has one entry per accepted argument |
| ComponentMerge.CreatePropertiesReconciles | source/blender/blenkernel/intern/python_component.c:223-259 | entry i has the i-th accepted argument's name and type; when an old property of that key existed and no earlier argument claimed it, entry i is that old property with its stored value, otherwise the new one; with distinct keys the freed nodes are the new properties taken over followed by the old ones nobody claimed, which match no argument; every node is kept or freed exactly once |
| ComponentMerge.StoredValueSurvives | source/blender/blenkernel/intern/python_component.c:225-243 | an int property "a" stored as 42 stays in the list, value and node, when the class now declares a = 5, and the new node is the one freed |
| ComponentList.NextToken | source/blender/blenkernel/intern/python_component.c:356-357 | a token found by strtok on "." is non-empty and contains no dot |
| ComponentList.NextTokenIsFirstRun | source/blender/blenkernel/intern/python_component.c:356-357 | the token is the first maximal dot-free run after the leading dots, and the rest starts just after the dot that ends it |
| ComponentList.NoTokenExactlyWhenAllDots | source/blender/blenkernel/intern/python_component.c:356-357 | strtok finds no token exactly when the string is empty or made only of dots |
| ComponentList.SkipLeadingDots | source/blender/blenkernel/intern/python_component.c:356 | any run of leading dots is skipped before a token |
| ComponentList.NextTokenAfterDots | source/blender/blenkernel/intern/python_component.c:356-357 | a dot-free token after any dots, followed by nothing or a dot, is found whole, and the rest follows that dot |
| ComponentList.SplitModuleAndClass | source/blender/blenkernel/intern/python_component.c:356-365 | leading and repeated dots are skipped: "m.c", "..m..c" and "m.c.more" all split into module m and class c |
| ComponentList.SplitModuleOnly | source/blender/blenkernel/intern/python_component.c:356-365 | one dot-free name between runs of dots, such as "m" or ".m.", splits into module m and an empty class name |
| ComponentList.LoadComponent | source/blender/blenkernel/intern/python_component.c:264-341 | loading fails when the module does not import, when only a module was named or when no valid class of that name exists; on success only the property list changes |
| ComponentList.DotImportCopiesNull | source/blender/blenkernel/intern/python_component.c:349-362 | the import "." passes the empty-string test, but strtok yields no module name, which is then copied |
| ComponentList.NewComponentFromModuleName | source/blender/blenkernel/intern/python_component.c:343-374 | an import with no module name is refused before anything is allocated; a created component has the split module and class names, a non-empty class name and the first fresh address |
| ComponentList.ModuleOnlyImportFails | source/blender/blenkernel/intern/python_component.c:280-283 | naming only a module never creates a component |
| ComponentList.RefusedExactlyWhenAllDots | source/blender/blenkernel/intern/python_component.c:349-357 | the corrected function refuses an import, allocating nothing, exactly when it is empty or made only of dots |
| ComponentList.CorrectedAgreesAsWritten | source/blender/blenkernel/intern/python_component.c:343-374 | on the empty import and on every import with a character other than a dot, the corrected function gives the code's outcome |
| ComponentList.ReloadComponent | source/blender/blenkernel/intern/python_component.c:376-379 | a failed reload leaves the component as it was; a successful one keeps its address and names |
| ComponentList.CopyComponents | source/blender/blenkernel/intern/python_component.c:381-410 | the copy has the same length and order; each component keeps its names and its property list copied element by element in order |
| ComponentList.CopyAddressesFresh | source/blender/blenkernel/intern/python_component.c:381-410 | the copy's nodes, each component followed by its properties, sit at consecutive fresh addresses |
| ComponentList.CopySharesNothing | source/blender/blenkernel/intern/python_component.c:381-410 | no node of the copy is a node of the original |
| ComponentList.FreeComponentsFreesAll | source/blender/blenkernel/intern/python_component.c:412-427 | every component and every property of the list is freed exactly once |
| DisplayArrayBucket.NewBucket | source/gameengine/Rasterizer/RAS_DisplayArrayBucket.cpp:54-65 | a new bucket holds one reference, no active slot, no deformer, neither flag and no storage info, and is registered with its material bucket |
| DisplayArrayBucket.AddRef | source/gameengine/Rasterizer/RAS_DisplayArrayBucket.cpp:77-81 | only the count changes; it goes up by one and wraps to 0 from the largest unsigned int |
| DisplayArrayBucket.Release | source/gameengine/Rasterizer/RAS_DisplayArrayBucket.cpp:83-91 | the bucket is destroyed exactly when the count was 1; otherwise only the count changes, going down by one, or wrapping from 0 to the largest unsigned int |
| DisplayArrayBucket.AddRefThenRelease | source/gameengine/Rasterizer/RAS_DisplayArrayBucket.cpp:77-91 | taking and giving back a reference leaves a bucket with a non-zero count as it was |
| DisplayArrayBucket.BalancedLifetime | source/gameengine/Rasterizer/RAS_DisplayArrayBucket.cpp:55-91 | a new bucket with k more references survives k releases, returning to its initial state, and dies on the next one |
| DisplayArrayBucket.ActivateMesh | source/gameengine/Rasterizer/RAS_DisplayArrayBucket.cpp:125-128 | appends one slot, raises the count by one and changes nothing else |
| DisplayArrayBucket.RemoveActiveMeshSlots | source/gameengine/Rasterizer/RAS_DisplayArrayBucket.cpp:135-143 | afterwards the count of active slots is 0 and nothing else changed |
| DisplayArrayBucket.ClearThenActivateCounts | source/gameengine/Rasterizer/RAS_DisplayArrayBucket.cpp:125-143 | after clearing and activating a list of slots, the active list is exactly that list and the count is its length |
| DisplayArrayBucket.AddDeformer | source/gameengine/Rasterizer/RAS_DisplayArrayBucket.cpp:145-148 | appends the deformer and changes nothing else |
| DisplayArrayBucket.FindFirst | source/gameengine/Rasterizer/RAS_DisplayArrayBucket.cpp:152 | std::find yields the first position holding the deformer, and None exactly when it is absent |
| DisplayArrayBucket.RemoveDeformer | source/gameengine/Rasterizer/RAS_DisplayArrayBucket.cpp:150-156 | nothing changes when the deformer is absent; otherwise its first occurrence is erased with the rest in order, removing exactly one copy from the multiset |
| DisplayArrayBucket.AddThenRemove | source/gameengine/Rasterizer/RAS_DisplayArrayBucket.cpp:145-156 | adding an absent deformer and removing it gives back the original bucket |
| DisplayArrayBucket.AddThenRemovePresent | source/gameengine/Rasterizer/RAS_DisplayArrayBucket.cpp:145-156 | adding a present deformer and removing it drops the earlier copy and keeps the new one last |
| DisplayArrayBucket.GetReplica | source/gameengine/Rasterizer/RAS_DisplayArrayBucket.cpp:98-113 | the replica is at a fresh address with one reference and no active slot, owns a display array at a fresh address exactly when the original had one, copies everything else, and is registered with the material bucket |
| DisplayArrayBucket.ReplicaOwnsItsArray | source/gameengine/Rasterizer/RAS_DisplayArrayBucket.cpp:105-113 | the replica and its display array are distinct from the original's |
| DisplayArrayBucket.ReplicaKeepsStorageInfo | source/gameengine/Rasterizer/RAS_DisplayArrayBucket.cpp:98-113 | the replica holds the original's storage-info pointer |
| DisplayArrayBucket.UpdateActiveMeshSlots | source/gameengine/Rasterizer/RAS_DisplayArrayBucket.cpp:168-210 | display lists are used exactly when the rasterizer uses them, the bucket is not z-sorted, the material uses neither object colour nor instancing, there is a display array and no deformer is dynamic; the mesh is modified exactly when a deformer is dynamic or the MESH_MODIFIED bit is set; every deformer is applied once in list order, then the storage info is told |
| BucketRender.PackInstance | source/gameengine/Rasterizer/RAS_DisplayArrayBucket.cpp:263-279 | record cell (r, c) is matrix entry (r, c), that is `mat[r + 4*c]`, for r and c below 3; position k is `mat[12 + k]`; colour is the slot colour times 255 |
| BucketRender.UnpackInstance | source/gameengine/Rasterizer/RAS_DisplayArrayBucket.cpp:263-274 | the matrix a record stands for is affine |
| BucketRender.PackUnpackAffine | source/gameengine/Rasterizer/RAS_DisplayArrayBucket.cpp:263-274 | packing loses only the last row, so an affine matrix is recovered exactly |
| BucketRender.UnpackPackRecord | source/gameengine/Rasterizer/RAS_DisplayArrayBucket.cpp:263-274 | a record's matrix and position survive unpacking and packing again |
| BucketRender.UpdateActiveMeshSlotsInstancingBuffer | source/gameengine/Rasterizer/RAS_DisplayArrayBucket.cpp:254-281 | one record per active slot, in order; record i holds the 3x3 part and translation of slot i's transform in the material's drawing mode and recovers an affine transform |
| BucketRender.RenderMeshSlots | source/gameengine/Rasterizer/RAS_DisplayArrayBucket.cpp:235-252 | nothing at all without active slots; otherwise the settings update, then each active slot drawn once in order between binding and unbinding |
| BucketRender.RenderMeshSlotsInstancing | source/gameengine/Rasterizer/RAS_DisplayArrayBucket.cpp:284-330 | nothing at all without active slots; otherwise the settings update, a buffer with one record per slot that recovers each affine transform, and one instanced draw inside the instancing and binding brackets |

## Left out

- Matrix and vector arithmetic (Eigen products and inverses, `chan_mat * co`, `normal_short_to_float_v3` apart from its scaling) is abstract. The functions come in as a `Numerics` record, and floating-point rounding is not modelled: scalars are `real`.
- `armature_deform_verts`, `RecalcNormals`, `ApplyPose`, `RestorePose` and `GetLastFrame` are foreign calls. They appear as trace events or as function parameters.
- `PoseUpdated` is declared in BL_SkinDeformer.h and its body is not modelled: it is a boolean input to `UpdateInternal`.
- `Update` only calls `UpdateInternal(false)`, which the model covers. `SetArmature` only assigns the armature pointer.
- The base class BL_MeshDeformer is not part of this model. Its constructor, `VerifyStorage`, `ProcessReplica`, `Relink` and `RecalcNormals` are not modelled: `VerifyStorage` is taken to have sized the working buffer, and the base part of the state is carried as `MeshDeformerBase`.
- The header constants are not part of this model. They are taken as ARM_DEF_VGROUP = 1, MESH/TANGENT/UVS/COLORS_MODIFIED = 1/2/4/8, MAX_PROPSTRING = 128, and a 64-byte property name buffer. The proofs use only the distinctness of the bits.
- SkinLifecycle.GetReplica: the base-class `BL_MeshDeformer::ProcessReplica` is not modelled; the base part it leaves is a parameter, and nothing is promised about how it relates to the original's.
- SkinLifecycle.Apply: requires the object's slot to be no longer than the material's base array. The code reads `origarray->m_vertex[i]` for every index of the slot without a bound check.
- SkinLifecycle.Apply: a display vertex's UV layers are a sequence, and the whole sequence is copied. The code copies the 8 layers of `RAS_TexVert`'s fixed array one by one, which is the same when both vertices carry those 8 layers.
- SkinSync.UpdateTransverts: requires every display vertex's origin index to be inside the working buffer's positions and normals. The code reads `m_transverts[v.getOrigIndex()]` and `m_transnors[...]` without a bound check.
- SkinUpdate.UpdateInternal: requires every display vertex's origin index to be below the mesh's vertex count, for the reason given under `SkinSync.UpdateTransverts`.
- SkinUpdate.UpdateInternal: on the BGE path, requires (through `SkinUpdate.BgeReady`) the deform-vertex array to be at least as long as the vertex array, besides the cache and weight conditions of `SkinBge.BgeDeformVerts`. The code steps `dv++` over `totvert` entries without a bound check.
- SkinUpdate.UpdateInternal: with `shapeApplied`, requires the working buffer to exist and to have one entry per vertex, which `VerifyStorage` of the base class is taken to have ensured.
- SkinBge.BgeDeformVerts: requires the cache to have a slot for every group. The code indexes a cache built for an earlier group count without a bound check.
- SkinBge.BgeDeformVerts: requires a stored cache to point into the current pose. The code keeps raw channel pointers, which a rebuilt pose would leave dangling.
- SkinBge.BgeDeformVerts: requires every weighted vertex to have a non-zero total and a dominant channel. The code divides by zero, or reuses the previous vertex's `norm_chan_mat`, otherwise.
- SkinBge.SkinVertices: requires every weighted vertex to have a non-zero total and a dominant channel, for the reason given under `SkinBge.BgeDeformVerts`.
- SkinBge.BgeDeformVerts: negative `def_nr` values cannot be expressed (they are `nat`).
- SkinSync.UpdateTransverts: the `m_slots[...]` lookup of `std::map::operator[]` inserts a null slot for a missing key. The model takes the object's slot of each material as given and does not model that insertion.
- SkinLifecycle.Apply: the object's slot is taken as already resolved per material, without the client-info map lookup.
- The Python C-API is not modelled. This covers the GIL, reference counts, removing the module from the module dictionary, iterating the module's objects and `verify_class`. A `PythonEnv` stands for the import and the search for a valid class.
- A set's elements are taken to be strings, in iteration order. The code converts each with `_PyUnicode_AsString` without checking.
- Component.PyLongAsLong: C `long` is taken as 64 bits (LP64). Where `long` is 32 bits (LLP64, as on Windows), `PyLong_AsLong` reports overflow, and the code stores -1, for every value outside the 32-bit range. Component.NarrowToInt follows the usual compilers' two's-complement truncation of `long` to `int`, which C leaves implementation-defined.
- Component.StrNCopy: cuts at size - 1 characters. `BLI_strncpy` cuts at size - 1 bytes of the UTF-8 text `_PyUnicode_AsString` returns, so a non-ASCII name is cut shorter in the code (possibly inside a character) and can then match a different property. Names are `seq<char>`, not byte sequences.
- Component.Classify: the property name is cut to 63 characters, not 63 UTF-8 bytes, for the reason given under `Component.StrNCopy`; the same holds for string values and set items cut to MAX_PROPSTRING.
- ComponentList.NewComponentFromModuleName: the import string is taken by value. `strtok` writes a NUL over the delimiter that ends each token it returns, in the caller's buffer, so after the call the caller's `"m.c"` reads as `"m"`; that write into the caller's buffer is not modelled. The same holds for ComponentList.NewComponentAsWritten.
- ComponentList.NewComponentFromModuleName: the module and class names are copied with `strcpy` into the component's fixed-size DNA buffers without a bound. The buffer sizes are in a DNA header that is not part of this model, and names of any length are accepted.
- Component.Classify: a float is kept as a `real`. The code rounds it to a C `float` and stores its bits in `data`.
- ComponentList.CopyComponents: copies property nodes by address. The `ptr`/`ptr2` buffers that `copy_property` duplicates keep their values but are not given addresses of their own.
- `create_property` returning NULL (allocation failure) is not modelled. MEM allocation never fails in the model.
- `printf` and `BKE_report` diagnostics are not modelled.
- GL calls are not modelled: buffer generation, mapping and upload, the binding calls and the instancing activation are trace events.
- `SetClientObject` is not modelled: the transform getter takes the slot itself.
- The engine timer in `RenderMeshSlotsInstancing` is not modelled.
- `RAS_MaterialBucket` is not part of this model. Adding a bucket to it is taken as appending the bucket's address. The destructor's deregistration, `DestructStorageInfo` and the deletion of the display array are not modelled.
- DisplayArrayBucket.GetReplica: the copy constructor `GetReplica` calls is the one of RAS_DisplayArrayBucket.h (or the compiler's), which is not modelled. The replica is taken to copy every field, the storage-info pointer and the deformer list included.
- `SetMeshUnmodified`, `SetStorageInfo` and the plain getters only read or assign a field. They are not modelled separately.

## Findings

| source | as written | input that shows it | evidently intended | confidence | as-written member | corrected member |
|---|---|---|---|---|---|---|
| source/blender/blenkernel/intern/python_component.c:349-362 | only the empty string is refused; the first `strtok` result is passed to `strcpy` unchecked | the import `"."` (or any string made only of dots): `strtok` returns NULL and `strcpy(pc->module, NULL)` is reached | an import without a module name is refused like an empty one, with nothing allocated | medium, not executed | ComponentList.DotImportCopiesNull | ComponentList.NewComponentFromModuleName |
