/**
 * The engine's own CPU skinning (BGEDeformVerts): the lazily built bone
 * channel cache, the per-vertex weight filtering, the total weight, the
 * blended displacement and the dominant channel used for the normal.
 */
module SkinBge {
  import opened Common
  import opened Geometry
  import opened SkinModel

  /** The pose channel lookup by name: the first channel of the pose with that name. */
  function FindChannel(pose: seq<PoseChannel>, name: string): (r: Option<nat>)
    ensures r.Some? ==> r.value < |pose| && pose[r.value].name == name
    ensures r.Some? ==> forall j | 0 <= j < r.value :: pose[j].name != name
    ensures r.None? ==> forall j | 0 <= j < |pose| :: pose[j].name != name
    decreases |pose|
  {
    if |pose| == 0 then None
    else if pose[0].name == name then Some(0)
    else match FindChannel(pose[1..], name)
      case None => None
      case Some(k) => Some(k + 1)
  }

  /** The cache slot for one deform group: the named channel unless its bone does not deform. */
  function CacheSlot(pose: seq<PoseChannel>, name: string): Option<nat> {
    match FindChannel(pose, name)
    case None => None
    case Some(k) => if pose[k].noDeform then None else Some(k)
  }

  /** Every filled slot of the cache points at a channel of the pose. */
  predicate CacheFits(cache: BoneCache, pose: seq<PoseChannel>) {
    forall g | 0 <= g < |cache| && cache[g].Some? :: cache[g].value < |pose|
  }

  /**
   * The bone channel cache as built when it is still null: slot i points
   * at the first channel named after the i-th deform group, unless there is
   * none or its bone does not deform.
   */
  function BuildCache(pose: seq<PoseChannel>, defbase: seq<string>): (cache: BoneCache)
    ensures |cache| == |defbase| && CacheFits(cache, pose)
    ensures forall i | 0 <= i < |defbase| && cache[i].Some? ::
              cache[i] == FindChannel(pose, defbase[i]) && !pose[cache[i].value].noDeform
    ensures forall i | 0 <= i < |defbase| && cache[i].None? ::
              FindChannel(pose, defbase[i]).Some? ==> pose[FindChannel(pose, defbase[i]).value].noDeform
  {
    seq(|defbase|, i requires 0 <= i < |defbase| => CacheSlot(pose, defbase[i]))
  }

  ghost predicate UniqueNames(pose: seq<PoseChannel>) {
    forall i, j | 0 <= i < j < |pose| :: pose[i].name != pose[j].name
  }

  /**
   * With unique channel names (as in a Blender pose), slot i is filled
   * exactly when some deforming channel carries the i-th group's name, and
   * then it points at that channel.
   */
  lemma BuildCacheExact(pose: seq<PoseChannel>, defbase: seq<string>, i: nat)
    requires UniqueNames(pose) && i < |defbase|
    ensures BuildCache(pose, defbase)[i].Some? <==>
              exists c | c in pose :: c.name == defbase[i] && !c.noDeform
    ensures forall j | 0 <= j < |pose| && pose[j].name == defbase[i] && !pose[j].noDeform ::
              BuildCache(pose, defbase)[i] == Some(j)
  {
    var cache := BuildCache(pose, defbase);
    if exists c | c in pose :: c.name == defbase[i] && !c.noDeform {
      var c :| c in pose && c.name == defbase[i] && !c.noDeform;
      var j :| 0 <= j < |pose| && pose[j] == c;
      var k := FindChannel(pose, defbase[i]);
      assert k.Some?;
      assert k.value == j;
    }
  }

  /** The same bones as an earlier pose, in the same order; only the matrices may differ. */
  predicate SameSkeleton(pose0: seq<PoseChannel>, pose: seq<PoseChannel>) {
    && |pose0| == |pose|
    && forall j | 0 <= j < |pose| :: pose0[j].name == pose[j].name && pose0[j].noDeform == pose[j].noDeform
  }

  lemma {:induction false} FindChannelSkeleton(pose0: seq<PoseChannel>, pose: seq<PoseChannel>, name: string)
    requires SameSkeleton(pose0, pose)
    ensures FindChannel(pose0, name) == FindChannel(pose, name)
    decreases |pose|
  {
    if |pose| > 0 && pose[0].name != name {
      assert SameSkeleton(pose0[1..], pose[1..]) by {
        assert forall j | 0 <= j < |pose| - 1 :: pose0[1..][j] == pose0[j + 1] && pose[1..][j] == pose[j + 1];
      }
      FindChannelSkeleton(pose0[1..], pose[1..], name);
    }
  }

  /** The cache the skinning pass uses: the existing one, or a fresh one if it is null. */
  function CacheFor(d: SkinDeformer, arma: Armature, obj: BlenderObject): BoneCache {
    if d.dfnrToPC.Some? then d.dfnrToPC.value else BuildCache(arma.pose, obj.defbase)
  }

  /** Channel matrix per deform group, as one pass reads them; `None` means "no influence". */
  type ChannelMats = seq<Option<Mat4>>

  /**
   * The matrices a pass reads through the cache: for a filled slot, the
   * chan_mat the pointed-at channel holds in the current pose.
   */
  function Resolve(cache: BoneCache, pose: seq<PoseChannel>): (mats: ChannelMats)
    requires CacheFits(cache, pose)
    ensures |mats| == |cache|
    ensures forall g | 0 <= g < |cache| :: mats[g].Some? <==> cache[g].Some?
    ensures forall g | 0 <= g < |cache| && cache[g].Some? :: mats[g].value == pose[cache[g].value].chanMat
  {
    seq(|cache|, g requires 0 <= g < |cache| =>
      if cache[g].Some? then Some(pose[cache[g].value].chanMat) else None)
  }

  /** The existing cache, if any, still fits the armature's pose and covers every deform group. */
  predicate CacheUsable(d: SkinDeformer, arma: Armature, obj: BlenderObject) {
    d.dfnrToPC.Some? ==> |obj.defbase| <= |d.dfnrToPC.value| && CacheFits(d.dfnrToPC.value, arma.pose)
  }

  /** The channel matrices of one skinning pass. */
  function PassMats(d: SkinDeformer, arma: Armature, obj: BlenderObject): ChannelMats
    requires CacheUsable(d, arma, obj)
  {
    Resolve(CacheFor(d, arma, obj), arma.pose)
  }

  /**
   * A cache built on an earlier frame reads the current matrices: when the
   * bones are unchanged, a pass with the stored cache sees exactly what a
   * pass with a cache built now would see.
   */
  lemma CacheFollowsPose(d: SkinDeformer, obj: BlenderObject, pose0: seq<PoseChannel>, arma: Armature)
    requires d.dfnrToPC == Some(BuildCache(pose0, obj.defbase))
    requires SameSkeleton(pose0, arma.pose)
    ensures CacheUsable(d, arma, obj)
    ensures PassMats(d, arma, obj) == PassMats(d.(dfnrToPC := None), arma, obj)
  {
    forall i | 0 <= i < |obj.defbase|
      ensures FindChannel(pose0, obj.defbase[i]) == FindChannel(arma.pose, obj.defbase[i])
    {
      FindChannelSkeleton(pose0, arma.pose, obj.defbase[i]);
    }
    assert BuildCache(pose0, obj.defbase) == BuildCache(arma.pose, obj.defbase);
  }

  /**
   * A weight entry contributes when its group index is below the group
   * count, its deform group has a channel and the weight is nonzero.
   */
  predicate Contributes(w: DeformWeight, mats: ChannelMats, defbaseTot: nat) {
    w.defNr < defbaseTot && w.defNr < |mats| && mats[w.defNr].Some? && w.weight != 0.0
  }

  /** Sum of the contributing weights (contrib). */
  function Contrib(ws: seq<DeformWeight>, mats: ChannelMats, tot: nat): real
    decreases |ws|
  {
    if |ws| == 0 then 0.0
    else
      var last := ws[|ws| - 1];
      Contrib(ws[..|ws| - 1], mats, tot) + (if Contributes(last, mats, tot) then last.weight else 0.0)
  }

  /** Weighted sum of the displacements chan_mat * co - co of the contributing entries (vec). */
  function Displacement(ws: seq<DeformWeight>, mats: ChannelMats, tot: nat, co: Vec4, num: Numerics): Vec4
    decreases |ws|
  {
    if |ws| == 0 then Zero4
    else
      var last := ws[|ws| - 1];
      var prev := Displacement(ws[..|ws| - 1], mats, tot, co, num);
      if Contributes(last, mats, tot) then
        Add4(prev, Scale4(Sub4(num.transform(mats[last.defNr].value, co), co), last.weight))
      else prev
  }

  /** max_weight after a prefix whose chosen entry is k: -1 when nothing was chosen. */
  function MaxWeight(ws: seq<DeformWeight>, k: Option<nat>): real
    requires k.Some? ==> k.value < |ws|
  {
    if k.None? then -1.0 else ws[k.value].weight
  }

  /**
   * The entry whose channel transforms the normal: scanning in order, a
   * contributing entry is chosen when its weight exceeds the best so far,
   * starting from -1.
   */
  function Dominant(ws: seq<DeformWeight>, mats: ChannelMats, tot: nat): (r: Option<nat>)
    ensures r.Some? ==> r.value < |ws|
    decreases |ws|
  {
    if |ws| == 0 then None
    else
      var prev := Dominant(ws[..|ws| - 1], mats, tot);
      var last := ws[|ws| - 1];
      if Contributes(last, mats, tot) && last.weight > MaxWeight(ws, prev) then Some(|ws| - 1)
      else prev
  }

  /**
   * The dominant entry is the first contributing entry of maximal weight,
   * provided that weight exceeds -1; there is none exactly when no
   * contributing weight exceeds -1.
   */
  lemma {:induction false} DominantIsFirstMaximal(ws: seq<DeformWeight>, mats: ChannelMats, tot: nat)
    ensures Dominant(ws, mats, tot).Some? <==>
              exists k | 0 <= k < |ws| :: Contributes(ws[k], mats, tot) && ws[k].weight > -1.0
    ensures Dominant(ws, mats, tot).Some? ==>
              var k := Dominant(ws, mats, tot).value;
              && Contributes(ws[k], mats, tot) && ws[k].weight > -1.0
              && (forall j | 0 <= j < |ws| && Contributes(ws[j], mats, tot) :: ws[j].weight <= ws[k].weight)
              && (forall j | 0 <= j < k && Contributes(ws[j], mats, tot) :: ws[j].weight < ws[k].weight)
    decreases |ws|
  {
    if |ws| > 0 {
      var n := |ws| - 1;
      var pre := ws[..n];
      DominantIsFirstMaximal(pre, mats, tot);
      assert forall j | 0 <= j < n :: pre[j] == ws[j];
    }
  }

  /** The channel matrix of the dominant entry, if there is one. */
  function DominantChannel(ws: seq<DeformWeight>, mats: ChannelMats, tot: nat): Option<Mat4> {
    match Dominant(ws, mats, tot)
    case None => None
    case Some(k) =>
      if Contributes(ws[k], mats, tot) then Some(mats[ws[k].defNr].value) else None
  }

  /**
   * The source divides by contrib and reads the dominant channel without a
   * check; a vertex with weights is only well-defined when both exist.
   */
  predicate SkinDefined(ws: seq<DeformWeight>, mats: ChannelMats, tot: nat) {
    |ws| == 0 || (Contrib(ws, mats, tot) != 0.0 && DominantChannel(ws, mats, tot).Some?)
  }

  /** The skinned position of one weighted vertex. */
  function SkinPosition(p: Vec3, ws: seq<DeformWeight>, mats: ChannelMats, tot: nat,
                        pre: Mat4, post: Mat4, num: Numerics): Vec3
    requires Contrib(ws, mats, tot) != 0.0
  {
    var co := num.transform(pre, Point(p));
    var blended := Add4(co, Div4(Displacement(ws, mats, tot, co, num), Contrib(ws, mats, tot)));
    Xyz(num.transform(post, blended.(w := 1.0)))
  }

  /** The skinned normal of one weighted vertex: rotated by the dominant channel only. */
  function SkinNormal(n: Vec3, ws: seq<DeformWeight>, mats: ChannelMats, tot: nat, num: Numerics): Vec3
    requires DominantChannel(ws, mats, tot).Some?
  {
    num.rotate(DominantChannel(ws, mats, tot).value, n)
  }

  /**
   * The inner loop over one vertex's weights: accumulates the displacement,
   * the total weight and the dominant channel in one pass.
   */
  method AccumulateWeights(ws: seq<DeformWeight>, mats: ChannelMats, tot: nat, co: Vec4, num: Numerics)
    returns (vec: Vec4, contrib: real, normChan: Option<Mat4>)
    ensures contrib == Contrib(ws, mats, tot)
    ensures vec == Displacement(ws, mats, tot, co, num)
    ensures normChan == DominantChannel(ws, mats, tot)
  {
    vec := Zero4;
    contrib := 0.0;
    normChan := None;
    var maxWeight := -1.0;
    ghost var best: Option<nat> := None;
    var j := 0;
    while j < |ws|
      invariant 0 <= j <= |ws|
      invariant contrib == Contrib(ws[..j], mats, tot)
      invariant vec == Displacement(ws[..j], mats, tot, co, num)
      invariant best == Dominant(ws[..j], mats, tot)
      invariant best.Some? ==> best.value < j && Contributes(ws[best.value], mats, tot)
      invariant maxWeight == MaxWeight(ws, best)
      invariant normChan == (if best.None? then None else Some(mats[ws[best.value].defNr].value))
    {
      var w := ws[j];
      assert ws[..j + 1][..j] == ws[..j];
      if w.defNr < tot && w.defNr < |mats| && mats[w.defNr].Some? {
        var weight := w.weight;
        if weight != 0.0 {
          var chanMat := mats[w.defNr].value;
          vec := Add4(vec, Scale4(Sub4(num.transform(chanMat, co), co), weight));
          if weight > maxWeight {
            maxWeight := weight;
            normChan := Some(chanMat);
            best := Some(j);
          }
          contrib := contrib + weight;
        }
      }
      assert MaxWeight(ws[..j + 1], Dominant(ws[..j], mats, tot)) == MaxWeight(ws, Dominant(ws[..j], mats, tot));
      j := j + 1;
    }
    assert ws[..|ws|] == ws;
    if best.Some? {
      DominantContributes(ws, mats, tot);
    }
  }

  lemma DominantContributes(ws: seq<DeformWeight>, mats: ChannelMats, tot: nat)
    requires Dominant(ws, mats, tot).Some?
    ensures Contributes(ws[Dominant(ws, mats, tot).value], mats, tot)
  {
    DominantIsFirstMaximal(ws, mats, tot);
  }

  /** A single full-weight entry on a resolved channel moves the vertex rigidly with that channel. */
  lemma SingleFullWeightIsRigid(p: Vec3, n: Vec3, g: nat, mats: ChannelMats, tot: nat,
                                pre: Mat4, post: Mat4, num: Numerics)
    requires g < tot && g < |mats| && mats[g].Some?
    ensures var ws := [DeformWeight(g, 1.0)];
            var chan := mats[g].value;
            && SkinDefined(ws, mats, tot)
            && SkinPosition(p, ws, mats, tot, pre, post, num)
               == Xyz(num.transform(post, num.transform(chan, num.transform(pre, Point(p))).(w := 1.0)))
            && SkinNormal(n, ws, mats, tot, num) == num.rotate(chan, n)
  {
    var ws := [DeformWeight(g, 1.0)];
    assert ws[..0] == [];
    assert Contrib(ws, mats, tot) == 1.0;
    assert Dominant(ws, mats, tot) == Some(0);
    assert DominantChannel(ws, mats, tot) == Some(mats[g].value);
    var co := num.transform(pre, Point(p));
    var t := num.transform(mats[g].value, co);
    assert Displacement(ws, mats, tot, co, num) == Add4(Zero4, Scale4(Sub4(t, co), 1.0));
    assert Add4(co, Div4(Add4(Zero4, Scale4(Sub4(t, co), 1.0)), 1.0)).(w := 1.0) == t.(w := 1.0);
  }

  /**
   * The vertex loop of BGEDeformVerts: a vertex without weights is left
   * alone, a weighted one gets the blended position and the dominant
   * channel's normal.
   */
  method SkinVertices(verts0: seq<Vec3>, nors0: seq<Vec3>, dv: seq<seq<DeformWeight>>, mats: ChannelMats, tot: nat,
                      pre: Mat4, post: Mat4, num: Numerics)
    returns (verts: seq<Vec3>, nors: seq<Vec3>)
    requires |nors0| == |verts0| && |dv| >= |verts0|
    requires forall i | 0 <= i < |verts0| :: SkinDefined(dv[i], mats, tot)
    ensures |verts| == |verts0| && |nors| == |nors0|
    ensures forall k | 0 <= k < |verts0| && |dv[k]| == 0 :: verts[k] == verts0[k] && nors[k] == nors0[k]
    ensures forall k | 0 <= k < |verts0| && |dv[k]| > 0 ::
              && SkinDefined(dv[k], mats, tot)
              && verts[k] == SkinPosition(verts0[k], dv[k], mats, tot, pre, post, num)
              && nors[k] == SkinNormal(nors0[k], dv[k], mats, tot, num)
  {
    verts, nors := verts0, nors0;
    var i := 0;
    while i < |verts0|
      invariant 0 <= i <= |verts0|
      invariant |verts| == |verts0| && |nors| == |nors0|
      invariant forall k | i <= k < |verts0| :: verts[k] == verts0[k] && nors[k] == nors0[k]
      invariant forall k | 0 <= k < i && |dv[k]| == 0 :: verts[k] == verts0[k] && nors[k] == nors0[k]
      invariant forall k | 0 <= k < i && |dv[k]| > 0 ::
                  && verts[k] == SkinPosition(verts0[k], dv[k], mats, tot, pre, post, num)
                  && nors[k] == SkinNormal(nors0[k], dv[k], mats, tot, num)
    {
      var ws := dv[i];
      if |ws| != 0 {
        var co := num.transform(pre, Point(verts[i]));
        var vec, contrib, normChan := AccumulateWeights(ws, mats, tot, co, num);
        nors := nors[i := num.rotate(normChan.value, nors[i])];
        var blended := Add4(co, Div4(vec, contrib));
        verts := verts[i := Xyz(num.transform(post, blended.(w := 1.0)))];
      }
      i := i + 1;
    }
  }

  /**
   * BGEDeformVerts: without deform weights nothing happens. Otherwise the
   * cache is built if it is null, every weighted vertex is skinned with the
   * channel matrices of the current pose, vertices without weights keep
   * position and normal, and the normals are marked for copying.
   */
  method BgeDeformVerts(d: SkinDeformer, obj: BlenderObject, mesh: Mesh, arma: Armature, num: Numerics)
    returns (d': SkinDeformer)
    requires d.base.storage.Some?
    requires |d.base.storage.value.verts| == |mesh.mvert| && |d.base.storage.value.nors| == |mesh.mvert|
    requires mesh.dvert.Some? ==> |mesh.dvert.value| >= |mesh.mvert| && CacheUsable(d, arma, obj)
    requires mesh.dvert.Some? ==>
               forall i | 0 <= i < |mesh.mvert| && i < |mesh.dvert.value| ::
                 SkinDefined(mesh.dvert.value[i], PassMats(d, arma, obj), |obj.defbase|)
    ensures mesh.dvert.None? ==> d' == d
    ensures mesh.dvert.Some? ==>
              var mats := PassMats(d, arma, obj);
              var tot := |obj.defbase|;
              var post := num.refFrame(d.obmat, arma.obmat);
              var pre := num.invert(post);
              var dv := mesh.dvert.value;
              var s := d.base.storage.value;
              && d'.base.storage.Some?
              && var s' := d'.base.storage.value;
              && d' == d.(copyNormals := true, dfnrToPC := Some(CacheFor(d, arma, obj)), base := d.base.(storage := Some(s')))
              && |s'.verts| == |s.verts| && |s'.nors| == |s.nors|
              && (forall i | 0 <= i < |s.verts| && |dv[i]| == 0 :: s'.verts[i] == s.verts[i] && s'.nors[i] == s.nors[i])
              && (forall i | 0 <= i < |s.verts| && |dv[i]| > 0 ::
                    && SkinDefined(dv[i], mats, tot)
                    && s'.verts[i] == SkinPosition(s.verts[i], dv[i], mats, tot, pre, post, num)
                    && s'.nors[i] == SkinNormal(s.nors[i], dv[i], mats, tot, num))
  {
    if mesh.dvert.None? {
      return d;
    }
    var dv := mesh.dvert.value;
    var tot := |obj.defbase|;
    var cache := if d.dfnrToPC.None? then BuildCache(arma.pose, obj.defbase) else d.dfnrToPC.value;
    assert cache == CacheFor(d, arma, obj);
    var mats := Resolve(cache, arma.pose);
    assert mats == PassMats(d, arma, obj);
    var post := num.refFrame(d.obmat, arma.obmat);
    var pre := num.invert(post);
    var verts, nors := SkinVertices(d.base.storage.value.verts, d.base.storage.value.nors, dv, mats, tot, pre, post, num);
    d' := d.(copyNormals := true, dfnrToPC := Some(cache),
             base := d.base.(storage := Some(Storage(verts, nors))));
  }
}
