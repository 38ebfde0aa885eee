/** Mesh simplification (`App.simplifyMesh` in viewer.js): a per-mesh state machine over the
    mesh's current geometry and the original geometry it caches on first use. The slider's
    ratio is modelled as an integer percentage (the slider moves in steps of 0.01), the
    third-party `SimplifyModifier.modify` as the parameter `decimate`, and `calculateModelStats`
    as the parameter `stats`. */
module Simplify {
  import opened Wrappers
  import Scene
  import Registry

  /** The three alerts of the guards, and the `TypeError` raised when a cached original has
      no index (it is raised before anything is changed). */
  datatype SimplifyError = NoActiveModel | MeshNotFound | NotIndexed | OriginalNotIndexed

  /** `Math.round(originalCount * ratio)` with `originalCount = index.count / 3` and
      `ratio = percent / 100`, in exact arithmetic. */
  function TargetTriangles(indexCount: nat, percent: nat): (t: nat)
    requires percent <= 100
    ensures (t as real) - 0.5 <= (indexCount as real / 3.0) * (percent as real / 100.0) < (t as real) + 0.5
  {
    var t := (indexCount * percent + 150) / 300;
    assert (indexCount as real / 3.0) * (percent as real / 100.0) == (indexCount * percent) as real / 300.0;
    t
  }

  /** The target never asks for more triangles than the original has (rounded up when the
      index count is not a multiple of three). */
  lemma TargetWithinOriginal(indexCount: nat, percent: nat)
    requires percent <= 100
    ensures 3 * TargetTriangles(indexCount, percent) <= indexCount + 2
    ensures indexCount % 3 == 0 ==> TargetTriangles(indexCount, percent) <= indexCount / 3
  {
    var t := TargetTriangles(indexCount, percent);
    var q := indexCount * percent;
    assert t == (q + 150) / 300;
    assert 300 * t <= q + 150;
    ScaleBelow(indexCount, percent);
    assert 300 * t <= 100 * indexCount + 150;
    if indexCount % 3 == 0 {
      var k := indexCount / 3;
      assert indexCount == 3 * k;
    }
  }

  lemma ScaleBelow(c: nat, p: nat)
    requires p <= 100
    ensures c * p <= 100 * c
  {
  }

  /** The geometry the mesh is simplified from: the cached original, or the current geometry
      when nothing is cached yet. */
  function Source(k: Scene.Kind): Scene.Geometry
    requires k.Mesh?
  {
    if k.original.Some? then k.original.value else k.geometry
  }

  /** The mesh's data after a successful call: the geometry it was simplified from is kept as
      the cached original, and the current geometry is that original (ratio 0.99 and above) or
      the modifier's output for it. */
  function Resimplified(d: Scene.Data, percent: nat, decimate: (Scene.Geometry, nat) -> Scene.Geometry): Scene.Data
    requires d.kind.Mesh? && percent <= 100 && (percent >= 99 || Source(d.kind).index.Some?)
  {
    var original := Source(d.kind);
    var g := if percent >= 99 then original
             else decimate(original, TargetTriangles(original.index.value, percent));
    d.(kind := d.kind.(geometry := g, original := Some(original)))
  }

  /** `App.simplifyMesh(uuid, percent / 100)`. */
  function SimplifyMesh(r: Registry.Registry, u: Scene.Uuid, percent: nat,
                        decimate: (Scene.Geometry, nat) -> Scene.Geometry,
                        stats: Scene.Node -> Scene.Stats): (res: Result<Registry.Registry, SimplifyError>)
    requires percent <= 100
    ensures res == Err(NoActiveModel) <==> Registry.Active(r).None?
    ensures res == Err(MeshNotFound) <==>
              Registry.Active(r).Some? && (Registry.ObjectData(r, u).None? || !Registry.ObjectData(r, u).value.kind.Mesh?)
    ensures res == Err(NotIndexed) <==>
              Registry.ObjectData(r, u).Some? && Registry.ObjectData(r, u).value.kind.Mesh? && Registry.ObjectData(r, u).value.kind.geometry.index.None?
    ensures res == Err(OriginalNotIndexed) <==>
              && Registry.ObjectData(r, u).Some? && Registry.ObjectData(r, u).value.kind.Mesh?
              && Registry.ObjectData(r, u).value.kind.geometry.index.Some?
              && percent < 99 && Source(Registry.ObjectData(r, u).value.kind).index.None?
    ensures res.Ok? <==>
              && Registry.ObjectData(r, u).Some? && Registry.ObjectData(r, u).value.kind.Mesh?
              && Registry.ObjectData(r, u).value.kind.geometry.index.Some?
              && (percent >= 99 || Source(Registry.ObjectData(r, u).value.kind).index.Some?)
    ensures res.Ok? ==> Registry.Active(r).Some? && res.value.models.Keys == r.models.Keys
    ensures res.Ok? ==>
              var id := r.active.value;
              var m, m' := r.models[id], res.value.models[id];
              && Registry.Put(r, id, m') == res.value
              && m'.info.polygons == stats(m'.scene).polygons
              && m'.info.vertices == stats(m'.scene).vertices
              && m'.info.name == m.info.name && m'.info.size == m.info.size
              && m'.attached == m.attached && m'.mixer == m.mixer && m'.animation == m.animation
    ensures res.Ok? ==> Registry.ObjectData(res.value, u).Some? && Registry.ObjectData(res.value, u).value.kind.Mesh?
    ensures res.Ok? ==>
              var id := r.active.value;
              Scene.Rewritten(r.models[id].scene, res.value.models[id].scene, u, Registry.ObjectData(res.value, u).value)
    ensures res.Ok? && Registry.Valid(r) ==> Registry.Valid(res.value)
  {
    if Registry.Active(r).None? then Err(NoActiveModel)
    else
      var id := r.active.value;
      var m := r.models[id];
      match Scene.Find(m.scene, u)
      case None => Err(MeshNotFound)
      case Some(o) =>
        if !o.data.kind.Mesh? then Err(MeshNotFound)
        else if o.data.kind.geometry.index.None? then Err(NotIndexed)
        else
          if percent < 99 && Source(o.data.kind).index.None? then Err(OriginalNotIndexed)
          else
            var d := Resimplified(o.data, percent, decimate);
            var m' := Registry.Recount(m.(scene := Scene.SetData(m.scene, u, d)), stats);
            Scene.FindAfterSetData(m.scene, u, d);
            Scene.SetDataRewrites(m.scene, u, d);
            Ok(Registry.Put(r, id, m'))
  }

  /** What a successful call leaves on the mesh: the same name, visibility and material, the
      geometry it was simplified from cached as the original, and a new current geometry. */
  lemma Simplified(r: Registry.Registry, u: Scene.Uuid, percent: nat,
                   decimate: (Scene.Geometry, nat) -> Scene.Geometry,
                   stats: Scene.Node -> Scene.Stats) returns (d: Scene.Data, d': Scene.Data)
    requires percent <= 100 && SimplifyMesh(r, u, percent, decimate, stats).Ok?
    ensures Registry.ObjectData(r, u) == Some(d) && d.kind.Mesh? && d.kind.geometry.index.Some?
    ensures Registry.ObjectData(SimplifyMesh(r, u, percent, decimate, stats).value, u) == Some(d')
    ensures d'.name == d.name && d'.visible == d.visible && d'.kind.Mesh?
    ensures d'.kind.material == d.kind.material
    ensures d'.kind.original == Some(Source(d.kind))
    ensures percent >= 99 ==> d'.kind.geometry == Source(d.kind)
    ensures percent < 99 ==>
              && Source(d.kind).index.Some?
              && d'.kind.geometry == decimate(Source(d.kind), TargetTriangles(Source(d.kind).index.value, percent))
  {
    var id := r.active.value;
    var m := r.models[id];
    d := Registry.ObjectData(r, u).value;
    d' := Resimplified(d, percent, decimate);
    Scene.FindAfterSetData(m.scene, u, d');
  }

  /** The original is cached on the first successful call and never replaced afterwards. */
  lemma CachesOriginalOnce(r: Registry.Registry, u: Scene.Uuid, percent: nat,
                           decimate: (Scene.Geometry, nat) -> Scene.Geometry,
                           stats: Scene.Node -> Scene.Stats)
    requires percent <= 100 && SimplifyMesh(r, u, percent, decimate, stats).Ok?
    ensures var k, k' := Registry.ObjectData(r, u).value.kind, Registry.ObjectData(SimplifyMesh(r, u, percent, decimate, stats).value, u).value.kind;
            && k'.original.Some?
            && (k.original.Some? ==> k'.original == k.original)
            && (k.original.None? ==> k'.original == Some(k.geometry))
  {
    var d, d' := Simplified(r, u, percent, decimate, stats);
  }

  /** A ratio of 0.99 or more puts back a copy of the cached original. */
  lemma HighRatioRestoresOriginal(r: Registry.Registry, u: Scene.Uuid, percent: nat,
                                  decimate: (Scene.Geometry, nat) -> Scene.Geometry,
                                  stats: Scene.Node -> Scene.Stats)
    requires 99 <= percent <= 100 && SimplifyMesh(r, u, percent, decimate, stats).Ok?
    ensures var k' := Registry.ObjectData(SimplifyMesh(r, u, percent, decimate, stats).value, u).value.kind;
            k'.original.Some? && k'.geometry == k'.original.value
  {
    var d, d' := Simplified(r, u, percent, decimate, stats);
  }

  /** Below 0.99 the new geometry is the modifier's output for the cached original and a target
      computed from the original's index count, never from the current geometry. */
  lemma LowRatioDecimatesOriginal(r: Registry.Registry, u: Scene.Uuid, percent: nat,
                                  decimate: (Scene.Geometry, nat) -> Scene.Geometry,
                                  stats: Scene.Node -> Scene.Stats)
    requires percent < 99 && SimplifyMesh(r, u, percent, decimate, stats).Ok?
    ensures var k' := Registry.ObjectData(SimplifyMesh(r, u, percent, decimate, stats).value, u).value.kind;
            && k'.original.Some? && k'.original.value.index.Some?
            && k'.geometry == decimate(k'.original.value, TargetTriangles(k'.original.value.index.value, percent))
            && 3 * TargetTriangles(k'.original.value.index.value, percent) <= k'.original.value.index.value + 2
  {
    var d, d' := Simplified(r, u, percent, decimate, stats);
    TargetWithinOriginal(Source(d.kind).index.value, percent);
  }

  /** The registry with the mesh's current geometry replaced by `g`. */
  function WithCurrentGeometry(r: Registry.Registry, u: Scene.Uuid, g: Scene.Geometry): Registry.Registry
    requires Registry.ObjectData(r, u).Some? && Registry.ObjectData(r, u).value.kind.Mesh?
  {
    var d := Registry.ObjectData(r, u).value;
    Registry.SetObjectData(r, u, d.(kind := d.kind.(geometry := g)))
  }

  /** The state a successful call leaves: the mesh's data `Resimplified` in the active model's
      scene, and that model's counts taken again. */
  function SimplifiedState(r: Registry.Registry, u: Scene.Uuid, percent: nat,
                           decimate: (Scene.Geometry, nat) -> Scene.Geometry,
                           stats: Scene.Node -> Scene.Stats): Registry.Registry
    requires percent <= 100
    requires Registry.ObjectData(r, u).Some? && Registry.ObjectData(r, u).value.kind.Mesh?
    requires percent >= 99 || Source(Registry.ObjectData(r, u).value.kind).index.Some?
  {
    var id := r.active.value;
    var m := r.models[id];
    var d := Resimplified(Registry.ObjectData(r, u).value, percent, decimate);
    Registry.Put(r, id, Registry.Recount(m.(scene := Scene.SetData(m.scene, u, d)), stats))
  }

  /** When every guard passes, the call succeeds with `SimplifiedState`. */
  lemma SimplifyOutcome(r: Registry.Registry, u: Scene.Uuid, percent: nat,
                        decimate: (Scene.Geometry, nat) -> Scene.Geometry,
                        stats: Scene.Node -> Scene.Stats)
    requires percent <= 100
    requires Registry.ObjectData(r, u).Some? && Registry.ObjectData(r, u).value.kind.Mesh?
    requires Registry.ObjectData(r, u).value.kind.geometry.index.Some?
    requires percent >= 99 || Source(Registry.ObjectData(r, u).value.kind).index.Some?
    ensures SimplifyMesh(r, u, percent, decimate, stats) == Ok(SimplifiedState(r, u, percent, decimate, stats))
  {
  }

  /** Replacing the current geometry leaves the guards alone and the simplified state too. */
  lemma SimplifiedStateIgnoresCurrentGeometry(r: Registry.Registry, u: Scene.Uuid, g: Scene.Geometry, percent: nat,
                                              decimate: (Scene.Geometry, nat) -> Scene.Geometry,
                                              stats: Scene.Node -> Scene.Stats)
    requires percent <= 100
    requires Registry.ObjectData(r, u).Some? && Registry.ObjectData(r, u).value.kind.Mesh?
    requires Registry.ObjectData(r, u).value.kind.original.Some?
    requires percent >= 99 || Source(Registry.ObjectData(r, u).value.kind).index.Some?
    ensures SimplifiedState(WithCurrentGeometry(r, u, g), u, percent, decimate, stats)
            == SimplifiedState(r, u, percent, decimate, stats)
  {
    var id := r.active.value;
    var m := r.models[id];
    var d := Registry.ObjectData(r, u).value;
    var d2 := d.(kind := d.kind.(geometry := g));
    var r2 := WithCurrentGeometry(r, u, g);
    assert r2 == Registry.Put(r, id, m.(scene := Scene.SetData(m.scene, u, d2)));
    var dn := Resimplified(d, percent, decimate);
    assert Resimplified(d2, percent, decimate) == dn;
    Scene.SetDataTwice(m.scene, u, d2, dn);
    var m' := Registry.Recount(m.(scene := Scene.SetData(m.scene, u, dn)), stats);
    assert Registry.Put(r2, id, m').models == Registry.Put(r, id, m').models;
  }

  /** Once an original is cached, the outcome does not depend on the current geometry: two
      states that differ only in it (both indexed) simplify to the same state. */
  lemma OutcomeIgnoresCurrentGeometry(r: Registry.Registry, u: Scene.Uuid, g: Scene.Geometry, percent: nat,
                                      decimate: (Scene.Geometry, nat) -> Scene.Geometry,
                                      stats: Scene.Node -> Scene.Stats)
    requires percent <= 100
    requires Registry.ObjectData(r, u).Some? && Registry.ObjectData(r, u).value.kind.Mesh?
    requires Registry.ObjectData(r, u).value.kind.original.Some?
    requires Registry.ObjectData(r, u).value.kind.geometry.index.Some? && g.index.Some?
    ensures SimplifyMesh(WithCurrentGeometry(r, u, g), u, percent, decimate, stats)
            == SimplifyMesh(r, u, percent, decimate, stats)
  {
    var d := Registry.ObjectData(r, u).value;
    var r2 := WithCurrentGeometry(r, u, g);
    assert Registry.ObjectData(r2, u) == Some(d.(kind := d.kind.(geometry := g)));
    if percent >= 99 || Source(d.kind).index.Some? {
      SimplifiedStateIgnoresCurrentGeometry(r, u, g, percent, decimate, stats);
      SimplifyOutcome(r, u, percent, decimate, stats);
      SimplifyOutcome(r2, u, percent, decimate, stats);
    }
  }

  /** `decimate` keeps geometries indexed (three.js's modifier writes an index). */
  ghost predicate KeepsIndex(decimate: (Scene.Geometry, nat) -> Scene.Geometry)
  {
    forall g: Scene.Geometry, t: nat :: g.index.Some? ==> decimate(g, t).index.Some?
  }

  /** Round trip: after any successful simplification, moving the slider back to 100% succeeds
      and restores the geometry the mesh had before it was first simplified. */
  lemma SimplifyThenRestore(r: Registry.Registry, u: Scene.Uuid, percent: nat,
                            decimate: (Scene.Geometry, nat) -> Scene.Geometry,
                            stats: Scene.Node -> Scene.Stats)
    requires percent <= 100 && SimplifyMesh(r, u, percent, decimate, stats).Ok?
    requires KeepsIndex(decimate) && Source(Registry.ObjectData(r, u).value.kind).index.Some?
    ensures var r1 := SimplifyMesh(r, u, percent, decimate, stats).value;
            var r2 := SimplifyMesh(r1, u, 100, decimate, stats);
            && r2.Ok?
            && Registry.ObjectData(r2.value, u).value.kind.geometry == Source(Registry.ObjectData(r, u).value.kind)
  {
    var d, d' := Simplified(r, u, percent, decimate, stats);
    var r1 := SimplifyMesh(r, u, percent, decimate, stats).value;
    assert Registry.ObjectData(r1, u).value.kind.geometry.index.Some?;
    var e, e' := Simplified(r1, u, 100, decimate, stats);
  }

  /** The round trip needs the modifier's output to be indexed: the guard looks at the
      current geometry, so after a simplification that dropped the index, restoring is refused
      even though the cached original could be restored. */
  lemma RestoreRefusedAfterIndexDropped(r: Registry.Registry, u: Scene.Uuid, percent: nat,
                                        decimate: (Scene.Geometry, nat) -> Scene.Geometry,
                                        stats: Scene.Node -> Scene.Stats)
    requires percent < 99 && SimplifyMesh(r, u, percent, decimate, stats).Ok?
    requires Source(Registry.ObjectData(r, u).value.kind).index.Some?
    requires decimate(Source(Registry.ObjectData(r, u).value.kind),
                      TargetTriangles(Source(Registry.ObjectData(r, u).value.kind).index.value, percent)).index.None?
    ensures SimplifyMesh(SimplifyMesh(r, u, percent, decimate, stats).value, u, 100, decimate, stats) == Err(NotIndexed)
  {
    var d, d' := Simplified(r, u, percent, decimate, stats);
  }

  /** Restoring is idempotent: a second restore changes nothing. */
  lemma RestoreIdempotent(r: Registry.Registry, u: Scene.Uuid,
                          decimate: (Scene.Geometry, nat) -> Scene.Geometry,
                          stats: Scene.Node -> Scene.Stats)
    requires SimplifyMesh(r, u, 100, decimate, stats).Ok?
    requires Source(Registry.ObjectData(r, u).value.kind).index.Some?
    ensures var r1 := SimplifyMesh(r, u, 100, decimate, stats).value;
            SimplifyMesh(r1, u, 100, decimate, stats) == Ok(r1)
  {
    var d, d' := Simplified(r, u, 100, decimate, stats);
    var r1 := SimplifyMesh(r, u, 100, decimate, stats).value;
    var id := r.active.value;
    var m1 := r1.models[id];
    var e, e' := Simplified(r1, u, 100, decimate, stats);
    assert e' == e;
    Scene.SetDataOfFound(m1.scene, u);
    assert Registry.Recount(m1.(scene := Scene.SetData(m1.scene, u, e')), stats) == m1;
    assert r1.models[id := m1] == r1.models;
  }
}
