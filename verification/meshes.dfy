/** The Meshes panel's edits (meshes.js): the visibility and rename buttons, deleting one mesh
    (`deleteSingleMesh`, `deleteMesh`) and the "Remove Selected" batch delete. Each acts on the
    object a card's uuid names in the active model's scene. */
module Meshes {
  import opened Wrappers
  import Text
  import Scene
  import Registry

  /** The visibility button: `if (mesh) mesh.visible = !mesh.visible`. */
  function ToggleVisibility(r: Registry.Registry, u: Scene.Uuid): (r': Registry.Registry)
    ensures Registry.ObjectData(r, u).None? ==> r' == r
    ensures Registry.ObjectData(r, u).Some? ==>
              var d := Registry.ObjectData(r, u).value;
              && Registry.ObjectData(r', u) == Some(d.(visible := !d.visible))
              && r'.order == r.order && r'.active == r.active && r'.models.Keys == r.models.Keys
              && (forall k :: k in r.models && Some(k) != r.active ==> r'.models[k] == r.models[k])
              && Registry.EditsObject(r, r', u, d.(visible := !d.visible))
    ensures Registry.Valid(r) ==> Registry.Valid(r')
  {
    match Registry.ObjectData(r, u)
    case None => r
    case Some(d) => Registry.SetObjectData(r, u, d.(visible := !d.visible))
  }

  /** Pressing the visibility button twice restores the state exactly. */
  lemma ToggleTwiceIsIdentity(r: Registry.Registry, u: Scene.Uuid)
    ensures ToggleVisibility(ToggleVisibility(r, u), u) == r
  {
    if Registry.ObjectData(r, u).Some? {
      var id := r.active.value;
      var m := r.models[id];
      var d := Registry.ObjectData(r, u).value;
      var d1 := d.(visible := !d.visible);
      var r1 := ToggleVisibility(r, u);
      assert d1.(visible := !d1.visible) == d;
      Scene.SetDataTwice(m.scene, u, d1, d);
      Scene.SetDataOfFound(m.scene, u);
      assert r1.models[id] == m.(scene := Scene.SetData(m.scene, u, d1));
      assert r.models[id := m] == r.models;
    }
  }

  /** The rename button: `prompt` answers `answer` (`None` when cancelled); a non-blank answer
      becomes the name, trimmed. */
  function RenameMesh(r: Registry.Registry, u: Scene.Uuid, answer: Option<string>): (r': Registry.Registry)
    ensures Registry.ObjectData(r, u).None? || answer.None? || Text.AllTrimmable(answer.value) ==> r' == r
    ensures Registry.ObjectData(r, u).Some? && answer.Some? && !Text.AllTrimmable(answer.value) ==>
              var d := Registry.ObjectData(r, u).value;
              && Registry.ObjectData(r', u) == Some(d.(name := Text.Trim(answer.value)))
              && r'.order == r.order && r'.active == r.active && r'.models.Keys == r.models.Keys
              && (forall k :: k in r.models && Some(k) != r.active ==> r'.models[k] == r.models[k])
              && Registry.EditsObject(r, r', u, d.(name := Text.Trim(answer.value)))
    ensures Registry.Valid(r) ==> Registry.Valid(r')
  {
    match Registry.ObjectData(r, u)
    case None => r
    case Some(d) =>
      if answer.None? || Text.Trim(answer.value) == "" then r
      else Registry.SetObjectData(r, u, d.(name := Text.Trim(answer.value)))
  }

  /** Accepting the prompt's default, when the current name is non-blank and has no surrounding
      whitespace, changes nothing. */
  lemma RenameToCurrentNameIsNoop(r: Registry.Registry, u: Scene.Uuid)
    requires Registry.ObjectData(r, u).Some?
    requires var name := Registry.ObjectData(r, u).value.name;
             |name| > 0 && !Text.IsTrimmable(name[0]) && !Text.IsTrimmable(name[|name| - 1])
    ensures RenameMesh(r, u, Some(Registry.ObjectData(r, u).value.name)) == r
  {
    var d := Registry.ObjectData(r, u).value;
    Text.TrimKeepsTightString(d.name);
    assert d.(name := Text.Trim(d.name)) == d;
    Registry.SetObjectDataOfFound(r, u);
  }

  /** A name given through the rename button is never blank and has no surrounding
      whitespace, so accepting the prompt's default afterwards changes nothing
      (`RenameToCurrentNameIsNoop`). */
  lemma RenamedNameIsTight(r: Registry.Registry, u: Scene.Uuid, answer: string)
    requires Registry.ObjectData(r, u).Some? && !Text.AllTrimmable(answer)
    ensures var name := Registry.ObjectData(RenameMesh(r, u, Some(answer)), u).value.name;
            |name| > 0 && !Text.IsTrimmable(name[0]) && !Text.IsTrimmable(name[|name| - 1])
  {
  }

  /** `deleteSingleMesh` applied to what `getObjectByProperty` found in a model: the object is
      removed from its parent (for the scene root that parent is the model's anchor). `None`
      when nothing carries the uuid. Disposal of GPU resources is not modelled. */
  function DeleteObject(e: Registry.ModelEntry, u: Scene.Uuid): (r: Option<Registry.ModelEntry>)
    ensures r.Some? <==> Scene.Find(e.scene, u).Some?
    ensures r.Some? ==> r.value.info == e.info && r.value.mixer == e.mixer && r.value.animation == e.animation
    ensures r.Some? ==> r.value.scene.obj == e.scene.obj
    ensures r.Some? && e.scene.obj.uuid == u ==> r.value == e.(attached := false)
    ensures r.Some? && e.scene.obj.uuid != u ==> r.value.attached == e.attached
  {
    Scene.DetachTakesFoundObject(e.scene.children, u);
    if e.scene.obj.uuid == u then Some(e.(attached := false))
    else
      match Scene.DetachSeq(e.scene.children, u)
      case None => None
      case Some(p) => Some(e.(scene := Scene.Node(e.scene.obj, p.0)))
  }

  /** Deleting below the root cuts the found object's subtree out of the scene: its pre-order
      is one contiguous run of the scene's pre-order, starting at the found object, and the
      scene keeps everything before and after that run. */
  lemma DeleteObjectDetaches(e: Registry.ModelEntry, u: Scene.Uuid) returns (gone: seq<Scene.Obj>)
    requires Scene.Find(e.scene, u).Some? && e.scene.obj.uuid != u
    ensures var s := Scene.Flat(e.scene);
            && Scene.FirstMatch(s, u).Some?
            && |gone| > 0 && gone[0] == Scene.Find(e.scene, u).value
            && Scene.FindNode(e.scene, u).Some? && gone == Scene.Flat(Scene.FindNode(e.scene, u).value)
            && Scene.SplicedAt(s, Scene.Flat(DeleteObject(e, u).value.scene), gone, Scene.FirstMatch(s, u).value)
  {
    Scene.DetachTakesFoundObject(e.scene.children, u);
    gone := Scene.DetachBelowCuts(e.scene, u);
  }

  /** In a scene with distinct uuids, nothing carries the uuid after the delete, the uuids stay
      distinct, and no object appears that was not there before. */
  lemma DeleteObjectRemovesUuid(e: Registry.ModelEntry, u: Scene.Uuid)
    requires Scene.Find(e.scene, u).Some? && e.scene.obj.uuid != u
    requires Scene.UniqueIds(Scene.Flat(e.scene))
    ensures var s' := DeleteObject(e, u).value.scene;
            && Scene.Find(s', u).None?
            && Scene.UniqueIds(Scene.Flat(s'))
            && multiset(Scene.Flat(s')) <= multiset(Scene.Flat(e.scene))
  {
    Scene.DetachTakesFoundObject(e.scene.children, u);
    Scene.DetachRemovesUuid(e.scene, u);
  }

  /** A card's Delete button: `confirmed` is the answer to the confirmation, and only when it
      is accepted does `deleteMesh(uuid)` run. That deletes the object the uuid names in the
      active model and refreshes the model's counts from the remaining scene; no active model or
      no such object changes nothing. */
  function DeleteMesh(r: Registry.Registry, u: Scene.Uuid, confirmed: bool,
                      stats: Scene.Node -> Scene.Stats): (r': Registry.Registry)
    ensures !confirmed || Registry.ObjectData(r, u).None? ==> r' == r
    ensures r'.order == r.order && r'.active == r.active && r'.models.Keys == r.models.Keys
    ensures confirmed && Registry.ObjectData(r, u).Some? ==>
              var id := r.active.value;
              var m, m' := r.models[id], r'.models[id];
              && (forall k :: k in r.models && k != id ==> r'.models[k] == r.models[k])
              && m'.scene == DeleteObject(m, u).value.scene
              && m'.attached == DeleteObject(m, u).value.attached
              && m'.info.polygons == stats(m'.scene).polygons
              && m'.info.vertices == stats(m'.scene).vertices
              && m'.info.name == m.info.name && m'.info.size == m.info.size
              && m'.mixer == m.mixer && m'.animation == m.animation
    ensures Registry.Valid(r) ==> Registry.Valid(r')
  {
    if !confirmed then r
    else
      match Registry.Active(r)
      case None => r
      case Some(m) =>
        match DeleteObject(m, u)
        case None => r
        case Some(m') => Registry.Put(r, r.active.value, Registry.Recount(m', stats))
  }

  /** In a scene with distinct uuids, a deleted object below the root is gone: the card's uuid
      no longer names anything in the active model. */
  lemma DeleteMeshRemovesObject(r: Registry.Registry, u: Scene.Uuid, stats: Scene.Node -> Scene.Stats)
    requires Registry.ObjectData(r, u).Some?
    requires Scene.UniqueIds(Scene.Flat(r.models[r.active.value].scene))
    requires r.models[r.active.value].scene.obj.uuid != u
    ensures Registry.ObjectData(DeleteMesh(r, u, true, stats), u).None?
  {
    DeleteObjectRemovesUuid(r.models[r.active.value], u);
  }

  /** Deleting never adds objects to a scene, whether it cuts a subtree or detaches the root. */
  lemma DeleteObjectShrinks(e: Registry.ModelEntry, u: Scene.Uuid)
    requires Scene.Find(e.scene, u).Some?
    ensures multiset(Scene.Flat(DeleteObject(e, u).value.scene)) <= multiset(Scene.Flat(e.scene))
  {
    if e.scene.obj.uuid != u {
      var gone := DeleteObjectDetaches(e, u);
      var s := Scene.Flat(e.scene);
      Scene.SplicedShrinks(s, Scene.Flat(DeleteObject(e, u).value.scene), gone, Scene.FirstMatch(s, u).value);
    }
  }

  /** What deleting the ticked objects `done` one after another keeps of model `m` in `c`:
      the same file info, mixer, binding and root object, no object gained, and the root
      detached exactly when it was ticked. */
  predicate KeptBy(m: Registry.ModelEntry, c: Registry.ModelEntry, done: seq<Scene.Uuid>)
  {
    && c.info == m.info && c.mixer == m.mixer && c.animation == m.animation
    && c.scene.obj == m.scene.obj
    && multiset(Scene.Flat(c.scene)) <= multiset(Scene.Flat(m.scene))
    && (c.attached <==> m.attached && m.scene.obj.uuid !in done)
  }

  /** What deleting `done` does to a scene with distinct uuids: uuids stay distinct, the scene
      is exactly the original with the ticked subtrees pruned, and so every ticked uuid below
      the root is gone. */
  predicate PrunedBy(m: Registry.ModelEntry, c: Registry.ModelEntry, done: seq<Scene.Uuid>)
  {
    && Scene.UniqueIds(Scene.Flat(c.scene))
    && c.scene == Scene.Prune(m.scene, done)
    && forall k :: 0 <= k < |done| && done[k] != m.scene.obj.uuid ==> Scene.Find(c.scene, done[k]).None?
  }

  predicate DeletedAll(m: Registry.ModelEntry, c: Registry.ModelEntry, done: seq<Scene.Uuid>)
  {
    && KeptBy(m, c, done)
    && (Scene.UniqueIds(Scene.Flat(m.scene)) ==> PrunedBy(m, c, done))
  }

  /** One pass of the loop: the object is deleted when it is still found, skipped otherwise. */
  function DeleteIfFound(c: Registry.ModelEntry, u: Scene.Uuid): (c': Registry.ModelEntry)
    ensures Scene.Find(c.scene, u).None? ==> c' == c
  {
    match DeleteObject(c, u)
    case None => c
    case Some(c') => c'
  }

  /** In a scene with distinct uuids, one pass prunes the uuid it was given: the found
      object's subtree goes and every other object stays. Deleting the root leaves the scene
      as it was, since the root only leaves its anchor. */
  lemma DeleteIfFoundPrunes(c: Registry.ModelEntry, u: Scene.Uuid)
    requires Scene.UniqueIds(Scene.Flat(c.scene))
    ensures DeleteIfFound(c, u).scene == Scene.Prune(c.scene, [u])
  {
    var n := c.scene;
    if n.obj.uuid == u {
      Scene.UniqueApartLeft([n.obj], Scene.FlatSeq(n.children), 0);
      Scene.PruneSeqAbsent(n.children, [u]);
    } else if Scene.Find(n, u).None? {
      Scene.NotFoundMeansAbsent(n, u);
      Scene.PruneSeqAbsent(n.children, [u]);
    } else {
      Scene.DetachTakesFoundObject(n.children, u);
      Scene.UniqueHalves([n.obj], Scene.FlatSeq(n.children));
      Scene.DetachIsPrune(n.children, u);
    }
  }

  /** One more pass extends `DeletedAll` by the uuid it was given. */
  lemma DeleteStep(m: Registry.ModelEntry, c: Registry.ModelEntry, done: seq<Scene.Uuid>, u: Scene.Uuid)
    requires DeletedAll(m, c, done)
    ensures DeletedAll(m, DeleteIfFound(c, u), done + [u])
  {
    KeptStep(m, c, done, u);
    if Scene.UniqueIds(Scene.Flat(m.scene)) {
      PrunedStep(m, c, done, u);
    }
  }

  lemma KeptStep(m: Registry.ModelEntry, c: Registry.ModelEntry, done: seq<Scene.Uuid>, u: Scene.Uuid)
    requires KeptBy(m, c, done)
    ensures KeptBy(m, DeleteIfFound(c, u), done + [u])
  {
    var c' := DeleteIfFound(c, u);
    assert u in done + [u] && forall x :: x in done ==> x in done + [u];
    if DeleteObject(c, u).None? {
      assert c' == c && c.scene.obj.uuid != u;
    } else {
      DeleteObjectShrinks(c, u);
      assert c'.attached == (c.attached && c.scene.obj.uuid != u);
    }
  }

  lemma PrunedStep(m: Registry.ModelEntry, c: Registry.ModelEntry, done: seq<Scene.Uuid>, u: Scene.Uuid)
    requires KeptBy(m, c, done) && PrunedBy(m, c, done)
    ensures PrunedBy(m, DeleteIfFound(c, u), done + [u])
  {
    var c' := DeleteIfFound(c, u);
    var done' := done + [u];
    DeleteIfFoundPrunes(c, u);
    Scene.PruneThen(m.scene, done, u);
    if DeleteObject(c, u).Some? && c.scene.obj.uuid != u {
      DeleteObjectRemovesUuid(c, u);
    }
    forall k | 0 <= k < |done'| && done'[k] != m.scene.obj.uuid
      ensures Scene.Find(c'.scene, done'[k]).None?
    {
      if k < |done| {
        assert done'[k] == done[k];
        if DeleteObject(c, u).Some? {
          Scene.FindNoneOfSubset(c.scene, c'.scene, done[k]);
        }
      }
    }
  }

  /** The loop of "Remove Selected" over one model: each ticked uuid still found in the model is
      deleted in turn; one an earlier deletion already took with its parent is skipped. */
  method DeleteChecked(m: Registry.ModelEntry, checked: seq<Scene.Uuid>) returns (c: Registry.ModelEntry)
    ensures DeletedAll(m, c, checked)
  {
    c := m;
    var i := 0;
    ghost var done: seq<Scene.Uuid> := [];
    Scene.PruneNothing(m.scene);
    while i < |checked|
      invariant 0 <= i <= |checked| && done == checked[..i]
      invariant DeletedAll(m, c, done)
    {
      DeleteStep(m, c, done, checked[i]);
      c := DeleteIfFound(c, checked[i]);
      done := done + [checked[i]];
      i := i + 1;
    }
    assert done == checked;
  }

  /** Why "Remove Selected" did nothing. */
  datatype BatchRefusal = NothingSelected | Declined

  /** The "Remove Selected" button: `checked` are the uuids of the ticked cards in page order
      and `confirmed` the answer to the confirmation. Every ticked object still found in the
      active model is deleted in turn, and the counts are refreshed once at the end when a
      model is active. */
  method BatchDelete(r: Registry.Registry, checked: seq<Scene.Uuid>, confirmed: bool,
                     stats: Scene.Node -> Scene.Stats) returns (res: Result<Registry.Registry, BatchRefusal>)
    ensures res == Err(NothingSelected) <==> |checked| == 0
    ensures res == Err(Declined) <==> |checked| > 0 && !confirmed
    ensures res.Ok? ==>
              && res.value.order == r.order && res.value.active == r.active
              && res.value.models.Keys == r.models.Keys
              && (forall k :: k in r.models && Some(k) != r.active ==> res.value.models[k] == r.models[k])
    ensures res.Ok? && Registry.Active(r).None? ==> res.value == r
    ensures res.Ok? && Registry.Active(r).Some? ==>
              var id := r.active.value;
              var m, m' := r.models[id], res.value.models[id];
              var root := m.scene.obj.uuid;
              && m'.info.polygons == stats(m'.scene).polygons
              && m'.info.vertices == stats(m'.scene).vertices
              && m'.info.name == m.info.name && m'.info.size == m.info.size
              && m'.mixer == m.mixer && m'.animation == m.animation
              && m'.scene.obj == m.scene.obj
              && multiset(Scene.Flat(m'.scene)) <= multiset(Scene.Flat(m.scene))
              && (m'.attached <==> m.attached && root !in checked)
              && (Scene.UniqueIds(Scene.Flat(m.scene)) ==>
                    && m'.scene == Scene.Prune(m.scene, checked)
                    && forall k :: 0 <= k < |checked| && checked[k] != root ==> Scene.Find(m'.scene, checked[k]).None?)
    ensures res.Ok? && Registry.Valid(r) ==> Registry.Valid(res.value)
  {
    if |checked| == 0 {
      return Err(NothingSelected);
    }
    if !confirmed {
      return Err(Declined);
    }
    match Registry.Active(r) {
      case None =>
        return Ok(r);
      case Some(m) =>
        var c := DeleteChecked(m, checked);
        return Ok(Registry.Put(r, r.active.value, Registry.Recount(c, stats)));
    }
  }
}
