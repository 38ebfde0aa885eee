/** The model registry (`App.models` and `App.activeModelId`) and closing a model from the
    Tabs panel (`removeModel` in tabs.js). */
module Registry {
  import opened Wrappers
  import Scene
  import Mixer

  /** A registry key. */
  type Id = string

  /** `fileInfo`: the file's name and size and the scene's polygon and vertex counts. */
  datatype FileInfo = FileInfo(name: string, size: nat, polygons: nat, vertices: nat)

  /** `m.animation`: the bound clip and the action the model's mixer created for it. */
  datatype Binding = Binding(clip: Mixer.Clip, action: Mixer.Action)

  /** One loaded model. `scene` is `gltf.scene`; `attached` records whether it is still a child
      of the model's anchor node; `mixer` exists for models with a skeleton. */
  datatype ModelEntry = ModelEntry(
    info: FileInfo,
    scene: Scene.Node,
    attached: bool,
    mixer: Option<Mixer.Mixer>,
    animation: Option<Binding>)

  /** `App.models` with its key enumeration order (`Object.keys`), and `App.activeModelId`. */
  datatype Registry = Registry(order: seq<Id>, models: map<Id, ModelEntry>, active: Option<Id>)

  predicate Distinct(s: seq<Id>)
  {
    forall i, j :: 0 <= i < j < |s| ==> s[i] != s[j]
  }

  /** The enumeration order lists every key exactly once. */
  predicate WellKeyed(r: Registry)
  {
    && Distinct(r.order)
    && (forall id :: id in r.order ==> id in r.models)
    && (forall id :: id in r.models ==> id in r.order)
  }

  /** A bound animation's action is the very action its mixer caches for the clip (the
      application holds one object under both names). */
  predicate Coherent(e: ModelEntry)
  {
    e.animation.Some? ==>
      && e.mixer.Some?
      && e.animation.value.clip in e.mixer.value.actions
      && e.mixer.value.actions[e.animation.value.clip] == e.animation.value.action
  }

  /** The registry invariant: `activeModelId` is null or a present key. */
  predicate Valid(r: Registry)
  {
    && WellKeyed(r)
    && (r.active.None? || r.active.value in r.models)
    && forall id :: id in r.models ==> Coherent(r.models[id])
  }

  /** `App.models[App.activeModelId]`, which is also what `App.getActive()` answers. */
  function Active(r: Registry): (m: Option<ModelEntry>)
    ensures m.Some? <==> r.active.Some? && r.active.value in r.models
    ensures m.Some? ==> m.value == r.models[r.active.value]
    ensures Valid(r) ==> (m.None? <==> r.active.None?)
  {
    if r.active.Some? && r.active.value in r.models then Some(r.models[r.active.value]) else None
  }

  /** The data of the object a uuid names in the active model's scene
      (`getObjectByProperty('uuid', uuid)` on `gltf.scene`), if there is one. */
  function ObjectData(r: Registry, u: Scene.Uuid): Option<Scene.Data>
  {
    match Active(r)
    case None => None
    case Some(m) =>
      match Scene.Find(m.scene, u)
      case None => None
      case Some(o) => Some(o.data)
  }

  /** `r'` is `r` with the object a uuid names in the active model given the data `d` and
      nothing else changed: the same keys in the same order, the same active model, every other
      model as it was, and the active model's counts, anchoring, mixer and binding as they
      were. */
  predicate EditsObject(r: Registry, r': Registry, u: Scene.Uuid, d: Scene.Data)
  {
    && r.active.Some? && r.active.value in r.models
    && r'.order == r.order && r'.active == r.active && r'.models.Keys == r.models.Keys
    && (forall k :: k in r.models && k != r.active.value ==> r'.models[k] == r.models[k])
    && var m, m' := r.models[r.active.value], r'.models[r.active.value];
       && m'.info == m.info && m'.attached == m.attached && m'.mixer == m.mixer && m'.animation == m.animation
       && Scene.Rewritten(m.scene, m'.scene, u, d)
  }

  /** Assigns new data to the object a uuid names in the active model, leaving the model's
      counts as they were. */
  function SetObjectData(r: Registry, u: Scene.Uuid, d: Scene.Data): (r': Registry)
    requires ObjectData(r, u).Some?
    ensures ObjectData(r', u) == Some(d)
    ensures EditsObject(r, r', u, d)
    ensures r'.order == r.order && r'.active == r.active && r'.models.Keys == r.models.Keys
    ensures forall k :: k in r.models && Some(k) != r.active ==> r'.models[k] == r.models[k]
    ensures var m, m' := r.models[r.active.value], r'.models[r.active.value];
            m'.info == m.info && m'.attached == m.attached && m'.mixer == m.mixer && m'.animation == m.animation
    ensures Valid(r) ==> Valid(r')
  {
    var id := r.active.value;
    var m := r.models[id];
    Scene.FindAfterSetData(m.scene, u, d);
    Scene.SetDataRewrites(m.scene, u, d);
    Put(r, id, m.(scene := Scene.SetData(m.scene, u, d)))
  }

  /** `EditsObject` leaves no freedom: the only state it describes is the one
      `SetObjectData` builds. */
  lemma EditsObjectIsSetObjectData(r: Registry, r': Registry, u: Scene.Uuid, d: Scene.Data)
    requires EditsObject(r, r', u, d)
    ensures ObjectData(r, u).Some? && r' == SetObjectData(r, u, d)
  {
    var id := r.active.value;
    var m, m' := r.models[id], r'.models[id];
    Scene.FindIsFirstInPreorder(m.scene, u);
    Scene.RewrittenIsSetData(m.scene, m'.scene, u, d);
    assert m' == m.(scene := Scene.SetData(m.scene, u, d));
    assert r'.models == r.models[id := m'];
  }

  /** Writing back the data a lookup answered changes nothing. */
  lemma SetObjectDataOfFound(r: Registry, u: Scene.Uuid)
    requires ObjectData(r, u).Some?
    ensures SetObjectData(r, u, ObjectData(r, u).value) == r
  {
    var id := r.active.value;
    var m := r.models[id];
    Scene.SetDataOfFound(m.scene, u);
    assert r.models[id := m] == r.models;
  }

  /** Replaces the entry stored under a present key. */
  function Put(r: Registry, id: Id, e: ModelEntry): (r': Registry)
    requires id in r.models
    ensures r'.order == r.order && r'.active == r.active && r'.models.Keys == r.models.Keys
    ensures forall k :: k in r.models && k != id ==> r'.models[k] == r.models[k]
    ensures Valid(r) && Coherent(e) ==> Valid(r')
  {
    r.(models := r.models[id := e])
  }

  /** `calculateModelStats(scene)` stored into `fileInfo.polygons` and `fileInfo.vertices`. */
  function Recount(e: ModelEntry, stats: Scene.Node -> Scene.Stats): (e': ModelEntry)
    ensures e'.info.polygons == stats(e.scene).polygons && e'.info.vertices == stats(e.scene).vertices
    ensures e'.info.name == e.info.name && e'.info.size == e.info.size
    ensures e'.scene == e.scene && e'.attached == e.attached
    ensures e'.mixer == e.mixer && e'.animation == e.animation
  {
    var s := stats(e.scene);
    e.(info := e.info.(polygons := s.polygons, vertices := s.vertices))
  }

  /** A key sequence without one key. */
  function Without(s: seq<Id>, id: Id): (t: seq<Id>)
    ensures forall x :: x in t <==> x in s && x != id
    ensures Distinct(s) ==> Distinct(t)
  {
    if s == [] then []
    else if s[0] == id then Without(s[1..], id)
    else
      DistinctTail(s);
      [s[0]] + Without(s[1..], id)
  }

  lemma DistinctTail(s: seq<Id>)
    requires |s| > 0
    ensures Distinct(s) ==> Distinct(s[1..]) && s[0] !in s[1..]
  {
    if Distinct(s) {
      forall j | 0 <= j < |s| - 1 ensures s[1..][j] != s[0] {
        assert s[1..][j] == s[j + 1];
      }
    }
  }

  /** `ids[0] || null`: the first key, unless there is none or it is the falsy empty string. */
  function FirstKeyOrNull(ids: seq<Id>): (r: Option<Id>)
    ensures r.Some? ==> r.value in ids
  {
    if |ids| > 0 && ids[0] != "" then Some(ids[0]) else None
  }

  /** Closing model `id` after the user answered the confirmation dialog with `confirmed`. */
  function RemoveModel(r: Registry, id: Id, confirmed: bool): (r': Registry)
    ensures id !in r.models ==> r' == r
    ensures !confirmed ==> r' == r
    ensures id in r.models && confirmed ==>
              && id !in r'.models
              && (forall k :: k != id ==> (k in r'.models <==> k in r.models))
              && (forall k :: k in r'.models ==> r'.models[k] == r.models[k])
    ensures id in r.models && confirmed ==> r'.order == Without(r.order, id)
    ensures id in r.models && confirmed && r.active == Some(id) ==>
              r'.active == FirstKeyOrNull(r'.order)
    ensures r.active != Some(id) ==> r'.active == r.active
    ensures Valid(r) ==> Valid(r')
  {
    if id !in r.models || !confirmed then r
    else
      var order := Without(r.order, id);
      var active := if r.active == Some(id) then FirstKeyOrNull(order) else r.active;
      Registry(order, r.models - {id}, active)
  }

  /** `Without` removes the key's one occurrence and keeps the others in their order. */
  lemma {:induction false} WithoutIsSplice(s: seq<Id>, id: Id) returns (i: nat)
    requires Distinct(s) && id in s
    ensures i < |s| && s[i] == id
    ensures Without(s, id) == s[..i] + s[i + 1..]
  {
    DistinctTail(s);
    if s[0] == id {
      i := 0;
      WithoutAbsent(s[1..], id);
    } else {
      var j := WithoutIsSplice(s[1..], id);
      i := j + 1;
      assert s[..i] == [s[0]] + s[1..][..j];
      assert s[i + 1..] == s[1..][j + 1..];
    }
  }

  lemma {:induction false} WithoutAbsent(s: seq<Id>, id: Id)
    requires id !in s
    ensures Without(s, id) == s
  {
    if s != [] {
      WithoutAbsent(s[1..], id);
    }
  }

  /** Closing the active model hands the selection to the first remaining key in enumeration
      order, and to null only when no model remains, provided no key is the empty string. */
  lemma CloseActivePicksFirstRemaining(r: Registry, id: Id)
    requires Valid(r) && r.active == Some(id)
    requires forall k :: k in r.models ==> k != ""
    ensures var r' := RemoveModel(r, id, true);
            && (r'.active.None? <==> |r'.models| == 0)
            && (r'.active.Some? ==> r'.active.value == (if r.order[0] == id then r.order[1] else r.order[0]))
  {
    var r' := RemoveModel(r, id, true);
    var i := WithoutIsSplice(r.order, id);
    if |r'.models| == 0 {
      assert forall j :: 0 <= j < |r'.order| ==> r'.order[j] in r'.models;
    } else {
      var k :| k in r'.models;
      assert k in r'.order;
      assert r'.order[0] in r.models;
      if i == 0 {
        assert r'.order[0] == r.order[1];
      } else {
        assert r'.order[0] == r.order[0];
      }
    }
  }

  /** `ids[0] || null` treats a first remaining key "" as falsy: closing the active model then
      leaves no model active although one remains. */
  lemma CloseActiveWithEmptyFirstKey()
    ensures var e := ModelEntry(FileInfo("a.glb", 1, 0, 0), Scene.Node(Scene.Obj("s", Scene.Data("", true, Scene.NonMesh)), []), true, None, None);
            var r := Registry(["a", ""], map["a" := e, "" := e], Some("a"));
            && Valid(r)
            && RemoveModel(r, "a", true).active.None?
            && "" in RemoveModel(r, "a", true).models
  {
    var e := ModelEntry(FileInfo("a.glb", 1, 0, 0), Scene.Node(Scene.Obj("s", Scene.Data("", true, Scene.NonMesh)), []), true, None, None);
    var r := Registry(["a", ""], map["a" := e, "" := e], Some("a"));
    assert Without(r.order, "a") == [""] by {
      assert r.order[1..] == [""];
      assert [""][1..] == [];
    }
  }
}
