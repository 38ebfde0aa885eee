/** The completion logic of the three file inputs in loader.js: model files (one registration
    per file the parser accepts) and texture files (assigned to a standard material's slot). The
    animation input is in the Animation module. */
module Loader {
  import opened Wrappers
  import Scene

  /** One picked model file: its name and size, and whether the glTF parser accepts its bytes. */
  datatype FileChoice = FileChoice(name: string, size: nat, parses: bool)

  /** One `App.addModel(gltf, {name, size})` call; `source` is the position of the file it came
      from in the picked list. */
  datatype AddModelCall = AddModelCall(source: nat, name: string, size: nat)

  /** `handleModelLoad`: `files` is the input's file list (`None` when there is none). Each file
      is read and parsed on its own; each one that parses is registered once under its own name
      and size, and one that fails raises an alert and registers nothing. */
  method HandleModelLoad(files: Option<seq<FileChoice>>) returns (calls: seq<AddModelCall>)
    ensures files.None? || |files.value| == 0 ==> calls == []
    ensures files.Some? ==>
              forall j :: 0 <= j < |calls| ==>
                && calls[j].source < |files.value|
                && files.value[calls[j].source].parses
                && calls[j].name == files.value[calls[j].source].name
                && calls[j].size == files.value[calls[j].source].size
    ensures forall j, k :: 0 <= j < k < |calls| ==> calls[j].source < calls[k].source
    ensures files.Some? ==>
              forall i :: 0 <= i < |files.value| && files.value[i].parses ==>
                exists j :: 0 <= j < |calls| && calls[j].source == i
  {
    calls := [];
    if files.None? || |files.value| == 0 {
      return;
    }
    var fs := files.value;
    var i := 0;
    while i < |fs|
      invariant 0 <= i <= |fs|
      invariant forall j :: 0 <= j < |calls| ==>
                  && calls[j].source < i
                  && fs[calls[j].source].parses
                  && calls[j].name == fs[calls[j].source].name
                  && calls[j].size == fs[calls[j].source].size
      invariant forall j, k :: 0 <= j < k < |calls| ==> calls[j].source < calls[k].source
      invariant forall i' :: 0 <= i' < i && fs[i'].parses ==>
                  exists j :: 0 <= j < |calls| && calls[j].source == i'
    {
      if fs[i].parses {
        var before := calls;
        calls := calls + [AddModelCall(i, fs[i].name, fs[i].size)];
        forall i' | 0 <= i' <= i && fs[i'].parses
          ensures exists j :: 0 <= j < |calls| && calls[j].source == i'
        {
          if i' == i {
            assert calls[|calls| - 1].source == i';
          } else {
            var j :| 0 <= j < |before| && before[j].source == i';
            assert calls[j].source == i';
          }
        }
      }
      i := i + 1;
    }
  }

  /** `App.ui.textureTarget`: the textures panel's record of where the next texture goes. The
      handler reads its `mesh` field (`None` when the record has no such field) and the slot name
      in its `type` field; `mesh` stands for that mesh's material. */
  datatype TextureTarget = TextureTarget(mesh: Option<Scene.Material>, slot: string)

  /** What a texture pick came to. */
  datatype TextureOutcome =
    | Ignored                           // no file, or no target mesh
    | LoadFailed                        // the texture loader reported an error
    | NotStandard                       // the mesh has no `MeshStandardMaterial`
    | Applied(material: Scene.Material) // the material with the texture in the slot

  /** A loaded picture set up as the handler does: sRGB colour space, no vertical flip, and
      repeat wrapping on both axes. */
  function Configured(source: nat): (t: Scene.Texture)
    ensures t.source == source && t.srgb && !t.flipY && t.repeatWrap
  {
    Scene.Texture(source, true, false, true)
  }

  /** `handleTextureLoad`: `loaded` is the picture the texture loader produced (`None` for its
      error callback). */
  function HandleTextureLoad(fileChosen: bool, target: Option<TextureTarget>, loaded: Option<nat>)
    : (o: TextureOutcome)
    ensures o == Ignored <==> !fileChosen || target.None? || target.value.mesh.None?
    ensures o == LoadFailed <==> fileChosen && target.Some? && target.value.mesh.Some? && loaded.None?
    ensures o == NotStandard <==>
              fileChosen && target.Some? && target.value.mesh.Some? && loaded.Some?
              && !target.value.mesh.value.Standard?
    ensures o.Applied? ==>
              && target.Some? && target.value.mesh.Some? && target.value.mesh.value.Standard?
              && loaded.Some?
              && o.material.Standard?
              && target.value.slot in o.material.maps
              && o.material.maps[target.value.slot] == Configured(loaded.value)
              && o.material.maps.Keys == target.value.mesh.value.maps.Keys + {target.value.slot}
              && forall k :: k in target.value.mesh.value.maps && k != target.value.slot ==>
                   o.material.maps[k] == target.value.mesh.value.maps[k]
  {
    if !fileChosen || target.None? || target.value.mesh.None? then Ignored
    else if loaded.None? then LoadFailed
    else
      match target.value.mesh.value
      case Standard(maps) => Applied(Scene.Standard(maps[target.value.slot := Configured(loaded.value)]))
      case _ => NotStandard
  }

  /** Picking the same picture for the same slot again changes nothing more. */
  lemma ApplyTextureIdempotent(slot: string, m: Scene.Material, source: nat)
    requires HandleTextureLoad(true, Some(TextureTarget(Some(m), slot)), Some(source)).Applied?
    ensures var m' := HandleTextureLoad(true, Some(TextureTarget(Some(m), slot)), Some(source)).material;
            HandleTextureLoad(true, Some(TextureTarget(Some(m'), slot)), Some(source)) == Applied(m')
  {
  }

  /** The textures panel records its target as `{object, type}`, without a `mesh` field, so a
      texture picked through it is always ignored. */
  lemma PanelTargetIgnored(slot: string, loaded: Option<nat>)
    ensures HandleTextureLoad(true, Some(TextureTarget(None, slot)), loaded) == Ignored
  {
  }
}
