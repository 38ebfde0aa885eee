# Titan Forge editor core, modelled in Dafny

Titan Forge is a browser editor for glTF/GLB models built on three.js. Its state lives in one
singleton, `App`. It holds the loaded models (`App.models`, keyed by id, each with its
`fileInfo`, `gltf.scene`, optional animation `mixer` and bound `animation`) and the id of the
active model (`App.activeModelId`). The panels change that state from their event handlers.

This project lifts those handlers out of the DOM and models them as pure functions and methods
over immutable data:

- **Registry**: closing a model from the Tabs panel (`removeModel`). The invariant is that the
  active id is null or names a present model. When the active model is closed, the first
  remaining key in enumeration order takes over.
- **Scene**: the object tree of a model. `getObjectByProperty('uuid', …)` is modelled as a
  first match in pre-order. Two edits are modelled: rewriting the found object and detaching
  it from its parent.
- **Simplify**: `App.simplifyMesh`. Each mesh is a small state machine over its current
  geometry and an original geometry that is cached lazily. It has three guards, restores the
  original at ratios of 0.99 and above, and otherwise decimates the cached original.
- **Meshes**: the Meshes panel's visibility toggle, rename, single delete and batch delete.
- **Mixer** and **Animation**: the parts of three.js's `AnimationMixer` the editor drives, the
  animation load handler, and the dashboard's animation buttons. A model holds at most one
  `{clip, action}` binding.
- **Loader**: one `addModel` call per model file that parses, and the texture handler's guards.
- **Export**: the export dialog's defaults and the confirm button's file-name normalisation.
- **Text**: JavaScript's `String.prototype.trim` and the `/\.glb$/i` suffix test.

The dialogs are explicit inputs:

- a `confirm` answer is a `bool`;
- a `prompt` answer is an `Option<string>`, where `None` is cancel;
- the parser's outcome for a file is an input.

Two library routines are function-valued parameters about which nothing is assumed:

- `calculateModelStats` is `stats`;
- `SimplifyModifier.modify` is `decimate`.

The simplify slider's ratio is an integer percentage from 0 to 100, because the slider moves
in steps of 0.01. The model computes `Math.round(count / 3 * ratio)` on the exact product as
`(indexCount * percent + 150) / 300`, rounding halves up as `Math.round` does. JavaScript
rounds the floating-point product instead, which can fall just below a half (see
Simplify.TargetTriangles under "Left out").

## Model

| member | source | states |
|---|---|---|
| Registry.RemoveModel | tabs.js:41-53 | Nothing changes when the id is not a key or the confirmation is declined. A confirmed close removes exactly that key and keeps every other entry unchanged. The tab order becomes the old order with that id spliced out. Closing the active model makes `FirstKeyOrNull` of the remaining keys active. Closing any other model leaves the active id alone. The registry invariant is preserved. |
| Registry.CloseActivePicksFirstRemaining | tabs.js:52 | If no key is the empty string, closing the active model leaves no model active exactly when no model remains. Otherwise the new active model is the first remaining key in enumeration order (the second key if the closed one was first). |
| Registry.CloseActiveWithEmptyFirstKey | tabs.js:52 | The `ids[0] or null` fallback treats a first remaining key `""` as falsy: in this concrete registry, closing the active model leaves none active although a model remains. |
| Registry.Without | tabs.js:51 | Removing a key keeps exactly the other keys and keeps them distinct. |
| Registry.WithoutIsSplice | tabs.js:51 | Removing a key from the enumeration order cuts out its one occurrence and keeps the rest in order. |
| Registry.FirstKeyOrNull | tabs.js:52 | A key chosen by the first-key fallback is one of the remaining keys. |
| Registry.SetObjectData | meshes.js:75-88 | Writing an object's data in the active model makes a lookup of that uuid answer the new data. In the scene's pre-order, exactly the first entry carrying the uuid is replaced by the edited object. The tree's shape is kept, so every object keeps its parent. The model's counts, anchor, mixer and binding are unchanged, and so are every other model, the keys and the active id. |
| Registry.EditsObjectIsSetObjectData | meshes.js:75-88 | The edit frame used by the object edits admits exactly one state: the one writing the object's data produces. |
| Registry.SetObjectDataOfFound | meshes.js:77 | Writing back the data a lookup found leaves the registry unchanged. |
| Registry.Recount | viewer.js:55-57 | The polygon and vertex counts become the stats of the model's scene, and nothing else changes. |
| Registry.Active | dashboard.js:77-78 | A model is active exactly when the active id names a present model, and then it is that model. Under the registry invariant, no model is active exactly when the active id is null. |
| Scene.FindIsFirstInPreorder | meshes.js:118 | The tree lookup answers the first object in pre-order that carries the uuid, and none when no object does. |
| Scene.FirstMatchMisses | meshes.js:118 | The pre-order search answers the first position carrying the uuid: no earlier position carries it, and it answers none exactly when no position does. |
| Scene.Find | meshes.js:118 | The object a lookup answers carries the uuid, and a root carrying the uuid is itself the answer. The same lookup is used at viewer.js:25 and meshes.js:22 and 139. |
| Scene.FindNode | meshes.js:139 | The subtree a lookup answers is rooted at an object carrying the uuid. |
| Scene.FindNodeFindsObject | meshes.js:139 | The subtree lookup and the object lookup succeed together, and the subtree is rooted at the object found. |
| Scene.SetData | meshes.js:77 | An edit keeps the root's uuid and its number of children. When nothing carries the uuid, the tree is unchanged. |
| Scene.SetDataRewrites | meshes.js:77 | When the uuid is found, the edit replaces exactly the first pre-order entry carrying it with the edited object. Every other entry stays in place. |
| Scene.SetDataRewritesFirstMatch | meshes.js:77 | Editing the found object changes only that object's pre-order entry. The scene is unchanged when nothing carries the uuid. |
| Scene.FindAfterSetData | meshes.js:85 | After an edit, looking the uuid up answers the edited object, or nothing when nothing carried it before. |
| Scene.SetDataTwice | meshes.js:77 | A second edit of the same object overrides the first. |
| Scene.SetDataOfFound | meshes.js:77 | Writing back the data that was found leaves the scene unchanged. |
| Scene.SetDataKeepsShape | meshes.js:77 | An edit changes one object's data in place: the tree's shape (every node's number and order of children) is unchanged. |
| Scene.FlatAndShapeDetermine | meshes.js:77 | A tree is determined by its pre-order together with its shape, so the pre-order and shape that an edit is described by pin down the edited tree. |
| Scene.RewrittenIsSetData | meshes.js:77 | Any tree whose pre-order is the old one with the found entry replaced, and whose shape is the old one, is exactly the edited tree. |
| Scene.DetachSeqCutsFirstMatch | meshes.js:127 | Detaching the first object that carries the uuid cuts its whole subtree out of the pre-order as one contiguous run starting at that object. The detached subtree is the one the subtree lookup finds, and the detach fails exactly when no object carries the uuid. |
| Scene.DetachSeq | meshes.js:127 | The subtree a detach removes is rooted at an object carrying the uuid. |
| Scene.DetachTakesFoundNode | meshes.js:139-142 | A detach succeeds exactly when the subtree lookup does, and it removes the subtree that lookup found. |
| Scene.DetachTakesFoundObject | meshes.js:139-142 | A detach succeeds exactly when the lookup finds the uuid, and it removes the object the lookup found. |
| Scene.DetachRemovesUuid | meshes.js:127 | In a tree with distinct uuids, after the detach nothing carries the uuid, uuids stay distinct and no object is gained. |
| Scene.SplicedShrinks | meshes.js:127 | Cutting a run out of the pre-order only loses objects. |
| Scene.DetachIsPrune | meshes.js:127 | In a tree with distinct uuids, detaching a uuid equals pruning it: the subtree rooted at the object carrying it goes, and every other child stays where it was. |
| Scene.PruneThen | meshes.js:20-24 | Pruning one more uuid after a list of uuids is the same as pruning the extended list. |
| Meshes.ToggleVisibility | meshes.js:75-79 | With no active model or no such object, nothing changes. Otherwise the scene's pre-order changes only at the first entry carrying the uuid, whose `visible` flag is negated. The tree's shape, and so every parent, is kept. The rest of the model and every other model are unchanged. |
| Meshes.ToggleTwiceIsIdentity | meshes.js:77 | Toggling visibility twice gives back the exact starting state. |
| Meshes.RenameMesh | meshes.js:80-88 | A missing object, a cancelled prompt or an all-whitespace answer changes nothing. Otherwise the scene's pre-order changes only at the first entry carrying the uuid, whose name becomes the trimmed answer. The tree's shape, and so every parent, is kept. The rest of the model and every other model are unchanged. |
| Meshes.RenamedNameIsTight | meshes.js:83-85 | A name set by renaming is non-empty with no surrounding whitespace. |
| Meshes.RenameToCurrentNameIsNoop | meshes.js:83-85 | When the current name is non-empty with no surrounding whitespace, accepting the prompt's default (that name) leaves the whole registry unchanged. |
| Meshes.DeleteObject | meshes.js:122-134 | Deleting succeeds exactly when the uuid is found. Deleting the scene root detaches it from the model's anchor, and deleting any object below the root leaves the anchor as it was. File info, mixer, animation and the root object are kept. |
| Meshes.DeleteObjectDetaches | meshes.js:127 | Deleting below the root removes the found object's subtree from its parent. The run cut out of the pre-order starts at the first object carrying the uuid and is exactly the pre-order of the subtree the lookup finds. |
| Meshes.DeleteObjectRemovesUuid | meshes.js:127 | In a scene with distinct uuids, the deleted uuid is no longer found, uuids stay distinct and no object is gained. |
| Meshes.DeleteObjectShrinks | meshes.js:127 | A delete never adds objects to the scene. |
| Meshes.DeleteMesh | meshes.js:136-148 | A declined confirmation (meshes.js:90), no active model, or a uuid that is not found changes nothing. Otherwise the active model's scene is the scene after the delete, its counts are the stats of that scene, and every other model is unchanged. |
| Meshes.DeleteMeshRemovesObject | meshes.js:139-142 | In a scene with distinct uuids, a deleted non-root object no longer appears in the active model. |
| Meshes.DeleteStep | meshes.js:20-24 | One pass of the loop deletes the object when it is still found and skips it otherwise. It extends the loop's guarantee by that uuid: file info, mixer and animation kept, no object gained, the root detached exactly when it was ticked. When uuids are distinct, the scene is the original with every ticked subtree pruned, and no ticked non-root uuid is found. |
| Meshes.DeleteIfFound | meshes.js:21-23 | A uuid that is not found leaves the model as it was. |
| Meshes.DeleteIfFoundPrunes | meshes.js:22-23 | In a scene with distinct uuids, one pass leaves the scene with exactly that uuid's subtree pruned. Every object outside it stays. |
| Meshes.DeleteChecked | meshes.js:20-24 | The loop over the ticked boxes establishes that guarantee for the whole ticked list. |
| Meshes.BatchDelete | meshes.js:15-34 | No checked boxes, or a declined confirmation, is refused and deletes nothing. Otherwise every checked object still found is removed. With distinct uuids, the scene is exactly the original with every checked subtree pruned, so every object outside them survives and no checked non-root uuid is found. The root is detached exactly when it was checked. No object is gained. Counts are recomputed once at the end if a model is active. Other models are unchanged, and with no active model nothing changes. |
| Simplify.TargetTriangles | viewer.js:44-45 | The target is the triangle count times the ratio, rounded to the nearest integer: it lies within one half of the exact product. |
| Simplify.TargetWithinOriginal | viewer.js:44-45 | The target never exceeds the original's triangle count (rounded up when the index count is not a multiple of three). |
| Simplify.SimplifyMesh | viewer.js:21-60 | Each refusal happens exactly under its guard: no active model; uuid not found or not a mesh; current geometry without an index; a ratio below 0.99 with a cached original that has no index. The call succeeds exactly when every guard passes. On success, the scene's pre-order changes only at the mesh's entry and the tree's shape is kept. Only that entry and the model's counts change, and the counts equal the stats of the new scene. |
| Simplify.Simplified | viewer.js:33-52 | A successful call keeps the mesh's name, visibility and material. It caches the geometry it simplified from as the original. The new geometry is that original (ratio ≥ 0.99) or the modifier's output for it. |
| Simplify.CachesOriginalOnce | viewer.js:34-36 | The first successful call caches the current geometry as the original. Later calls never replace it. |
| Simplify.HighRatioRestoresOriginal | viewer.js:39-41 | A ratio of 0.99 or more makes the current geometry the cached original. |
| Simplify.LowRatioDecimatesOriginal | viewer.js:42-51 | Below 0.99, the new geometry is the modifier's output for the cached original. The target comes from the original's index count and is within its triangle count. |
| Simplify.OutcomeIgnoresCurrentGeometry | viewer.js:44-48 | Once an original is cached, two states that differ only in the current (indexed) geometry simplify to the same state. |
| Simplify.SimplifyThenRestore | viewer.js:29-41 | Round trip: after any successful simplification, a call at 100% succeeds and restores the geometry the mesh had before it was first simplified, provided the modifier keeps geometries indexed. |
| Simplify.RestoreRefusedAfterIndexDropped | viewer.js:29-31 | If the modifier's output has no index, a later restore is refused by the index guard, because that guard looks at the current geometry. |
| Simplify.RestoreIdempotent | viewer.js:39-41 | A second restore changes nothing. |
| Mixer.ClipAction | loader.js:82 | The clip's action is the cached one or a new idle one, and afterwards it is cached. Every other cached action is kept. |
| Mixer.StopAll | loader.js:78 | Every active action is stopped and reset to idle. Inactive actions are left as they are, the cache keeps the same clips, and afterwards no action is active. |
| Mixer.Uncache | loader.js:79 | The clip leaves the cache and every other cached action stays as it was. |
| Mixer.Play | dashboard.js:66 | `play()` activates the action and keeps its time and `paused` flag, and an active action is left unchanged. Afterwards the action runs, in the sense of `isRunning()` as read at dashboard.js:90, exactly when it is not paused. |
| Animation.LoadAnimation | loader.js:57-90 | No file, no active model or no mixer is refused; then a parse error; then a file without clips. In every refusal the models are untouched. On success the first clip is bound to the mixer's action for it: a fresh idle action when the clip was not cached or was the replaced clip. An earlier binding's clip is uncached. Every other cached action that was active is stopped, and inactive ones are kept. Nothing else changes. |
| Animation.LoadBindsIdleAction | loader.js:81-83 | When every mixer caches at most its model's bound clip, a load binds an idle action: not running, not paused, at time zero. |
| Animation.SlotsStayTidy | loader.js:76-83 | If every mixer caches at most its model's bound clip, loading, removing, play/pause, rewind and forward all keep it so. A model therefore never holds more than one animation. |
| Animation.ReplacedClipUncached | loader.js:77-80 | Loading over an existing binding removes the old clip from the mixer's cache. |
| Animation.RemoveAnimation | dashboard.js:60-62 | Without a binding nothing changes. Otherwise the binding is dropped and the clip is uncached. Every remaining action that was active is stopped, and inactive ones are kept. The model's scene and info are kept. |
| Animation.RemoveAnimationIdempotent | dashboard.js:61 | Removing twice is the same as removing once. |
| Animation.WithAction | dashboard.js:64-69 | The buttons write one action object that the binding and the mixer's cache share: the binding's action becomes the new one, the cached copy under the bound clip does too, and nothing else in the registry changes. The registry invariant is preserved. |
| Animation.PlayPause | dashboard.js:64-67 | Without a binding nothing changes. Otherwise `paused` is negated, the action ends up activated and its time is unchanged. The rest of the registry is untouched except that action: other models, the active model's info, scene, anchor and bound clip, the mixer's cached keys, and every cached action of another clip. |
| Animation.PlayPauseTwice | dashboard.js:66 | Two presses restore `paused` and the time. |
| Animation.Rewind | dashboard.js:68 | Without a binding nothing changes. The time never becomes negative: it moves back half a second, or to zero when less than half a second has played. `paused` and the active flag are kept. The rest of the registry is untouched except that action: other models, the active model's info, scene, anchor and bound clip, the mixer's cached keys, and every cached action of another clip. |
| Animation.Forward | dashboard.js:69 | Without a binding nothing changes. Otherwise the time increases by exactly half a second. `paused` and the active flag are kept. The rest of the registry is untouched except that action: other models, the active model's info, scene, anchor and bound clip, the mixer's cached keys, and every cached action of another clip. |
| Animation.RewindUndoesForward | dashboard.js:68-69 | Forward then rewind restores any non-negative time. |
| Animation.ForwardAfterRewind | dashboard.js:68-69 | Rewind then forward restores the time once half a second has played, and otherwise lands on half a second. |
| Animation.FirstPressDoesNotStart | dashboard.js:66 | On a freshly bound action, one press leaves it not running and a second press starts it. |
| Animation.PlayPauseToggle | dashboard.js:90-91 | Corrected toggle: an action runs afterwards exactly when it did not run before, and its time is unchanged. The rest of the registry is untouched except that action: other models, the active model's info, scene, anchor and bound clip, the mixer's cached keys, and every cached action of another clip. |
| Animation.ToggleStartsFreshAction | dashboard.js:90-91 | With the corrected toggle, one press starts a freshly bound action. |
| Loader.HandleModelLoad | loader.js:32-55 | No files means no registrations. Each registration carries the name and size of a file that parsed. Registrations follow file order, one per file. Every file that parses is registered. |
| Loader.HandleTextureLoad | loader.js:92-127 | No file or no `mesh` on the target is ignored; then a loader error; then a material that is not a standard material. Otherwise exactly the target slot receives the loaded picture, configured as sRGB, unflipped and repeat-wrapped, and the other slots are kept. |
| Loader.ApplyTextureIdempotent | loader.js:114 | Applying the same picture to the same slot again changes nothing. |
| Loader.PanelTargetIgnored | loader.js:95 | A target without a `mesh` field, the shape the textures panel stores, is always ignored. |
| Export.OpenExportDialog | dashboard.js:37-46 | No models is refused. The preselected model is the active one unless the active id is null or empty, in which case it is the first key. The suggestion is that model's name with one trailing `.glb` (any case) removed, followed by `_edited`. |
| Export.WithGlb | export.js:14 | The result always ends in `.glb` (any case). It equals the name exactly when the name already ends so, and otherwise is the name followed by `.glb`. |
| Export.ConfirmExport | export.js:7-18 | An unknown model is refused whatever the file name, so the model check comes first. A blank name is refused next. Otherwise the export goes out for that model under the trimmed name made to end in `.glb`. |
| Export.WithGlbIdempotent | export.js:14 | Normalising a normalised name changes nothing. |
| Export.ConfirmExportStable | export.js:9-14 | Confirming with a name an export already went out under exports under that same name. |
| Export.SuggestionExportsAsEdited | dashboard.js:43-44 | Confirming the unedited suggestion for a model saved as `x.glb`, `x` not starting with whitespace, exports `x_edited.glb`. |
| Text.Trim | meshes.js:84-85 | The trimmed string is the input's slice between its leading and trailing whitespace runs. It is empty exactly when the input is all whitespace, and otherwise starts and ends with non-whitespace. |
| Text.TrimIdempotent | export.js:9 | Trimming twice is trimming once. |
| Text.TrimKeepsTightString | export.js:9 | A non-empty string without whitespace at either end is its own trim. |
| Text.StripGlb | dashboard.js:43 | Removing the suffix shortens the name by four characters exactly when it ends in `.glb` (any case), and the result is a prefix of the name. |
| Text.StripGlbUndoesSuffix | dashboard.js:43 | Removing the suffix from `x` followed by any casing of `.glb` gives `x` back. |
| Text.EndsWithGlbOfAppend | export.js:14 | Whether a concatenation ends in `.glb` depends only on its last part (when that part has at least four characters). |

## Left out

- Disposal (`dispose()` on geometries, materials and the cached original) and removing the
  skeleton helper are GPU and scene-graph housekeeping with no effect on the modelled state.
- Asynchronous I/O is left out: FileReader, the glTF, DRACO and Meshopt decoders, TextureLoader,
  object URLs and the clipboard. Only the completion callbacks' state changes are modelled.
  Model files complete in file order here, whereas in the application they may complete in any
  order. An animation load is applied to the model that was active when the file was picked.
- viewer.js elides the bodies of `App` (viewer.js:11-16), including `addModel`,
  `setActiveModel`, `getActive`, `calculateModelStats` and the placement helpers.
  Loader.HandleModelLoad therefore records the `addModel` calls rather than their effect on the
  registry, and the stats are an uninterpreted parameter. Registry.Active takes `getActive()` to
  be `App.models[App.activeModelId]`, the lookup the dashboard writes out.
- `SimplifyModifier.modify` is an uninterpreted parameter. It is not assumed to reach its
  target triangle count.
- Floating-point arithmetic: the ratio is an exact percentage, and action times are exact reals.
- `mixer.update(0)` after rewind and forward only re-poses the model at the new time. It and the
  renderer's per-frame mixer updates are not modelled. Neither are an action's `enabled`,
  `timeScale` and start time, which keep their defaults throughout the editor.
- JavaScript key coercion is not modelled: `App.models[null]` looks up the key `"null"`. The
  model treats a null active id as naming no model.
- `Object.keys` order is the registry's `order` sequence, in insertion order. This assumes that
  model ids are never integer-like strings, since JavaScript enumerates those first. The ids are
  made by `addModel`, whose body viewer.js elides.
- Registry.CloseActivePicksFirstRemaining: assumes that no key is the empty string. With such a
  key, `ids[0] || null` yields null. Registry.CloseActiveWithEmptyFirstKey shows that case, and
  Registry.RemoveModel models it as written.
- Meshes.BatchDelete and Meshes.DeleteObjectRemovesUuid: "the deleted object is gone" is stated
  for scenes whose uuids are distinct, as three.js generates them. With duplicate uuids, a later
  object carrying the same uuid can remain.
- Simplify.TargetTriangles: rounds the exact product of the triangle count and the percentage,
  while `Math.round` sees a floating-point product. At an exact half the two can differ by one:
  50 triangles at a ratio of 0.29 is 14.5 exactly, so the model gives 15, but JavaScript
  computes 14.499999999999998 and gives 14.
- Simplify.SimplifyMesh: when an original is already cached but has no index (the current
  geometry passed the index guard), the source throws a `TypeError` at viewer.js:44 before
  changing anything. This is modelled as the refusal `OriginalNotIndexed`.
- The transform, textures, grid, panel, bootstrap and debugger panels are left out. So are the
  copy-data, rig toggle and connect-to-bone buttons, and the HTML rendering of every panel. None
  of them belongs to the core's state transitions.
- Loader.HandleTextureLoad: the target mesh is represented by its material. Writing the
  resulting material back into a scene object is not modelled.

## Findings

| source | as written | input that shows it | evidently intended | confidence | as-written member | corrected member |
|---|---|---|---|---|---|---|
| dashboard.js:66 | `a.paused = !a.paused; if (!a.isRunning()) a.play();` negates `paused` before activating. | A freshly loaded animation (action not paused and not yet activated): the first press sets `paused` and activates a paused action. The animation stays still, and the button still reads Play (dashboard.js:90-91). Animation.FirstPressDoesNotStart proves this. | One press on Play starts the animation, and one press on Pause stops it. Animation.ToggleStartsFreshAction proves this for the corrected toggle. | medium, not executed | Animation.PlayPause | Animation.PlayPauseToggle |
