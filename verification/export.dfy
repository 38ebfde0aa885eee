/** The export dialog: its defaults when the dashboard's Export button opens it (dashboard.js)
    and the confirm button's checks and file-name normalisation (export.js). */
module Export {
  import opened Wrappers
  import opened Text
  import Registry

  /** Why the dialog did not open or an export did not start. */
  datatype ExportRefusal =
    | NoModels        // "No models to export."
    | UnknownModel    // "Select a model."
    | EmptyFilename   // "Provide a filename."

  /** The dialog's initial state: the preselected model and the suggested file name. */
  datatype Dialog = Dialog(selected: Registry.Id, filename: string)

  /** `App.exportModel(id, filename)`. */
  datatype ExportRequest = ExportRequest(model: Registry.Id, filename: string)

  /** The suffix the suggested name gets before the extension. */
  const EditedSuffix: string := "_edited"

  /** The Export button: the active model is preselected unless there is none (or its id is the
      empty string, which `||` treats as absent), in which case the first model in key order is;
      the suggested name is that model's file name with one trailing `.glb` removed, in any case,
      followed by `_edited`. */
  function OpenExportDialog(r: Registry.Registry): (res: Result<Dialog, ExportRefusal>)
    requires Registry.Valid(r)
    ensures res.Err? <==> |r.order| == 0
    ensures res.Err? ==> res.error == NoModels
    ensures res.Ok? ==> res.value.selected in r.models
    ensures res.Ok? && r.active.Some? && r.active.value != "" ==> res.value.selected == r.active.value
    ensures res.Ok? && (r.active.None? || r.active.value == "") ==> res.value.selected == r.order[0]
    ensures res.Ok? ==>
              var name := r.models[res.value.selected].info.name;
              && (EndsWithGlb(name) ==> res.value.filename == name[..|name| - 4] + EditedSuffix)
              && (!EndsWithGlb(name) ==> res.value.filename == name + EditedSuffix)
  {
    if |r.order| == 0 then
      Err(NoModels)
    else
      var selected := if r.active.Some? && r.active.value != "" then r.active.value else r.order[0];
      Ok(Dialog(selected, StripGlb(r.models[selected].info.name) + EditedSuffix))
  }

  /** The file name used for an export: kept as is when it already ends in `.glb` in any case,
      otherwise with `.glb` appended. */
  function WithGlb(name: string): (f: string)
    ensures EndsWithGlb(f)
    ensures EndsWithGlb(name) <==> f == name
    ensures !EndsWithGlb(name) ==> f == name + GlbExtension
  {
    if EndsWithGlb(name) then name else name + GlbExtension
  }

  /** The confirm button: the model id must name a model, checked first, and the trimmed file
      name must be non-empty; the export goes out under the normalised name. */
  function ConfirmExport(r: Registry.Registry, id: Registry.Id, input: string)
    : (res: Result<ExportRequest, ExportRefusal>)
    ensures res == Err(UnknownModel) <==> id !in r.models
    ensures res == Err(EmptyFilename) <==> id in r.models && AllTrimmable(input)
    ensures res.Ok? ==>
              && res.value.model == id
              && EndsWithGlb(res.value.filename)
              && |Trim(input)| > 0
              && (EndsWithGlb(Trim(input)) ==> res.value.filename == Trim(input))
              && (!EndsWithGlb(Trim(input)) ==> res.value.filename == Trim(input) + GlbExtension)
  {
    var filename := Trim(input);
    if id !in r.models then Err(UnknownModel)
    else if |filename| == 0 then Err(EmptyFilename)
    else Ok(ExportRequest(id, WithGlb(filename)))
  }

  /** Normalising a normalised name changes nothing. */
  lemma WithGlbIdempotent(name: string)
    ensures WithGlb(WithGlb(name)) == WithGlb(name)
  {
  }

  /** Confirming again with the name an export went out under exports under that same name. */
  lemma ConfirmExportStable(r: Registry.Registry, id: Registry.Id, input: string)
    requires ConfirmExport(r, id, input).Ok?
    ensures ConfirmExport(r, id, ConfirmExport(r, id, input).value.filename) == ConfirmExport(r, id, input)
  {
    var f := ConfirmExport(r, id, input).value.filename;
    var t := Trim(input);
    assert f[0] == t[0];
    assert f[|f| - 1] == 'b' || f[|f| - 1] == 'B' by {
      if EndsWithGlb(t) {
        assert f == t;
      } else {
        assert f == t + GlbExtension;
      }
    }
    TrimKeepsTightString(f);
  }

  /** Confirming the dialog's own suggestion for a model saved as `x.glb`, `x` not starting with
      white space, exports it as `x_edited.glb`. */
  lemma SuggestionExportsAsEdited(r: Registry.Registry, x: string, ext: string)
    requires Registry.Valid(r) && |r.order| > 0
    requires |ext| == 4 && EndsWithGlb(ext)
    requires r.models[OpenExportDialog(r).value.selected].info.name == x + ext
    requires |x| == 0 || !IsTrimmable(x[0])
    ensures var d := OpenExportDialog(r).value;
            ConfirmExport(r, d.selected, d.filename) == Ok(ExportRequest(d.selected, x + EditedSuffix + GlbExtension))
  {
    var d := OpenExportDialog(r).value;
    StripGlbUndoesSuffix(x, ext);
    assert d.filename == x + EditedSuffix;
    TrimKeepsTightString(x + EditedSuffix);
    EndsWithGlbOfAppend(x, EditedSuffix);
    assert !EndsWithGlb(EditedSuffix);
  }
}
