/** `DstMappingConfigurationDialogViewModel`, the older Capella-to-Hub
    dialog. Its row selection, row status decision and element-definition
    lookup are the same code as the newer dialogs' (`Dialogs`,
    `DstToHubDialog`); its checkbox handler is `Dialogs.CheckBoxChangedClearingHub`.
    What differs is the Hub browser selection: the older dialog only takes
    element definitions and requirements specifications. */
module LegacyDstDialog {
  import opened Wrappers
  import opened Hub
  import opened Rows
  import opened Dialogs

  /** The things the older dialog takes from the Hub browsers. */
  predicate TakesThing(rowKind: RowKind, kind: ClassKind) {
    (kind == ElementDefinition || kind == RequirementsSpecification) && Accepts(rowKind, kind)
  }

  /** The older `SetHubElement(thing)`: ignored with no selection or when the
      selected row is an existing mapping; an element definition or a
      requirements specification is taken when the selected row holds that
      class, and anything else, requirements included, is ignored. */
  function SetHubElement(d: Dialog, thing: Thing, dstMapResult: seq<MappedRow>, hubHas: string -> bool): (r: Dialog)
    requires ValidDialog(d)
    ensures ValidDialog(r) && r.selected == d.selected && |r.rows| == |d.rows|
    ensures !AcceptsHubElement(d) ==> r == d
    ensures thing.kind !in {ElementDefinition, RequirementsSpecification} ==> r == d
    ensures AcceptsHubElement(d) && TakesThing(d.rows[d.selected.value].rowKind, thing.kind) ==>
      && r.rows[d.selected.value].hub == Some(thing)
      && !r.rows[d.selected.value].shouldCreate
      && !r.checkboxEnabled
      && r.rows[d.selected.value] == UpdateRowStatus(r.rows[d.selected.value], thing.kind, dstMapResult, hubHas)
      && forall j :: 0 <= j < |d.rows| && j != d.selected.value ==> r.rows[j] == d.rows[j]
  {
    if !AcceptsHubElement(d) then d
    else
      var rowKind := d.rows[d.selected.value].rowKind;
      if thing.kind == ElementDefinition && Accepts(rowKind, ElementDefinition) then
        SetHubElementOfKind(d, thing, ElementDefinition, dstMapResult, hubHas)
      else if thing.kind == RequirementsSpecification && Accepts(rowKind, RequirementsSpecification) then
        SetHubElementOfKind(d, thing, RequirementsSpecification, dstMapResult, hubHas)
      else d
  }

  /** The older and the newer `SetHubElement` agree on everything but Hub
      requirements, which only the newer one takes. */
  lemma SetHubElementAgreesExceptRequirements(d: Dialog, thing: Thing, dstMapResult: seq<MappedRow>, hubHas: string -> bool)
    requires ValidDialog(d)
    ensures thing.kind != Requirement ==>
      SetHubElement(d, thing, dstMapResult, hubHas) == Dialogs.SetHubElement(d, thing, dstMapResult, hubHas)
    ensures thing.kind == Requirement && AcceptsHubElement(d) && Accepts(d.rows[d.selected.value].rowKind, Requirement) ==>
      && SetHubElement(d, thing, dstMapResult, hubHas) == d
      && Dialogs.SetHubElement(d, thing, dstMapResult, hubHas).rows[d.selected.value].hub == Some(thing)
  {
  }
}
