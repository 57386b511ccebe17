/** `MappingConfigurationDialogViewModel`, the base of the mapping dialogs:
    the list of mapped rows, the selected row, the "map to a new element"
    checkbox, and the row status decision. The Hub lookups the dialog makes
    are parameters: `dstMapResult` is the controller's current map result
    and `hubHas` tells whether the open iteration holds a thing with a given
    iid (`TryGetThingById`). */
module Dialogs {
  import opened Wrappers
  import opened Capella
  import opened Hub
  import opened Rows

  /** The dialog's state: its mapped rows, the position of the selected one,
      and whether the checkbox is enabled. */
  datatype Dialog = Dialog(rows: seq<MappedRow>, selected: Option<nat>, checkboxEnabled: bool)

  predicate ValidDialog(d: Dialog) {
    d.selected.Some? ==> d.selected.value < |d.rows|
  }

  /** Some row of the map result holds a Hub element of exactly class
      `kind` with identifier `iid` (rows without a Hub element do not
      count). */
  predicate IsMapped(dstMapResult: seq<MappedRow>, kind: ClassKind, iid: string) {
    exists i | 0 <= i < |dstMapResult| ::
      dstMapResult[i].hub.Some? && dstMapResult[i].hub.value.kind == kind && dstMapResult[i].hub.value.iid == iid
  }

  /** `UpdateRowStatus(row, clazz)`: a row that creates a new target is
      `NewElement`; otherwise a row whose Hub element is already mapped as a
      `kind` is `ExistingMapping`, one whose Hub element exists in the Hub is
      `ExistingElement`, and any other row has no status. Nothing but the
      status changes. */
  function UpdateRowStatus(row: MappedRow, kind: ClassKind, dstMapResult: seq<MappedRow>, hubHas: string -> bool): (r: MappedRow)
    ensures r == row.(status := r.status)
    ensures r.status == NewElement <==> row.shouldCreate
    ensures r.status == ExistingMapping <==>
      !row.shouldCreate && row.hub.Some? && IsMapped(dstMapResult, kind, row.hub.value.iid)
    ensures r.status == ExistingElement <==>
      !row.shouldCreate && row.hub.Some? && !IsMapped(dstMapResult, kind, row.hub.value.iid) && hubHas(row.hub.value.iid)
    ensures r.status == NoStatus <==>
      !row.shouldCreate && (row.hub.None? || (!IsMapped(dstMapResult, kind, row.hub.value.iid) && !hubHas(row.hub.value.iid)))
  {
    var status :=
      if row.shouldCreate then NewElement
      else if row.hub.None? then NoStatus
      else if IsMapped(dstMapResult, kind, row.hub.value.iid) then ExistingMapping
      else if hubHas(row.hub.value.iid) then ExistingElement
      else NoStatus;
    row.(status := status)
  }

  /** The status a row is given does not depend on the status it had, so
      updating twice is updating once. */
  lemma UpdateRowStatusForgetsOldStatus(row: MappedRow, previous: RowStatus, kind: ClassKind,
                                        dstMapResult: seq<MappedRow>, hubHas: string -> bool)
    ensures UpdateRowStatus(row.(status := previous), kind, dstMapResult, hubHas) == UpdateRowStatus(row, kind, dstMapResult, hubHas)
    ensures var once := UpdateRowStatus(row, kind, dstMapResult, hubHas);
      UpdateRowStatus(once, kind, dstMapResult, hubHas) == once
  {
  }

  /** Replaces the selected row. */
  function UpdateSelected(d: Dialog, row: MappedRow): (r: Dialog)
    requires ValidDialog(d) && d.selected.Some?
    ensures ValidDialog(r) && r.selected == d.selected && |r.rows| == |d.rows|
    ensures r.rows[d.selected.value] == row
    ensures forall j :: 0 <= j < |d.rows| && j != d.selected.value ==> r.rows[j] == d.rows[j]
  {
    d.(rows := d.rows[d.selected.value := row])
  }

  /** `SetSelectedMappedElement` together with the subscription on the
      selection: the row is flagged selected, becomes the selection, and the
      checkbox is enabled exactly when the row is not an existing mapping. */
  function SetSelectedMappedElement(d: Dialog, i: nat): (r: Dialog)
    requires i < |d.rows|
    ensures ValidDialog(r) && r.selected == Some(i) && |r.rows| == |d.rows|
    ensures r.rows[i] == d.rows[i].(isSelected := true)
    ensures forall j :: 0 <= j < |d.rows| && j != i ==> r.rows[j] == d.rows[j]
    ensures r.checkboxEnabled <==> d.rows[i].status != ExistingMapping
  {
    var row := d.rows[i].(isSelected := true);
    Dialog(d.rows[i := row], Some(i), row.status != ExistingMapping)
  }

  /** `SetHubElement(thing, clazz)`: the selected row takes the thing as its
      Hub element and no longer creates a new one, the checkbox is
      disabled, and the row status is worked out again for `kind`. */
  function SetHubElementOfKind(d: Dialog, thing: Thing, kind: ClassKind,
                               dstMapResult: seq<MappedRow>, hubHas: string -> bool): (r: Dialog)
    requires ValidDialog(d) && d.selected.Some?
    ensures ValidDialog(r) && r.selected == d.selected && |r.rows| == |d.rows|
    ensures forall j :: 0 <= j < |d.rows| && j != d.selected.value ==> r.rows[j] == d.rows[j]
    ensures var row := r.rows[d.selected.value];
      && row.hub == Some(thing) && !row.shouldCreate && row.status != NewElement
      && row.(status := d.rows[d.selected.value].status, hub := d.rows[d.selected.value].hub,
              shouldCreate := d.rows[d.selected.value].shouldCreate) == d.rows[d.selected.value]
    ensures !r.checkboxEnabled
  {
    var row := d.rows[d.selected.value].(hub := Some(thing), shouldCreate := false);
    UpdateSelected(d, UpdateRowStatus(row, kind, dstMapResult, hubHas)).(checkboxEnabled := false)
  }

  /** Whether the selected row may take a new Hub element: there is a
      selection and it is not an existing mapping. */
  predicate AcceptsHubElement(d: Dialog) {
    d.selected.Some? && d.selected.value < |d.rows| && d.rows[d.selected.value].status != ExistingMapping
  }

  /** `SetHubElement(thing)`: ignored with no selection or when the selected
      row is an existing mapping; otherwise an element definition, a
      requirements specification or a requirement is taken when the selected
      row holds things of that class, and anything else is ignored. */
  function SetHubElement(d: Dialog, thing: Thing, dstMapResult: seq<MappedRow>, hubHas: string -> bool): (r: Dialog)
    requires ValidDialog(d)
    ensures ValidDialog(r)
    ensures !AcceptsHubElement(d) ==> r == d
    ensures AcceptsHubElement(d) && TakesThing(d.rows[d.selected.value].rowKind, thing.kind) ==>
      r == SetHubElementOfKind(d, thing, thing.kind, dstMapResult, hubHas)
    ensures AcceptsHubElement(d) && !TakesThing(d.rows[d.selected.value].rowKind, thing.kind) ==> r == d
  {
    if !AcceptsHubElement(d) then d
    else
      var rowKind := d.rows[d.selected.value].rowKind;
      if thing.kind == ElementDefinition && Accepts(rowKind, ElementDefinition) then
        SetHubElementOfKind(d, thing, ElementDefinition, dstMapResult, hubHas)
      else if thing.kind == RequirementsSpecification && Accepts(rowKind, RequirementsSpecification) then
        SetHubElementOfKind(d, thing, RequirementsSpecification, dstMapResult, hubHas)
      else if thing.kind == Requirement && Accepts(rowKind, Requirement) then
        SetHubElementOfKind(d, thing, Requirement, dstMapResult, hubHas)
      else d
  }

  /** The things a row of this kind takes from the Hub browsers. */
  predicate TakesThing(rowKind: RowKind, kind: ClassKind) {
    (kind == ElementDefinition || kind == RequirementsSpecification || kind == Requirement) && Accepts(rowKind, kind)
  }

  /** Setting the same Hub element twice is setting it once: the second call
      either is ignored, because the row became an existing mapping, or
      recomputes the same row. */
  lemma SetHubElementIdempotent(d: Dialog, thing: Thing, dstMapResult: seq<MappedRow>, hubHas: string -> bool)
    requires ValidDialog(d)
    ensures var once := SetHubElement(d, thing, dstMapResult, hubHas);
      SetHubElement(once, thing, dstMapResult, hubHas) == once
  {
    var once := SetHubElement(d, thing, dstMapResult, hubHas);
    if AcceptsHubElement(d) && TakesThing(d.rows[d.selected.value].rowKind, thing.kind) && AcceptsHubElement(once) {
      var i := d.selected.value;
      var twice := SetHubElement(once, thing, dstMapResult, hubHas);
      assert twice.rows[i] == once.rows[i];
      assert twice.rows == once.rows;
    }
  }

  /** The base `WhenMapToNewElementCheckBoxChanged`: with a selection, the
      selected row creates a new target exactly when the box is ticked. */
  function CheckBoxChanged(d: Dialog, ticked: bool): (r: Dialog)
    requires ValidDialog(d)
    ensures ValidDialog(r) && r.selected == d.selected && r.checkboxEnabled == d.checkboxEnabled
    ensures d.selected.None? ==> r == d
    ensures d.selected.Some? ==>
      r.rows == d.rows[d.selected.value := d.rows[d.selected.value].(shouldCreate := ticked)]
  {
    match d.selected
    case None => d
    case Some(i) =>
      if ticked != d.rows[i].shouldCreate then UpdateSelected(d, d.rows[i].(shouldCreate := ticked)) else d
  }

  /** The status refresh that ends the checkbox handler of the Capella-to-Hub
      dialogs: only rows whose Hub element is an element definition or a
      requirements specification are refreshed. */
  function RefreshStatus(row: MappedRow, dstMapResult: seq<MappedRow>, hubHas: string -> bool): (r: MappedRow)
    ensures r == row.(status := r.status)
    ensures row.hub.Some? && row.hub.value.kind in {ElementDefinition, RequirementsSpecification} ==>
      r == UpdateRowStatus(row, row.hub.value.kind, dstMapResult, hubHas)
    ensures !(row.hub.Some? && row.hub.value.kind in {ElementDefinition, RequirementsSpecification}) ==> r == row
  {
    if row.hub.Some? && row.hub.value.kind == ElementDefinition then
      UpdateRowStatus(row, ElementDefinition, dstMapResult, hubHas)
    else if row.hub.Some? && row.hub.value.kind == RequirementsSpecification then
      UpdateRowStatus(row, RequirementsSpecification, dstMapResult, hubHas)
    else row
  }

  /** The checkbox handler of the newer dialogs, as written: the base handler
      runs first, so by the time the override asks whether the box was
      ticked on a row that did not already create a new target, the row has
      just been told to create one and the Hub element is never cleared.
      With no selection the override dereferences the missing row
      (`None`, a `NullPointerException`). */
  function CheckBoxChangedAsWritten(d: Dialog, ticked: bool, dstMapResult: seq<MappedRow>, hubHas: string -> bool): (r: Option<Dialog>)
    requires ValidDialog(d)
    ensures r.None? <==> d.selected.None?
    ensures r.Some? ==> ValidDialog(r.value) && r.value.selected == d.selected && |r.value.rows| == |d.rows|
    ensures r.Some? ==>
      var row := r.value.rows[d.selected.value];
      && row.shouldCreate == ticked
      && row.hub == d.rows[d.selected.value].hub
  {
    match d.selected
    case None => None
    case Some(i) =>
      var d1 := CheckBoxChanged(d, ticked);
      var row := d1.rows[i];
      var row2 := if ticked && !row.shouldCreate then row.(hub := None) else row;
      Some(UpdateSelected(d1, RefreshStatus(row2, dstMapResult, hubHas)))
  }

  /** The checkbox handler as the older dialog orders it, which is what the
      newer ones mean: ticking the box on a row that did not create a new
      target first drops the row's Hub element, then the row is told whether
      to create one, and the status is refreshed for rows that still hold an
      element definition or a requirements specification. With no selection
      nothing happens. */
  function CheckBoxChangedClearingHub(d: Dialog, ticked: bool, dstMapResult: seq<MappedRow>, hubHas: string -> bool): (r: Dialog)
    requires ValidDialog(d)
    ensures ValidDialog(r) && r.selected == d.selected && |r.rows| == |d.rows|
    ensures d.selected.None? ==> r == d
    ensures d.selected.Some? ==>
      var before := d.rows[d.selected.value];
      var row := r.rows[d.selected.value];
      && row.shouldCreate == ticked
      && (ticked && !before.shouldCreate ==> row.hub.None? && row.status == before.status)
      && (!(ticked && !before.shouldCreate) ==> row.hub == before.hub)
      && (forall j :: 0 <= j < |d.rows| && j != d.selected.value ==> r.rows[j] == d.rows[j])
  {
    match d.selected
    case None => d
    case Some(i) =>
      var row := d.rows[i];
      var cleared := if ticked && !row.shouldCreate then row.(hub := None) else row;
      var d1 := CheckBoxChanged(UpdateSelected(d, cleared), ticked);
      UpdateSelected(d1, RefreshStatus(d1.rows[i], dstMapResult, hubHas))
  }

  /** A row that maps a component to an existing element definition and is
      ticked "new" keeps the element definition as written; the older order
      drops it. */
  lemma TickingNewKeepsHubElement(ed: Thing, component: Element, dstMapResult: seq<MappedRow>, hubHas: string -> bool)
    requires ed.kind == ElementDefinition
    ensures var row := NewRow(ElementDefinitionRow, Some(ed), Some(component), FromDstToHub);
      var d := Dialog([row], Some(0), true);
      && CheckBoxChangedAsWritten(d, true, dstMapResult, hubHas).value.rows[0].hub == Some(ed)
      && CheckBoxChangedClearingHub(d, true, dstMapResult, hubHas).rows[0].hub.None?
  {
  }
}
