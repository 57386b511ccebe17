/** The rows of the mapping views: `MappedElementRowViewModel` and its
    subclasses, which pair a Hub thing with a Capella element, and the
    Capella object browser's `ElementRowViewModel`. */
module Rows {
  import opened Wrappers
  import opened Text
  import opened Capella
  import opened Hub

  datatype MappingDirection = FromDstToHub | FromHubToDst

  /** The other mapping direction, which both controllers switch to. */
  function Opposite(d: MappingDirection): (r: MappingDirection)
    ensures r != d
  {
    if d == FromDstToHub then FromHubToDst else FromDstToHub
  }

  /** `MappedElementRowStatus` (the source spells the second value
      `ExisitingElement`). */
  datatype RowStatus = NoStatus | ExistingElement | ExistingMapping | NewElement

  /** Which subclass of `MappedElementRowViewModel` a row is. */
  datatype RowKind = ElementDefinitionRow | DstRequirementRow | HubRequirementRow

  /** `GetTThingClass().isAssignableFrom(kind)`: the Hub class a row of this
      kind holds. Element-definition rows hold any `ElementBase`. */
  predicate Accepts(rowKind: RowKind, kind: ClassKind) {
    match rowKind
    case ElementDefinitionRow => kind == ElementDefinition || kind == ElementUsage
    case DstRequirementRow => kind == RequirementsSpecification
    case HubRequirementRow => kind == Requirement
  }

  /** A mapped-element row. */
  datatype MappedRow = MappedRow(
    rowKind: RowKind,
    hub: Option<Thing>,
    dst: Option<Element>,
    direction: MappingDirection,
    status: RowStatus,
    shouldCreate: bool,
    isSelected: bool,
    targetArchitecture: Architecture)

  /** A row as its constructors leave it: not selected, no status, no new
      target, and the `PhysicalArchitecture` default target. */
  function NewRow(rowKind: RowKind, hub: Option<Thing>, dst: Option<Element>, direction: MappingDirection): (r: MappedRow)
    ensures r.rowKind == rowKind && r.hub == hub && r.dst == dst && r.direction == direction
    ensures r.status == NoStatus && !r.shouldCreate && !r.isSelected
    ensures r.targetArchitecture == PhysicalArchitecture
  {
    MappedRow(rowKind, hub, dst, direction, NoStatus, false, false, PhysicalArchitecture)
  }

  /** What `SetTargetArchitecture(Object)` may receive: an architecture, some
      other object, or null. */
  datatype ArchitectureValue = AnArchitecture(architecture: Architecture) | NotAnArchitecture | NullValue

  /** `SetTargetArchitecture`: only an architecture value is taken. */
  function SetTargetArchitecture(row: MappedRow, value: ArchitectureValue): (r: MappedRow)
    ensures value.AnArchitecture? ==> r.targetArchitecture == value.architecture
    ensures !value.AnArchitecture? ==> r == row
    ensures r.(targetArchitecture := row.targetArchitecture) == row
  {
    match value
    case AnArchitecture(a) => row.(targetArchitecture := a)
    case _ => row
  }

  /** `DoesRepresentAnElementDefinitionComponentMapping`. */
  function DoesRepresentAnElementDefinitionComponentMapping(row: MappedRow): (r: bool)
    ensures r ==> (row.direction == FromHubToDst && row.hub.Some?) || (row.direction == FromDstToHub && row.dst.Some?)
    ensures r <==>
      (row.direction == FromHubToDst && row.hub.Some? && row.hub.value.kind == ElementDefinition)
      || (row.direction == FromDstToHub && row.dst.Some? && IsComponent(row.dst.value.cls))
  {
    match row.direction
    case FromHubToDst => row.hub.Some? && row.hub.value.kind == ElementDefinition
    case FromDstToHub => row.dst.Some? && IsComponent(row.dst.value.cls)
  }

  /** The text `GetDstElementRepresentation` passes on to the shared
      formatter: the element's name, or `-` when there is none. */
  function DstElementText(row: MappedRow): (r: string)
    ensures row.dst.None? ==> r == "-"
    ensures row.dst.Some? ==> r == row.dst.value.name
  {
    if row.dst.None? then "-" else row.dst.value.name
  }

  // --- Capella object browser rows ---------------------------------------

  /** An `ElementRowViewModel`: its element, display name, flags, and, for
      rows that have them, the contained rows (`None` for rows without). */
  datatype ElementRow = ElementRow(
    element: Option<Element>,
    name: string,
    isSelected: bool,
    isHighlighted: bool,
    containedRows: Option<seq<Element>>)

  /** `SwitchIsSelectedValue`: flips the flag and returns its new value. */
  function SwitchIsSelectedValue(row: ElementRow): (r: (ElementRow, bool))
    ensures r.1 == r.0.isSelected
    ensures r.0.isSelected != row.isSelected
    ensures r.0.(isSelected := row.isSelected) == row
  {
    var flipped := row.(isSelected := !row.isSelected);
    (flipped, flipped.isSelected)
  }

  /** Switching twice gives the row back. */
  lemma SwitchIsSelectedTwice(row: ElementRow)
    ensures SwitchIsSelectedValue(SwitchIsSelectedValue(row).0).0 == row
  {
  }

  /** The display name `UpdateProperties` gives an element: a requirement
      with a non-blank requirement id shows "<id> - <name>", any other named
      element its name, and anything else its `toString()`, given here as
      `text`. */
  function DisplayName(element: Element, text: string): (r: string)
    ensures IsRequirement(element.cls) && !IsBlank(element.requirementId) ==>
      && |r| == |element.requirementId| + 3 + |element.name|
      && r[..|element.requirementId|] == element.requirementId
      && r[|element.requirementId|..|element.requirementId| + 3] == " - "
      && r[|element.requirementId| + 3..] == element.name
    ensures !(IsRequirement(element.cls) && !IsBlank(element.requirementId)) ==>
      r == (if IsNamedElement(element.cls) then element.name else text)
  {
    if IsRequirement(element.cls) && !IsBlank(element.requirementId) then
      element.requirementId + " - " + element.name
    else if IsNamedElement(element.cls) then element.name
    else text
  }

  /** `UpdateProperties()`: renames the row after its element; a row with
      no element keeps its name. */
  function UpdateProperties(row: ElementRow, text: string): (r: ElementRow)
    ensures row.element.None? ==> r == row
    ensures row.element.Some? ==> r == row.(name := DisplayName(row.element.value, text))
  {
    match row.element
    case None => row
    case Some(e) => row.(name := DisplayName(e, text))
  }

  /** `UpdateElement(element, shouldHighlight)`: takes the new element,
      renames the row, highlights it when asked (never un-highlights), and
      recomputes the contained rows, if the row has any, from the new
      element with `computeRows`. */
  function UpdateElement(row: ElementRow, element: Element, shouldHighlight: bool, text: string,
                         computeRows: Element -> seq<Element>): (r: ElementRow)
    ensures r.element == Some(element)
    ensures r.name == DisplayName(element, text)
    ensures r.isHighlighted == (shouldHighlight || row.isHighlighted)
    ensures r.isSelected == row.isSelected
    ensures r.containedRows.Some? <==> row.containedRows.Some?
    ensures r.containedRows.Some? ==> r.containedRows.value == computeRows(element)
  {
    var named := UpdateProperties(row.(element := Some(element)), text);
    var highlighted := if shouldHighlight then named.(isHighlighted := true) else named;
    match highlighted.containedRows
    case None => highlighted
    case Some(_) => highlighted.(containedRows := Some(computeRows(element)))
  }

  /** Updating with the same element twice gives the same row as once: the
      recomputed rows depend only on the element. */
  lemma UpdateElementIdempotent(row: ElementRow, element: Element, shouldHighlight: bool, text: string,
                                computeRows: Element -> seq<Element>)
    ensures var once := UpdateElement(row, element, shouldHighlight, text, computeRows);
      UpdateElement(once, element, shouldHighlight, text, computeRows) == once
  {
  }
}
