/** `HubToDstMappingConfigurationDialogViewModel`: the dialog that maps
    selected Hub element definitions and requirements to Capella components
    and requirements. The controller's search of the Capella model by name
    (`TryGetElementByName`, `TryGetRequirementByName`) is the parameter
    `byName`; new Capella elements come from the transaction registry, with
    the identifier `newId` the EMF factory gives them. */
module HubToDstDialog {
  import opened Wrappers
  import opened Capella
  import opened Hub
  import opened Rows
  import opened Transactions
  import opened Dialogs

  /** `CapellaArchitecture.From(element)` as the row setter receives it: the
      architecture of the element's root block architecture, or null. */
  function ArchitectureOf(element: Element): (v: ArchitectureValue)
    ensures v.AnArchitecture? <==> element.root.Some?
    ensures v.AnArchitecture? ==> v.architecture == element.root.value
    ensures !v.AnArchitecture? ==> v == NullValue
  {
    match element.root
    case Some(a) => AnArchitecture(a)
    case None => NullValue
  }

  /** `UpdateMappedElements`: the Capella element picked in the browser
      becomes the target of the selected row, unless there is no selection
      or the row already targets an element with that id. A component or a
      requirement is taken as the target; element-definition rows then take
      the element's architecture, when it has one. */
  function UpdateMappedElements(d: Dialog, element: Element): (r: Dialog)
    requires ValidDialog(d)
    ensures ValidDialog(r) && r.selected == d.selected && |r.rows| == |d.rows| && r.checkboxEnabled == d.checkboxEnabled
    ensures d.selected.None? ==> r == d
    ensures d.selected.Some? && d.rows[d.selected.value].dst.Some? && d.rows[d.selected.value].dst.value.id == element.id ==>
      r == d
    ensures forall j :: 0 <= j < |d.rows| && Some(j) != d.selected ==> r.rows[j] == d.rows[j]
    ensures d.selected.Some? && !(d.rows[d.selected.value].dst.Some? && d.rows[d.selected.value].dst.value.id == element.id) ==>
      var before := d.rows[d.selected.value];
      var row := r.rows[d.selected.value];
      && (IsComponent(element.cls) || IsRequirement(element.cls) ==> row.dst == Some(element))
      && (!(IsComponent(element.cls) || IsRequirement(element.cls)) ==> row.dst == before.dst)
      && (before.rowKind == ElementDefinitionRow && element.root.Some? ==> row.targetArchitecture == element.root.value)
      && (before.rowKind != ElementDefinitionRow || element.root.None? ==> row.targetArchitecture == before.targetArchitecture)
      && row.(dst := before.dst, targetArchitecture := before.targetArchitecture) == before
  {
    match d.selected
    case None => d
    case Some(i) =>
      var row := d.rows[i];
      if row.dst.Some? && row.dst.value.id == element.id then d
      else
        var withTarget := if IsComponent(element.cls) || IsRequirement(element.cls) then row.(dst := Some(element)) else row;
        var withArchitecture :=
          if withTarget.rowKind == ElementDefinitionRow then SetTargetArchitecture(withTarget, ArchitectureOf(element))
          else withTarget;
        UpdateSelected(d, withArchitecture)
  }

  /** Some row maps an element definition with this iid to a component of
      exactly this class. */
  predicate IsMappedToComponent(rows: seq<MappedRow>, iid: string, componentType: DstClass) {
    exists i | 0 <= i < |rows| ::
      rows[i].hub.Some? && rows[i].hub.value.iid == iid && rows[i].dst.Some? && rows[i].dst.value.cls == componentType
  }

  /** The result of a target lookup: the registry afterwards, the target
      found or made (what the reference holds), and whether a new target is
      to be created. */
  datatype Lookup = Lookup(reg: Registry, target: Option<Element>, shouldCreate: bool)

  /** `TryGetComponent(elementDefinition, componentType, …)`: when no row maps
      the element definition to a component of that class, a component of
      that class with the element definition's name is cloned if the model
      has one, or else created and flagged for creation. When such a row
      exists nothing happens and nothing is found. */
  function TryGetComponent(rows: seq<MappedRow>, elementDefinition: Thing, componentType: DstClass,
                           byName: Option<Element>, reg: Registry, newId: string, shouldCreate: bool): (r: Lookup)
    requires Valid(reg) && IsComponent(componentType)
    requires byName.Some? ==> IsComponent(byName.value.cls)
    ensures Valid(r.reg)
    ensures IsMappedToComponent(rows, elementDefinition.iid, componentType) ==> r == Lookup(reg, None, shouldCreate)
    ensures !IsMappedToComponent(rows, elementDefinition.iid, componentType) ==>
      && r.target.Some?
      && (byName.Some? && byName.value.cls == componentType ==>
            r.target.value.id == byName.value.id && IsCloned(r.reg, r.target.value) && r.shouldCreate == shouldCreate)
      && (!(byName.Some? && byName.value.cls == componentType) ==>
            && r.target.value.cls == componentType && r.target.value.name == elementDefinition.name
            && IsNew(r.reg, r.target.value) && r.shouldCreate)
  {
    if IsMappedToComponent(rows, elementDefinition.iid, componentType) then Lookup(reg, None, shouldCreate)
    else if byName.Some? && byName.value.cls == componentType then
      var c := Clone(reg, byName);
      Lookup(c.0, c.1, shouldCreate)
    else
      var c := Create(reg, componentType, true, newId, Some(elementDefinition.name));
      Lookup(c.0, c.1, true)
  }

  /** The architecture a pre-mapped element-definition row targets:
      physical for a physical component, logical otherwise. */
  function ArchitectureFor(component: Element): (a: Architecture)
    ensures a == PhysicalArchitecture <==> component.cls == PhysicalComponent
    ensures a != PhysicalArchitecture ==> a == LogicalArchitecture
  {
    if component.cls == PhysicalComponent then PhysicalArchitecture else LogicalArchitecture
  }

  /** `UpdateComponent`: when the target architecture of an element
      definition row changes, the row's component is looked up again as a
      physical component for the physical architecture and a logical one
      otherwise. The creation flag the lookup computes is not written back to
      the row. */
  function UpdateComponent(rows: seq<MappedRow>, row: MappedRow, byName: Option<Element>,
                           reg: Registry, newId: string): (r: (Registry, MappedRow))
    requires Valid(reg) && row.hub.Some?
    requires byName.Some? ==> IsComponent(byName.value.cls)
    ensures Valid(r.0)
    ensures r.1 == row.(dst := r.1.dst)
    ensures var componentType := if row.targetArchitecture == PhysicalArchitecture then PhysicalComponent else LogicalComponent;
      && (IsMappedToComponent(rows, row.hub.value.iid, componentType) ==> r == (reg, row))
      && (!IsMappedToComponent(rows, row.hub.value.iid, componentType) ==> r.1.dst.Some?)
      && (!IsMappedToComponent(rows, row.hub.value.iid, componentType) && !(byName.Some? && byName.value.cls == componentType) ==>
            r.1.dst.value.cls == componentType && IsNew(r.0, r.1.dst.value))
  {
    var componentType := if row.targetArchitecture == PhysicalArchitecture then PhysicalComponent else LogicalComponent;
    var lookup := TryGetComponent(rows, row.hub.value, componentType, byName, reg, newId, row.shouldCreate);
    if lookup.target.Some? then (lookup.reg, row.(dst := lookup.target)) else (lookup.reg, row)
  }

  /** Some row maps a Hub thing with this iid. */
  predicate IsHubMapped(rows: seq<MappedRow>, iid: string) {
    exists i | 0 <= i < |rows| :: rows[i].hub.Some? && rows[i].hub.value.iid == iid
  }

  /** `TryGetRequirement`: the result of the lookup and the architecture it
      reports. */
  datatype RequirementLookup = RequirementLookup(lookup: Lookup, architecture: Option<Architecture>)

  /** `TryGetRequirement`: when no row maps the Hub requirement, a Capella
      requirement of the same name is cloned, reporting its architecture, or
      else a new requirement is created (`created` says whether the factory
      could build one), targeting the system analysis and flagged for
      creation. */
  function TryGetRequirement(rows: seq<MappedRow>, requirement: Thing, byName: Option<Element>,
                             reg: Registry, newId: string, created: bool): (r: RequirementLookup)
    requires Valid(reg)
    requires byName.Some? ==> IsRequirement(byName.value.cls)
    ensures Valid(r.lookup.reg)
    ensures IsHubMapped(rows, requirement.iid) ==> r == RequirementLookup(Lookup(reg, None, false), None)
    ensures !IsHubMapped(rows, requirement.iid) && byName.Some? ==>
      && r.lookup.target.Some? && r.lookup.target.value.id == byName.value.id
      && IsCloned(r.lookup.reg, r.lookup.target.value)
      && !r.lookup.shouldCreate && r.architecture == byName.value.root
    ensures !IsHubMapped(rows, requirement.iid) && byName.None? ==>
      && r.lookup.shouldCreate && r.architecture == Some(SystemAnalysis)
      && (r.lookup.target.Some? <==> created)
      && (created ==> r.lookup.target.value.name == requirement.name && IsNew(r.lookup.reg, r.lookup.target.value))
  {
    if IsHubMapped(rows, requirement.iid) then RequirementLookup(Lookup(reg, None, false), None)
    else if byName.Some? then
      var c := Clone(reg, byName);
      RequirementLookup(Lookup(c.0, c.1, false), byName.value.root)
    else
      var c := Create(reg, OtherRequirement, created, newId, Some(requirement.name));
      RequirementLookup(Lookup(c.0, c.1, true), Some(SystemAnalysis))
  }

  /** `GetMappedElementRowViewModel`: an element definition is looked up as a
      physical component and its row targets the architecture of the
      component found; a requirement is looked up as a Capella requirement.
      A row's status is `NewElement` exactly when it creates its target. */
  function GetMappedElementRow(rows: seq<MappedRow>, thing: Thing, byName: Option<Element>,
                               reg: Registry, newId: string, created: bool): (r: (Registry, Option<MappedRow>))
    requires Valid(reg)
    requires byName.Some? && thing.kind == ElementDefinition ==> IsComponent(byName.value.cls)
    requires byName.Some? && thing.kind == Requirement ==> IsRequirement(byName.value.cls)
    ensures Valid(r.0)
    ensures r.1.Some? ==> thing.kind in {ElementDefinition, Requirement}
    ensures r.1.Some? ==>
      && r.1.value.hub == Some(thing) && r.1.value.dst.Some? && r.1.value.direction == FromHubToDst
      && (r.1.value.status == NewElement <==> r.1.value.shouldCreate)
      && (r.1.value.status == ExistingElement <==> !r.1.value.shouldCreate)
    ensures r.1.Some? && thing.kind == ElementDefinition ==>
      && r.1.value.rowKind == ElementDefinitionRow
      && (r.1.value.targetArchitecture == PhysicalArchitecture <==> r.1.value.dst.value.cls == PhysicalComponent)
      && (r.1.value.targetArchitecture != PhysicalArchitecture ==> r.1.value.targetArchitecture == LogicalArchitecture)
    ensures thing.kind == ElementDefinition ==> (r.1.None? <==> IsMappedToComponent(rows, thing.iid, PhysicalComponent))
  {
    if thing.kind == ElementDefinition then
      var lookup := TryGetComponent(rows, thing, PhysicalComponent, byName, reg, newId, false);
      match lookup.target
      case None => (lookup.reg, None)
      case Some(component) =>
        var row := NewRow(ElementDefinitionRow, Some(thing), Some(component), FromHubToDst)
          .(targetArchitecture := ArchitectureFor(component));
        (lookup.reg, Some(WithCreation(row, lookup.shouldCreate)))
    else if thing.kind == Requirement then
      var found := TryGetRequirement(rows, thing, byName, reg, newId, created);
      match found.lookup.target
      case None => (found.lookup.reg, None)
      case Some(requirement) =>
        var row := NewRow(HubRequirementRow, Some(thing), Some(requirement), FromHubToDst);
        (found.lookup.reg, Some(WithCreation(row, found.lookup.shouldCreate)))
    else (reg, None)
  }

  /** Records on a row whether it creates its target, and the status that
      goes with it. */
  function WithCreation(row: MappedRow, create: bool): (r: MappedRow)
    ensures r == row.(shouldCreate := create, status := r.status)
    ensures r.status == NewElement <==> create
    ensures r.status == ExistingElement <==> !create
  {
    row.(shouldCreate := create, status := if create then NewElement else ExistingElement)
  }
}
