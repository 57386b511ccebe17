/** `DstToHubMappingConfigurationDialogViewModel`: the dialog that maps
    selected Capella components and requirements to Hub element definitions
    and requirements specifications. The random identifiers it gives new
    Hub things come from `uuid`, drawn at the number of rows present when
    the thing is made. The container chain of a requirement
    (`eContainer()` upwards) is `containers`. */
module DstToHubDialog {
  import opened Wrappers
  import opened Sequences
  import opened Capella
  import opened Hub
  import opened Rows
  import opened ShortNames
  import opened Stereotypes
  import opened Dialogs

  /** Some row maps the Capella element with this id. */
  predicate IsDstMapped(rows: seq<MappedRow>, id: string) {
    exists i | 0 <= i < |rows| :: rows[i].dst.Some? && rows[i].dst.value.id == id
  }

  /** No two rows map Capella elements with the same id. */
  predicate DstIdsUnique(rows: seq<MappedRow>) {
    forall i, j ::
      0 <= i < |rows| && 0 <= j < |rows| && rows[i].dst.Some? && rows[j].dst.Some? && rows[i].dst.value.id == rows[j].dst.value.id
      ==> i == j
  }

  /** The row kind a Capella element is shown in: components in element
      definition rows, requirements in Capella requirement rows. Anything
      else fails the cast to `Requirement`, which is nothing here. */
  function RowKindOf(element: Element): (k: Option<RowKind>)
    ensures k == Some(ElementDefinitionRow) <==> IsComponent(element.cls)
    ensures k == Some(DstRequirementRow) <==> IsRequirement(element.cls)
    ensures k.None? <==> !IsComponent(element.cls) && !IsRequirement(element.cls)
  {
    if IsComponent(element.cls) then Some(ElementDefinitionRow)
    else if IsRequirement(element.cls) then Some(DstRequirementRow)
    else None
  }

  /** `UpdateMappedElements`: the row of the element picked in the Capella
      browser is selected; when no row maps an element with its id, a new
      row is added for it first. Nothing, when a new row would be needed for
      an element that is neither a component nor a requirement: the cast
      to `Requirement` throws before the dialog changes. */
  function UpdateMappedElements(d: Dialog, element: Element): (r: Option<Dialog>)
    ensures r.None? <==> !IsDstMapped(d.rows, element.id) && RowKindOf(element).None?
    ensures r.Some? ==> ValidDialog(r.value) && r.value.selected.Some?
    ensures r.Some? ==> var row := r.value.rows[r.value.selected.value];
      row.dst.Some? && row.dst.value.id == element.id && row.isSelected
    ensures r.Some? && IsDstMapped(d.rows, element.id) ==>
      && |r.value.rows| == |d.rows|
      && forall j :: 0 <= j < r.value.selected.value ==> !(d.rows[j].dst.Some? && d.rows[j].dst.value.id == element.id)
    ensures r.Some? && !IsDstMapped(d.rows, element.id) ==>
      && r.value.rows == d.rows + [NewRow(RowKindOf(element).value, None, Some(element), FromDstToHub).(isSelected := true)]
      && r.value.selected == Some(|d.rows|)
    ensures r.Some? ==> forall j :: 0 <= j < |d.rows| && j != r.value.selected.value ==> r.value.rows[j] == d.rows[j]
    ensures r.Some? ==> (r.value.checkboxEnabled <==> r.value.rows[r.value.selected.value].status != ExistingMapping)
  {
    match FirstIndex(d.rows, (x: MappedRow) => x.dst.Some? && x.dst.value.id == element.id)
    case Some(i) =>
      Some(SetSelectedMappedElement(d, i))
    case None =>
      assert !IsDstMapped(d.rows, element.id);
      match RowKindOf(element)
      case None => None
      case Some(kind) =>
        var row := NewRow(kind, None, Some(element), FromDstToHub);
        Some(SetSelectedMappedElement(d.(rows := d.rows + [row]), |d.rows|))
  }

  /** Picking elements never makes two rows for one Capella element, and
      picking the same element again adds nothing. */
  lemma UpdateMappedElementsKeepsIdsUnique(d: Dialog, element: Element)
    requires DstIdsUnique(d.rows)
    ensures var r := UpdateMappedElements(d, element);
      r.Some? ==>
        && DstIdsUnique(r.value.rows)
        && UpdateMappedElements(r.value, element).Some?
        && |UpdateMappedElements(r.value, element).value.rows| == |r.value.rows|
  {
    var o := UpdateMappedElements(d, element);
    if o.None? {
      return;
    }
    var r := o.value;
    if !IsDstMapped(d.rows, element.id) {
      forall i | 0 <= i < |d.rows| && r.rows[i].dst.Some?
        ensures r.rows[i].dst.value.id != element.id
      {
        assert r.rows[i] == d.rows[i];
      }
    } else {
      forall i | 0 <= i < |r.rows|
        ensures r.rows[i].dst == d.rows[i].dst
      {
      }
    }
    var row := r.rows[r.selected.value];
    assert IsDstMapped(r.rows, element.id) by {
      assert row.dst.Some? && row.dst.value.id == element.id;
    }
  }

  /** The row `GetMappedElementRowViewModel` builds from a lookup: it
      creates a new Hub thing exactly when the lookup said so, and its status
      is then `NewElement`, otherwise `ExistingElement`. */
  function PreMappedRow(rowKind: RowKind, hub: Thing, element: Element, create: bool): (r: MappedRow)
    ensures r.rowKind == rowKind && r.hub == Some(hub) && r.dst == Some(element)
    ensures r.direction == FromDstToHub && !r.isSelected
    ensures r.shouldCreate == create
    ensures r.status == NewElement <==> create
    ensures r.status == ExistingElement <==> !create
  {
    NewRow(rowKind, Some(hub), Some(element), FromDstToHub).(shouldCreate := create, status := if create then NewElement else ExistingElement)
  }

  /** `TryGetElementDefinition`: a component some row already maps gets
      nothing; otherwise the first element definition of the iteration with
      the component's name, or, when there is none, a new element definition
      with the component's name and short name, flagged for creation. */
  function TryGetElementDefinition(rows: seq<MappedRow>, component: Element, iteration: Iteration, newIid: string): (r: Option<(Thing, bool)>)
    ensures r.None? <==> IsDstMapped(rows, component.id)
    ensures r.Some? && !r.value.1 ==>
      exists k :: 0 <= k < |iteration.elements| && iteration.elements[k] == r.value.0
        && r.value.0.name == component.name
        && forall j :: 0 <= j < k ==> iteration.elements[j].name != component.name
    ensures r.Some? && r.value.1 ==>
      && r.value.0 == Thing(newIid, ElementDefinition, component.name, GetShortName(component.name))
      && forall j :: 0 <= j < |iteration.elements| ==> iteration.elements[j].name != component.name
  {
    if IsDstMapped(rows, component.id) then None
    else
      match FirstIndex(iteration.elements, (x: Thing) => x.name == component.name)
      case Some(k) => Some((iteration.elements[k], false))
      case None => Some((Thing(newIid, ElementDefinition, component.name, GetShortName(component.name)), true))
  }

  /** The specification holds a requirement with this name. */
  predicate HoldsRequirementNamed(s: Specification, name: string) {
    exists j | 0 <= j < |s.requirements| :: s.requirements[j].name == name
  }

  /** The row maps this Capella requirement to this specification. */
  predicate Matches(row: MappedRow, iid: string, id: string) {
    row.hub.Some? && row.hub.value.iid == iid && row.dst.Some? && row.dst.value.id == id
  }

  /** Some row already maps this Capella requirement to this specification. */
  predicate IsMappedTo(rows: seq<MappedRow>, iid: string, id: string) {
    exists i | 0 <= i < |rows| :: Matches(rows[i], iid, id)
  }

  /** The specification a requirement goes to, shared by the code as
      written and the corrected lookup, reading past rows that lack a Hub
      or Capella element: the specification holding a Hub requirement of
      the same name (nothing when a row already maps the requirement to
      it); failing that, a specification named like the
      requirement's package when `byParentName` and one exists; failing that,
      a new specification named after the package, or
      "new RequirementsSpecification" when there is none. The last two are
      flagged for creation. */
  function SpecificationFor(rows: seq<MappedRow>, requirement: Element, containers: seq<Element>,
                            iteration: Iteration, newIid: string, byParentName: bool): (r: Option<(Thing, bool)>)
    ensures var found := First(iteration.specifications, (s: Specification) => HoldsRequirementNamed(s, requirement.name));
      && (found.Some? ==> (r.None? <==> IsMappedTo(rows, found.value.thing.iid, requirement.id)))
      && (found.Some? && r.Some? ==> r.value == (found.value.thing, false))
      && (found.None? ==> r.Some? && r.value.1)
  {
    match First(iteration.specifications, (s: Specification) => HoldsRequirementNamed(s, requirement.name))
    case Some(spec) =>
      if IsMappedTo(rows, spec.thing.iid, requirement.id) then None else Some((spec.thing, false))
    case None =>
      var parent := SpecificationParent(containers);
      var reused :=
        if parent.Some? && byParentName then First(iteration.specifications, (s: Specification) => s.thing.name == parent.value.name)
        else None;
      if reused.Some? then Some((reused.value.thing, true))
      else
        var name := if parent.Some? then parent.value.name else "new RequirementsSpecification";
        Some((Thing(newIid, RequirementsSpecification, name, GetShortName(name)), true))
  }

  /** How a computation as written ends: with its result; never, when the
      search for a requirement's package loops; or with a
      NullPointerException, when a row lacking an element is read. */
  datatype Ending<T> = Ends(result: T) | Hangs | Throws

  /** Reading `row` in the lookup's `anyMatch` throws: it has no Hub
      element, or its Hub element has the iid and it has no Capella
      element. */
  predicate ReadFails(row: MappedRow, iid: string) {
    row.hub.None? || (row.hub.value.iid == iid && row.dst.None?)
  }

  /** The `anyMatch` of `TryGetRequirementSpecification` as written: the
      rows are read in order, each row's Hub element's iid and, when that
      is the specification's, the row's Capella element's identifier, with
      no null test. It throws exactly when a row whose reading fails comes
      before any row that maps the requirement to the specification. */
  function {:induction false} MappedToAsWritten(rows: seq<MappedRow>, iid: string, id: string): (r: Ending<bool>)
    ensures !r.Hangs?
    ensures r.Ends? ==> (r.result <==> IsMappedTo(rows, iid, id))
    ensures r.Throws? <==> exists i :: 0 <= i < |rows| && ReadFails(rows[i], iid) && !IsMappedTo(rows[..i], iid, id)
    decreases |rows|
  {
    if rows == [] then Ends(false)
    else
      var rest := MappedToAsWritten(rows[1..], iid, id);
      assert forall i :: 1 <= i <= |rows| ==> rows[..i] == [rows[0]] + rows[1..][..i - 1];
      assert forall i :: 1 <= i < |rows| ==> rows[i] == rows[1..][i - 1];
      assert rows[..0] == [];
      if ReadFails(rows[0], iid) then Throws
      else if Matches(rows[0], iid, id) then Ends(true)
      else rest
  }

  /** Rows added behind, each with a Hub and a Capella element, do not
      change whether the `anyMatch` as written throws. */
  lemma {:induction false} MappedToAsWrittenExtended(rows: seq<MappedRow>, added: seq<MappedRow>, iid: string, id: string)
    requires forall i :: 0 <= i < |added| ==> added[i].hub.Some? && added[i].dst.Some?
    ensures MappedToAsWritten(rows + added, iid, id).Throws? == MappedToAsWritten(rows, iid, id).Throws?
  {
    var all := rows + added;
    if MappedToAsWritten(all, iid, id).Throws? {
      var i :| 0 <= i < |all| && ReadFails(all[i], iid) && !IsMappedTo(all[..i], iid, id);
      assert i < |rows| && all[..i] == rows[..i];
    }
    if MappedToAsWritten(rows, iid, id).Throws? {
      var i :| 0 <= i < |rows| && ReadFails(rows[i], iid) && !IsMappedTo(rows[..i], iid, id);
      assert all[i] == rows[i] && all[..i] == rows[..i];
    }
  }

  /** How the specification lookup as written ends. */
  type SpecificationLookup = Ending<Option<(Thing, bool)>>

  /** `TryGetRequirementSpecification` as written. With a specification
      holding a requirement of the same name, the rows are searched for one
      mapping the requirement to it by the `anyMatch` as written, which
      throws on a row lacking the element it reads. Without one, it asks
      `TryGetPossibleRequirementsSpecificationElement` for the requirement's
      package, which never returns when the requirement's direct container
      is not a requirement package. When it returns, the lookup of a
      specification named like the package compares the reference object
      holding the package with a name, which never matches, so a new
      specification is always made, named after the package when there is
      one. */
  function TryGetRequirementSpecificationAsWritten(rows: seq<MappedRow>, requirement: Element, containers: seq<Element>,
                                                   iteration: Iteration, newIid: string): (r: SpecificationLookup)
    ensures var found := First(iteration.specifications, (s: Specification) => HoldsRequirementNamed(s, requirement.name));
      found.Some? ==>
        && !r.Hangs?
        && (r.Throws? <==> MappedToAsWritten(rows, found.value.thing.iid, requirement.id).Throws?)
        && (r.Ends? ==> (r.result.None? <==> IsMappedTo(rows, found.value.thing.iid, requirement.id)))
        && (r.Ends? && r.result.Some? ==> r.result.value == (found.value.thing, false))
    ensures r.Hangs? <==>
      !Any(iteration.specifications, (s: Specification) => HoldsRequirementNamed(s, requirement.name))
      && PossibleSpecificationParent(containers).Diverges?
    ensures !Any(iteration.specifications, (s: Specification) => HoldsRequirementNamed(s, requirement.name)) && !r.Hangs? ==>
      && r.Ends? && r.result.Some? && r.result.value.1
      && r.result.value.0.iid == newIid && r.result.value.0.kind == RequirementsSpecification
      && r.result.value.0.name == (if PossibleSpecificationParent(containers).Found? then PossibleSpecificationParent(containers).pkg.name
                                   else "new RequirementsSpecification")
      && r.result.value.0.shortName == GetShortName(r.result.value.0.name)
  {
    match First(iteration.specifications, (s: Specification) => HoldsRequirementNamed(s, requirement.name))
    case Some(spec) =>
      var mapped := MappedToAsWritten(rows, spec.thing.iid, requirement.id);
      if mapped.Throws? then Throws
      else Ends(if mapped.result then None else Some((spec.thing, false)))
    case None =>
      if PossibleSpecificationParent(containers).Diverges? then Hangs
      else Ends(SpecificationFor(rows, requirement, containers, iteration, newIid, false))
  }

  /** `TryGetRequirementSpecification` as meant: the search for the package
      stops, and without a specification holding a requirement of the same
      name an existing specification named like the requirement's package
      is reused (still flagged for creation, as the code does); only
      otherwise is a new one made. Wherever the code as written ends
      without reaching that lookup, the result is the same. */
  function TryGetRequirementSpecification(rows: seq<MappedRow>, requirement: Element, containers: seq<Element>,
                                          iteration: Iteration, newIid: string): (r: Option<(Thing, bool)>)
    ensures var parent := SpecificationParent(containers);
      !Any(iteration.specifications, (s: Specification) => HoldsRequirementNamed(s, requirement.name))
      && parent.Some? && Any(iteration.specifications, (s: Specification) => s.thing.name == parent.value.name) ==>
      && r.Some? && r.value.1
      && r.value.0.name == parent.value.name
      && exists k :: 0 <= k < |iteration.specifications| && iteration.specifications[k].thing == r.value.0
    ensures var parent := SpecificationParent(containers);
      var w := TryGetRequirementSpecificationAsWritten(rows, requirement, containers, iteration, newIid);
      w.Ends? && !(parent.Some? && Any(iteration.specifications, (s: Specification) => s.thing.name == parent.value.name)) ==>
      r == w.result
    ensures var found := First(iteration.specifications, (s: Specification) => HoldsRequirementNamed(s, requirement.name));
      found.Some? ==>
        && (r.None? <==> IsMappedTo(rows, found.value.thing.iid, requirement.id))
        && (r.Some? ==> r.value == (found.value.thing, false))
    ensures var w := TryGetRequirementSpecificationAsWritten(rows, requirement, containers, iteration, newIid);
      Any(iteration.specifications, (s: Specification) => HoldsRequirementNamed(s, requirement.name)) && w.Ends? ==> r == w.result
    ensures TryGetRequirementSpecificationAsWritten(rows, requirement, containers, iteration, newIid).Hangs? ==>
      r == Some((Thing(newIid, RequirementsSpecification, "new RequirementsSpecification", GetShortName("new RequirementsSpecification")), true))
  {
    var r := SpecificationFor(rows, requirement, containers, iteration, newIid, true);
    var w := TryGetRequirementSpecificationAsWritten(rows, requirement, containers, iteration, newIid);
    assert w.Ends? && Any(iteration.specifications, (s: Specification) => HoldsRequirementNamed(s, requirement.name)) ==>
      w.result == r;
    r
  }

  /** A requirement whose package has a specification of the same name in
      the Hub: the code as written makes a second specification with that
      name, the corrected lookup reuses the existing one. */
  lemma ParentSpecificationIgnored(pkg: Element, other: Element, requirement: Element, spec: Thing, newIid: string)
    requires pkg.cls == RequirementsPkg && other.cls != RequirementsPkg
    requires spec.name == pkg.name && spec.iid != newIid
    ensures var iteration := Iteration([], [Specification(spec, [])]);
      var w := TryGetRequirementSpecificationAsWritten([], requirement, [pkg, other], iteration, newIid);
      && w.Ends? && w.result.Some? && w.result.value.0.iid == newIid
      && TryGetRequirementSpecification([], requirement, [pkg, other], iteration, newIid).value.0 == spec
  {
    var iteration := Iteration([], [Specification(spec, [])]);
    assert PackageRun([pkg, other]) == 1 by {
      assert [pkg, other][1..] == [other];
    }
    assert !HoldsRequirementNamed(iteration.specifications[0], requirement.name);
    assert !Any(iteration.specifications, (s: Specification) => HoldsRequirementNamed(s, requirement.name));
    assert iteration.specifications[0].thing.name == SpecificationParent([pkg, other]).value.name;
  }

  /** A requirement held directly by something other than a requirement
      package, with no specification holding a requirement of its name:
      the code as written never returns, the corrected lookup makes a new
      specification under the default name. */
  lemma LooseRequirementHangs(container: Element, above: seq<Element>, requirement: Element, newIid: string)
    requires container.cls != RequirementsPkg
    ensures var iteration := Iteration([], []);
      && TryGetRequirementSpecificationAsWritten([], requirement, [container] + above, iteration, newIid).Hangs?
      && TryGetRequirementSpecification([], requirement, [container] + above, iteration, newIid).value.0.name == "new RequirementsSpecification"
  {
  }

  /** `GetMappedElementRowViewModel` with the corrected specification
      lookup: a component is looked up as an element definition, a
      requirement as a requirements specification; anything else, or a
      failed lookup, gives no row. `GetMappedElementRowAsWritten` below is
      the code as written. */
  function GetMappedElementRow(rows: seq<MappedRow>, element: Element, containers: seq<Element>,
                               iteration: Iteration, newIid: string): (r: Option<MappedRow>)
    ensures r.Some? ==> IsComponent(element.cls) || IsRequirement(element.cls)
    ensures r.Some? ==> r.value.hub.Some? && r.value.dst == Some(element) && r.value.direction == FromDstToHub
    ensures r.Some? ==> (r.value.status == NewElement <==> r.value.shouldCreate)
    ensures r.Some? ==> (r.value.status == ExistingElement <==> !r.value.shouldCreate)
    ensures IsComponent(element.cls) ==> (r.None? <==> IsDstMapped(rows, element.id))
    ensures IsComponent(element.cls) && r.Some? ==> r.value.rowKind == ElementDefinitionRow
  {
    if IsComponent(element.cls) then
      match TryGetElementDefinition(rows, element, iteration, newIid)
      case None => None
      case Some((thing, create)) => Some(PreMappedRow(ElementDefinitionRow, thing, element, create))
    else if IsRequirement(element.cls) then
      match TryGetRequirementSpecification(rows, element, containers, iteration, newIid)
      case None => None
      case Some((thing, create)) => Some(PreMappedRow(DstRequirementRow, thing, element, create))
    else None
  }

  /** The specification lookup as written never returns for this element:
      a requirement no specification holds by name, whose direct container
      is not a requirement package. */
  predicate LookupHangs(element: Element, containers: seq<Element>, iteration: Iteration) {
    && IsRequirement(element.cls)
    && !Any(iteration.specifications, (s: Specification) => HoldsRequirementNamed(s, element.name))
    && PossibleSpecificationParent(containers).Diverges?
  }

  /** The specification lookup as written throws for this element: a
      requirement some specification holds by name, whose `anyMatch` over
      the rows reads a row lacking an element before any row mapping the
      requirement to that specification. */
  predicate LookupThrows(rows: seq<MappedRow>, element: Element, iteration: Iteration) {
    && IsRequirement(element.cls)
    && var found := First(iteration.specifications, (s: Specification) => HoldsRequirementNamed(s, element.name));
       found.Some? && MappedToAsWritten(rows, found.value.thing.iid, element.id).Throws?
  }

  /** The corrected lookup reuses the specification named like the
      requirement's package, where the code as written makes a new one. */
  predicate ReusesParentSpecification(element: Element, containers: seq<Element>, iteration: Iteration) {
    && IsRequirement(element.cls)
    && !Any(iteration.specifications, (s: Specification) => HoldsRequirementNamed(s, element.name))
    && SpecificationParent(containers).Some?
    && Any(iteration.specifications, (s: Specification) => s.thing.name == SpecificationParent(containers).value.name)
  }

  /** `GetMappedElementRowViewModel` as written, calling the specification
      lookup as written: it never returns exactly where that lookup hangs,
      throws exactly where it throws, and otherwise gives the row the
      corrected member gives, except where the corrected lookup reuses the
      package's specification. */
  function GetMappedElementRowAsWritten(rows: seq<MappedRow>, element: Element, containers: seq<Element>,
                                        iteration: Iteration, newIid: string): (r: Ending<Option<MappedRow>>)
    ensures r.Hangs? <==> LookupHangs(element, containers, iteration)
    ensures r.Throws? <==> LookupThrows(rows, element, iteration)
    ensures r.Ends? && r.result.Some? ==> IsComponent(element.cls) || IsRequirement(element.cls)
    ensures r.Ends? && r.result.Some? ==>
      && r.result.value.hub.Some? && r.result.value.dst == Some(element) && r.result.value.direction == FromDstToHub
      && (r.result.value.status == NewElement <==> r.result.value.shouldCreate)
    ensures r.Ends? && !ReusesParentSpecification(element, containers, iteration) ==>
      r.result == GetMappedElementRow(rows, element, containers, iteration, newIid)
    ensures ReusesParentSpecification(element, containers, iteration) ==>
      && r.Ends? && r.result.Some? && r.result.value.shouldCreate
      && r.result.value.hub.Some? && r.result.value.hub.value.iid == newIid
  {
    if IsComponent(element.cls) then
      Ends(GetMappedElementRow(rows, element, containers, iteration, newIid))
    else if IsRequirement(element.cls) then
      match TryGetRequirementSpecificationAsWritten(rows, element, containers, iteration, newIid)
      case Hangs => Hangs
      case Throws => Throws
      case Ends(None) => Ends(None)
      case Ends(Some((thing, create))) => Ends(Some(PreMappedRow(DstRequirementRow, thing, element, create)))
    else Ends(None)
  }

  /** The number of Capella elements in a selection that are not packages,
      looking inside packages. */
  function MappableCount(selected: seq<Element>): nat
    decreases selected
  {
    if |selected| == 0 then 0
    else
      var e := selected[0];
      (if IsStructure(e.cls) then MappableCount(e.contents) else if IsCapellaElement(e.cls) then 1 else 0)
      + MappableCount(selected[1..])
  }

  /** Every component row maps a component no earlier row maps. */
  predicate ComponentRowsFresh(rows: seq<MappedRow>) {
    forall i, j ::
      0 <= j < i < |rows| && rows[i].dst.Some? && IsComponent(rows[i].dst.value.cls) && rows[j].dst.Some?
      ==> rows[j].dst.value.id != rows[i].dst.value.id
  }

  /** The rows `PreMap` adds: mapped from the Capella side, with a status
      that says whether they create their Hub thing. */
  predicate PreMappedRows(rows: seq<MappedRow>, from: nat) {
    forall i :: from <= i < |rows| ==>
      && rows[i].hub.Some? && rows[i].dst.Some? && rows[i].direction == FromDstToHub
      && (rows[i].status == NewElement <==> rows[i].shouldCreate)
  }

  /** `after` keeps the rows of `before` in front, the rows it adds are
      pre-mapped, and no component gets a second row. */
  predicate Extends(before: seq<MappedRow>, after: seq<MappedRow>) {
    && |before| <= |after| && after[..|before|] == before
    && PreMappedRows(after, |before|)
    && (ComponentRowsFresh(before) ==> ComponentRowsFresh(after))
  }

  lemma ExtendsTransitive(a: seq<MappedRow>, b: seq<MappedRow>, c: seq<MappedRow>)
    requires Extends(a, b) && Extends(b, c)
    ensures Extends(a, c)
  {
    assert c[..|b|][..|a|] == c[..|a|];
    forall i | |a| <= i < |c|
      ensures c[i].hub.Some? && c[i].dst.Some? && c[i].direction == FromDstToHub && (c[i].status == NewElement <==> c[i].shouldCreate)
    {
      if i < |b| {
        assert c[i] == b[i];
      }
    }
  }

  /** The row `GetMappedElementRowViewModel` gives for one Capella element
      that is not a package, added to the rows when there is one, with the
      corrected specification lookup. */
  function PreMapElement(rows: seq<MappedRow>, e: Element, containers: seq<Element>,
                         iteration: Iteration, newIid: string): (r: seq<MappedRow>)
    ensures Extends(rows, r) && |r| <= |rows| + 1
    ensures IsComponent(e.cls) ==> (|r| == |rows| <==> IsDstMapped(rows, e.id))
  {
    match GetMappedElementRow(rows, e, containers, iteration, newIid)
    case None => rows
    case Some(row) =>
      ExtendsByOne(rows, row);
      rows + [row]
  }

  /** One pre-mapped row added behind extends the rows, provided it is not
      a component some row already maps. */
  lemma ExtendsByOne(rows: seq<MappedRow>, row: MappedRow)
    requires row.hub.Some? && row.dst.Some? && row.direction == FromDstToHub
    requires row.status == NewElement <==> row.shouldCreate
    requires IsComponent(row.dst.value.cls) ==> !IsDstMapped(rows, row.dst.value.id)
    ensures Extends(rows, rows + [row])
  {
    var r := rows + [row];
    assert r[..|rows|] == rows;
    assert r[|rows|] == row;
    if ComponentRowsFresh(rows) {
      forall i, j | 0 <= j < i < |r| && r[i].dst.Some? && IsComponent(r[i].dst.value.cls) && r[j].dst.Some?
        ensures r[j].dst.value.id != r[i].dst.value.id
      {
        if i == |rows| {
          assert r[j] == rows[j];
        } else {
          assert r[i] == rows[i] && r[j] == rows[j];
        }
      }
    }
  }

  /** `PreMap` with the corrected specification lookup: walks the
      selection, looking inside packages, and adds the row
      `GetMappedElementRowViewModel` gives for each other Capella element.
      The rows present are kept, at most one row is added per element, and
      no component gets a second row. */
  function PreMap(rows: seq<MappedRow>, selected: seq<Element>, containers: Element -> seq<Element>,
                  iteration: Iteration, uuid: nat -> string): (r: seq<MappedRow>)
    ensures |rows| <= |r| <= |rows| + MappableCount(selected)
    ensures r[..|rows|] == rows
    ensures PreMappedRows(r, |rows|)
    ensures ComponentRowsFresh(rows) ==> ComponentRowsFresh(r)
    decreases selected
  {
    if |selected| == 0 then
      assert rows[..|rows|] == rows;
      rows
    else
      var e := selected[0];
      var rows1 :=
        if IsStructure(e.cls) then PreMap(rows, e.contents, containers, iteration, uuid)
        else if IsCapellaElement(e.cls) then PreMapElement(rows, e, containers(e), iteration, uuid(|rows|))
        else
          assert rows[..|rows|] == rows;
          rows;
      assert Extends(rows, rows1);
      var r := PreMap(rows1, selected[1..], containers, iteration, uuid);
      ExtendsTransitive(rows, rows1, r);
      r
  }

  /** Some element `PreMap` reaches in the selection, looking inside
      packages, makes the lookup as written hang or, reading `rows`, throw;
      or, with `reuseToo`, is one for which the corrected lookup reuses the
      package's specification. */
  predicate SomeAffected(selected: seq<Element>, containers: Element -> seq<Element>, iteration: Iteration,
                         rows: seq<MappedRow>, reuseToo: bool)
    decreases selected
  {
    if |selected| == 0 then false
    else
      var e := selected[0];
      || (if IsStructure(e.cls) then SomeAffected(e.contents, containers, iteration, rows, reuseToo)
          else IsCapellaElement(e.cls)
               && (LookupHangs(e, containers(e), iteration) || LookupThrows(rows, e, iteration)
                   || (reuseToo && ReusesParentSpecification(e, containers(e), iteration))))
      || SomeAffected(selected[1..], containers, iteration, rows, reuseToo)
  }

  /** The rows `PreMap` adds behind do not change whether the lookup as
      written throws: each has a Hub and a Capella element. */
  lemma LookupThrowsKept(before: seq<MappedRow>, after: seq<MappedRow>, e: Element, iteration: Iteration)
    requires Extends(before, after)
    ensures LookupThrows(after, e, iteration) == LookupThrows(before, e, iteration)
  {
    var found := First(iteration.specifications, (s: Specification) => HoldsRequirementNamed(s, e.name));
    if found.Some? {
      var added := after[|before|..];
      assert after == before + added;
      MappedToAsWrittenExtended(before, added, found.value.thing.iid, e.id);
    }
  }

  /** Nor, then, whether some element of a selection is affected. */
  lemma SomeAffectedKept(selected: seq<Element>, containers: Element -> seq<Element>, iteration: Iteration,
                         before: seq<MappedRow>, after: seq<MappedRow>, reuseToo: bool)
    requires Extends(before, after)
    ensures SomeAffected(selected, containers, iteration, after, reuseToo) == SomeAffected(selected, containers, iteration, before, reuseToo)
    decreases selected
  {
    if |selected| > 0 {
      var e := selected[0];
      if IsStructure(e.cls) {
        SomeAffectedKept(e.contents, containers, iteration, before, after, reuseToo);
      } else {
        LookupThrowsKept(before, after, e, iteration);
      }
      SomeAffectedKept(selected[1..], containers, iteration, before, after, reuseToo);
    }
  }

  /** `PreMapElement` with the lookup as written: it never returns exactly
      where that lookup hangs, and throws exactly where it throws. */
  function PreMapElementAsWritten(rows: seq<MappedRow>, e: Element, containers: seq<Element>,
                                  iteration: Iteration, newIid: string): (r: Ending<seq<MappedRow>>)
    ensures r.Hangs? <==> LookupHangs(e, containers, iteration)
    ensures r.Throws? <==> LookupThrows(rows, e, iteration)
    ensures r.Ends? ==> Extends(rows, r.result) && |r.result| <= |rows| + 1
    ensures IsComponent(e.cls) ==> r.Ends? && (|r.result| == |rows| <==> IsDstMapped(rows, e.id))
    ensures r.Ends? && !ReusesParentSpecification(e, containers, iteration) ==>
      r.result == PreMapElement(rows, e, containers, iteration, newIid)
  {
    match GetMappedElementRowAsWritten(rows, e, containers, iteration, newIid)
    case Hangs => Hangs
    case Throws => Throws
    case Ends(None) =>
      assert rows[..|rows|] == rows;
      Ends(rows)
    case Ends(Some(row)) =>
      ExtendsByOne(rows, row);
      Ends(rows + [row])
  }

  /** `PreMap` as written: it does not return exactly when it reaches an
      element whose specification lookup as written hangs or throws. When
      it returns, it keeps the rows present in front, adds at most one
      pre-mapped row per element, gives no component a second row, and
      agrees with the corrected `PreMap` unless it reached an element for
      which the corrected lookup reuses the package's specification. */
  function PreMapAsWritten(rows: seq<MappedRow>, selected: seq<Element>, containers: Element -> seq<Element>,
                           iteration: Iteration, uuid: nat -> string): (r: Ending<seq<MappedRow>>)
    ensures !r.Ends? <==> SomeAffected(selected, containers, iteration, rows, false)
    ensures r.Ends? ==>
      && |rows| <= |r.result| <= |rows| + MappableCount(selected)
      && Extends(rows, r.result)
    ensures !SomeAffected(selected, containers, iteration, rows, true) ==>
      r == Ends(PreMap(rows, selected, containers, iteration, uuid))
    decreases selected
  {
    if |selected| == 0 then
      assert rows[..|rows|] == rows;
      Ends(rows)
    else
      var e := selected[0];
      var first :=
        if IsStructure(e.cls) then PreMapAsWritten(rows, e.contents, containers, iteration, uuid)
        else if IsCapellaElement(e.cls) then PreMapElementAsWritten(rows, e, containers(e), iteration, uuid(|rows|))
        else
          assert rows[..|rows|] == rows;
          Ends(rows);
      match first
      case Hangs => Hangs
      case Throws => Throws
      case Ends(rows1) =>
        SomeAffectedKept(selected[1..], containers, iteration, rows, rows1, false);
        SomeAffectedKept(selected[1..], containers, iteration, rows, rows1, true);
        match PreMapAsWritten(rows1, selected[1..], containers, iteration, uuid)
        case Hangs => Hangs
        case Throws => Throws
        case Ends(r) =>
          ExtendsTransitive(rows, rows1, r);
          Ends(r)
  }
}
