/** `RequirementsSpecificationToRequirementMappingRule`: the Hub-to-Capella
    rule for requirements. Each Hub requirement gets a Capella requirement
    (found by name in the target architecture and cloned, or created with
    the class its categories name), whose identifier, name and description
    are copied from the Hub; then the chain of Hub groups above it is
    rebuilt as nested requirement packages under a package standing for the
    specification. The open Capella sessions, the EMF factory and the fresh
    identifiers it hands out are parameters. */
module SpecificationToRequirement {
  import opened Wrappers
  import opened Sequences
  import opened Text
  import opened Capella
  import opened Hub
  import opened ShortNames
  import opened Transactions
  import Enumerations
  import RequirementToSpecification

  // Description, identifier and name

  /** `UpdateOrCreateDefinition`: the content of the first definition whose
      language code is "en" ignoring case, else of the first definition, and
      the empty text when there is none. */
  function Description(definitions: seq<DefinitionThing>): (r: string)
    ensures definitions == [] ==> r == ""
    ensures RequirementToSpecification.FirstEnglish(definitions, 0).Some? ==>
      r == definitions[RequirementToSpecification.FirstEnglish(definitions, 0).value].content
    ensures definitions != [] && RequirementToSpecification.FirstEnglish(definitions, 0).None? ==> r == definitions[0].content
    ensures definitions != [] ==> exists i :: 0 <= i < |definitions| && r == definitions[i].content
  {
    if definitions == [] then ""
    else match RequirementToSpecification.FirstEnglish(definitions, 0)
      case Some(e) => definitions[e].content
      case None => definitions[0].content
  }

  /** `UpdateProperties`: the Capella requirement takes the Hub requirement's
      short name as its identifier, its name, and its description; nothing
      else about it changes. */
  function UpdateProperties(hub: RequirementThing, dst: Element): (r: Element)
    ensures r.requirementId == hub.thing.shortName && r.name == hub.thing.name
    ensures r.description == Description(hub.definitions)
    ensures r.ref == dst.ref && r.id == dst.id && r.cls == dst.cls && r.root == dst.root
    ensures r.traces == dst.traces && r.contents == dst.contents
  {
    dst.(requirementId := hub.thing.shortName, name := hub.thing.name, description := Description(hub.definitions))
  }

  /** The Capella-to-Hub rule writes the description into the single English
      definition, so reading it back gives the same text, whatever the
      definitions were, provided their English ones already shared an iid. */
  lemma DescriptionRoundTrip(definitions: seq<DefinitionThing>, description: string, newIid: string)
    requires RequirementToSpecification.EnglishShareIid(definitions)
    ensures Description(RequirementToSpecification.UpdateOrCreateDefinition(definitions, description, newIid)) == description
  {
    var r := RequirementToSpecification.UpdateOrCreateDefinition(definitions, description, newIid);
    RequirementToSpecification.DefinitionUpdateIdempotent(definitions, description, newIid, newIid);
    RequirementToSpecification.FirstEnglishAfterNone(r, |r| - 1);
  }

  /** A Capella requirement new to its specification, carried to the Hub and
      back, keeps its name and description; its identifier becomes the short
      name of its name, which is what the Hub requirement got as short name. */
  lemma RequirementRoundTrip(spec: SpecificationContents, group: Option<GroupThing>, requirement: Element, isObsolete: bool,
                             ids: RequirementToSpecification.Fresh, ctx: RequirementToSpecification.CategoryContext, dst: Element)
    requires RequirementToSpecification.FindRequirement(spec.requirements, GetShortName(requirement.name), 0).None?
    ensures var hub := RequirementToSpecification.TryGetOrCreateRequirement(spec, group, requirement, isObsolete, ids, ctx).1;
      var back := UpdateProperties(hub, dst);
      && back.name == requirement.name
      && back.description == requirement.description
      && back.requirementId == GetShortName(requirement.name)
  {
    var base := RequirementToSpecification.RequirementBase(spec, group, requirement, ids);
    assert base.definitions == [];
    DescriptionRoundTrip(base.definitions, requirement.description, ids.definition);
  }

  // The requirement's class

  /** The names of a Hub requirement's categories, in order. */
  function CategoryNames(categories: seq<CategoryThing>): (r: seq<string>)
    ensures |r| == |categories| && forall i :: 0 <= i < |categories| ==> r[i] == categories[i].name
  {
    seq(|categories|, i requires 0 <= i < |categories| => categories[i].name)
  }

  /** `RequirementTypeFrom` recognises the name. */
  predicate Typed(name: string) {
    Enumerations.RequirementTypeFrom(name).Some?
  }

  /** The position of the first name from `k` on that `RequirementTypeFrom`
      recognises. */
  function FirstTypedName(names: seq<string>, k: nat): (r: Option<nat>)
    requires k <= |names|
    ensures r.Some? ==> k <= r.value < |names| && Typed(names[r.value])
    ensures r.Some? ==> forall j :: k <= j < r.value ==> !Typed(names[j])
    ensures r.None? <==> forall i :: k <= i < |names| ==> !Typed(names[i])
    decreases |names| - k
  {
    if k == |names| then None
    else if Typed(names[k]) then Some(k)
    else FirstTypedName(names, k + 1)
  }

  /** `TryGetRequirementClass`: the requirement type named by the first
      category whose name matches a type's label or class simple name,
      ignoring case. */
  function TryGetRequirementClass(names: seq<string>): (r: Option<Enumerations.RequirementType>)
    ensures r.None? <==> forall i :: 0 <= i < |names| ==> Enumerations.RequirementTypeFrom(names[i]).None?
    ensures r.Some? ==> exists i :: 0 <= i < |names| && Enumerations.RequirementTypeFrom(names[i]) == r
  {
    match FirstTypedName(names, 0)
    case None => None
    case Some(i) => Enumerations.RequirementTypeFrom(names[i])
  }

  /** The class `GetOrCreateRequirement` looks for and creates, given what
      `TryGetRequirementClass` found: the class of that type, that of `User`
      when it found none. A category named by the empty text names
      `Undefined`, which has no class. */
  function ClassToCreate(found: Option<Enumerations.RequirementType>): (r: Option<DstClass>)
    ensures found.None? ==> r == Some(SystemUserRequirement)
    ensures r.Some? ==> IsRequirement(r.value) && r.value != OtherRequirement
    ensures r.None? <==> found == Some(Enumerations.Undefined)
    ensures found.Some? ==> Enumerations.RequirementTypeOfClass(r) == found.value
  {
    match found
    case None => Some(SystemUserRequirement)
    case Some(t) => t.ClassType()
  }

  /** "Obsolete" is no requirement type's label or class simple name. */
  lemma ObsoleteNamesNoType(t: Enumerations.RequirementType)
    ensures !Enumerations.MatchesRequirement(RequirementToSpecification.ObsoleteCategoryName, t)
  {
  }

  /** The categories the Capella-to-Hub rule gives a requirement name its
      class back: each system requirement class reads back as itself, and
      the requirement classes outside the five system ones read back as the
      default, the user requirement. */
  lemma RequirementClassRoundTrip(cls: DstClass, isObsolete: bool)
    requires IsRequirement(cls)
    ensures var names := RequirementToSpecification.RequirementCategoryNames(cls, isObsolete);
      ClassToCreate(TryGetRequirementClass(names)) == Some(if cls == OtherRequirement then SystemUserRequirement else cls)
  {
    var names := RequirementToSpecification.RequirementCategoryNames(cls, isObsolete);
    var t := Enumerations.RequirementTypeOfClass(Some(cls));
    forall u: Enumerations.RequirementType
      ensures !Enumerations.MatchesRequirement(RequirementToSpecification.ObsoleteCategoryName, u)
    {
      ObsoleteNamesNoType(u);
    }
    if cls == OtherRequirement {
      assert forall i :: 0 <= i < |names| ==> names[i] == RequirementToSpecification.ObsoleteCategoryName;
    } else {
      Enumerations.RequirementTypeFromRoundTrip(t);
      assert names[0] == t.SimpleName().value;
      assert FirstTypedName(names, 0) == Some(0);
    }
  }

  // Looking Capella requirements and packages up

  /** What the rule asks of an element of the open sessions: a named element
      with the given name, ignoring case, in the target architecture. */
  predicate NamedIn(x: Element, name: string, architecture: Architecture) {
    IsNamedElement(x.cls) && EqualsIgnoreCase(x.name, name) && x.root == Some(architecture)
  }

  /** The position of the first element of `elements` from `k` on of class
      `cls` named `name` in the target architecture. */
  function FirstIn(elements: seq<Element>, cls: DstClass, name: string, architecture: Architecture, k: nat): (r: Option<nat>)
    requires k <= |elements|
    ensures r.Some? ==> k <= r.value < |elements| && elements[r.value].cls == cls && NamedIn(elements[r.value], name, architecture)
    ensures r.None? <==> forall i :: k <= i < |elements| ==> !(elements[i].cls == cls && NamedIn(elements[i], name, architecture))
    decreases |elements| - k
  {
    if k == |elements| then None
    else if elements[k].cls == cls && NamedIn(elements[k], name, architecture) then Some(k)
    else FirstIn(elements, cls, name, architecture, k + 1)
  }

  /** `TryGetElementBy` for the rule's question: the open sessions from the
      `k`-th on are searched in turn, and the first element of class `cls`
      named `name` in the target architecture, in the first session that has
      one, is returned. */
  function LookUp(sessions: seq<seq<Element>>, cls: DstClass, name: string, architecture: Architecture, k: nat): (r: Option<Element>)
    requires k <= |sessions|
    ensures r.Some? ==> r.value.cls == cls && NamedIn(r.value, name, architecture)
    ensures r.Some? ==> exists j :: k <= j < |sessions| && r.value in sessions[j]
    ensures r.None? <==> forall j, i :: k <= j < |sessions| && 0 <= i < |sessions[j]| ==>
      !(sessions[j][i].cls == cls && NamedIn(sessions[j][i], name, architecture))
    decreases |sessions| - k
  {
    if k == |sessions| then None
    else match FirstIn(sessions[k], cls, name, architecture, 0)
      case Some(i) => Some(sessions[k][i])
      case None => LookUp(sessions, cls, name, architecture, k + 1)
  }

  /** `GetOrCreateRequirement(hubRequirement, architecture, class)`: the first
      requirement of that class named like the Hub requirement in the target
      architecture, cloned, or else a new one of that class with the Hub
      requirement's name, meant for that architecture. `canCreate` is whether
      the EMF factory builds the class, `newId` the identifier it gives. */
  function GetOrCreateRequirement(reg: Registry, sessions: seq<seq<Element>>, hub: RequirementThing, architecture: Architecture,
                                  cls: DstClass, canCreate: bool, newId: string): (r: (Registry, Option<Element>))
    requires Valid(reg) && IsRequirement(cls)
    ensures Valid(r.0)
    ensures LookUp(sessions, cls, hub.thing.name, architecture, 0).Some? ==>
      r == Clone(reg, LookUp(sessions, cls, hub.thing.name, architecture, 0))
    ensures LookUp(sessions, cls, hub.thing.name, architecture, 0).Some? ==>
      r.1.Some? && r.1.value.id == LookUp(sessions, cls, hub.thing.name, architecture, 0).value.id && IsCloned(r.0, r.1.value)
    ensures LookUp(sessions, cls, hub.thing.name, architecture, 0).None? ==>
      && (r.1.Some? <==> canCreate)
      && (canCreate ==> r.1.value.cls == cls && r.1.value.name == hub.thing.name && r.1.value.id == newId && IsNew(r.0, r.1.value))
      && (canCreate ==> GetTargetArchitecture(r.0, r.1.value) == Some(GetTargetArchitecture(reg, r.1.value).GetOr(architecture)))
  {
    match LookUp(sessions, cls, hub.thing.name, architecture, 0)
    case Some(x) =>
      var c := Clone(reg, Some(x));
      assert IsCloned(c.0, c.1.value);
      c
    case None =>
      match CreateForArchitecture(reg, cls, canCreate, newId, hub.thing.name, architecture)
      case None => (reg, None)
      case Some((reg1, e)) => (reg1, Some(e))
  }

  /** A requirement found in the sessions is cloned once: asking again for
      the same Hub requirement returns the same clone and changes nothing,
      whatever the factory would do. */
  lemma ExistingRequirementClonedOnce(reg: Registry, sessions: seq<seq<Element>>, hub: RequirementThing, architecture: Architecture,
                                      cls: DstClass, canCreate: bool, newId: string, canCreate2: bool, newId2: string)
    requires Valid(reg) && IsRequirement(cls)
    requires LookUp(sessions, cls, hub.thing.name, architecture, 0).Some?
    ensures var r := GetOrCreateRequirement(reg, sessions, hub, architecture, cls, canCreate, newId);
      GetOrCreateRequirement(r.0, sessions, hub, architecture, cls, canCreate2, newId2) == r
  {
  }

  /** The position of the first temporary package from `k` on named `name`,
      ignoring case. */
  function FirstNamed(temporaries: seq<Element>, name: string, k: nat): (r: Option<nat>)
    requires k <= |temporaries|
    ensures r.Some? ==> k <= r.value < |temporaries| && EqualsIgnoreCase(temporaries[r.value].name, name)
    ensures r.Some? ==> forall j :: k <= j < r.value ==> !EqualsIgnoreCase(temporaries[j].name, name)
    ensures r.None? <==> forall i :: k <= i < |temporaries| ==> !EqualsIgnoreCase(temporaries[i].name, name)
    decreases |temporaries| - k
  {
    if k == |temporaries| then None
    else if EqualsIgnoreCase(temporaries[k].name, name) then Some(k)
    else FirstNamed(temporaries, name, k + 1)
  }

  /** Names equal ignoring case find the same temporary package. */
  lemma {:induction false} FirstNamedIgnoresCase(temporaries: seq<Element>, name: string, other: string, k: nat)
    requires k <= |temporaries|
    requires EqualsIgnoreCase(name, other)
    ensures FirstNamed(temporaries, name, k) == FirstNamed(temporaries, other, k)
    decreases |temporaries| - k
  {
    if k < |temporaries| {
      EqualsIgnoreCaseIsLowerEquality(name, other);
      EqualsIgnoreCaseIsLowerEquality(temporaries[k].name, name);
      EqualsIgnoreCaseIsLowerEquality(temporaries[k].name, other);
      FirstNamedIgnoresCase(temporaries, name, other, k + 1);
    }
  }

  /** `GetOrCreateRequirementContainer`: the first package created earlier in
      this transform named like the Hub thing, ignoring case; else the first
      requirement package so named in the target architecture, cloned; else
      a new requirement package with the thing's name, meant for that
      architecture and remembered among the temporaries. The factory builds
      requirement packages; `newId` is the identifier it gives. */
  function GetOrCreateRequirementContainer(reg: Registry, temporaries: seq<Element>, sessions: seq<seq<Element>>, thing: Thing,
                                           architecture: Architecture, newId: string): (r: (Registry, seq<Element>, Element))
    requires Valid(reg)
    ensures Valid(r.0)
    ensures FirstNamed(temporaries, thing.name, 0).Some? ==>
      r == (reg, temporaries, temporaries[FirstNamed(temporaries, thing.name, 0).value])
    ensures FirstNamed(temporaries, thing.name, 0).None? && LookUp(sessions, RequirementsPkg, thing.name, architecture, 0).Some? ==>
      && r.1 == temporaries
      && (r.0, Some(r.2)) == Clone(reg, LookUp(sessions, RequirementsPkg, thing.name, architecture, 0))
      && r.2.id == LookUp(sessions, RequirementsPkg, thing.name, architecture, 0).value.id
    ensures FirstNamed(temporaries, thing.name, 0).None? && LookUp(sessions, RequirementsPkg, thing.name, architecture, 0).None? ==>
      && r.1 == temporaries + [r.2]
      && r.2.cls == RequirementsPkg && r.2.name == thing.name && r.2.id == newId && IsNew(r.0, r.2)
  {
    match FirstNamed(temporaries, thing.name, 0)
    case Some(i) => (reg, temporaries, temporaries[i])
    case None =>
      match LookUp(sessions, RequirementsPkg, thing.name, architecture, 0)
      case Some(x) =>
        var c := Clone(reg, Some(x));
        (c.0, temporaries, c.1.value)
      case None =>
        var c := CreateForArchitecture(reg, RequirementsPkg, true, newId, thing.name, architecture).value;
        (c.0, temporaries + [c.1], c.1)
  }

  /** Temporary packages are reused by name ignoring case: once a package has
      been created for a Hub thing, asking for one named like it, ignoring
      case, returns that package and changes nothing. */
  lemma ContainerReusedIgnoringCase(reg: Registry, temporaries: seq<Element>, sessions: seq<seq<Element>>, thing: Thing,
                                    architecture: Architecture, newId: string,
                                    other: Thing, sessions2: seq<seq<Element>>, architecture2: Architecture, newId2: string)
    requires Valid(reg)
    requires EqualsIgnoreCase(thing.name, other.name)
    requires FirstNamed(temporaries, thing.name, 0).None? && LookUp(sessions, RequirementsPkg, thing.name, architecture, 0).None?
    ensures var r := GetOrCreateRequirementContainer(reg, temporaries, sessions, thing, architecture, newId);
      GetOrCreateRequirementContainer(r.0, r.1, sessions2, other, architecture2, newId2) == r
  {
    var r := GetOrCreateRequirementContainer(reg, temporaries, sessions, thing, architecture, newId);
    EqualsIgnoreCaseIsLowerEquality(thing.name, other.name);
    EqualsIgnoreCaseIsLowerEquality(r.2.name, other.name);
    FirstNamedIgnoresCase(temporaries, thing.name, other.name, 0);
    FirstNamedAfterNone(r.1, other.name, |temporaries|);
  }

  /** With no match before position `k`, the first match from 0 is the first
      match from `k`. */
  lemma {:induction false} FirstNamedAfterNone(temporaries: seq<Element>, name: string, k: nat)
    requires k <= |temporaries|
    requires forall i :: 0 <= i < k ==> !EqualsIgnoreCase(temporaries[i].name, name)
    ensures FirstNamed(temporaries, name, 0) == FirstNamed(temporaries, name, k)
    decreases k
  {
    if k > 0 {
      FirstNamedAfterNone(temporaries, name, k - 1);
    }
  }

  // Containment

  /** What a requirement package owns: its requirements and its requirement
      packages. */
  datatype Owned = Owned(requirements: seq<Element>, packages: seq<Element>)

  /** An element's identifier, the key contained elements are replaced by. */
  function ElementId(e: Element): string { e.id }

  /** Puts `child` last in `owned`, dropping the elements with its
      identifier. */
  function Place(owned: seq<Element>, child: Element): (r: seq<Element>)
    ensures |r| >= 1 && r[|r| - 1] == child
    ensures forall i :: 0 <= i < |r| - 1 ==> r[i].id != child.id && r[i] in owned
    ensures forall i :: 0 <= i < |owned| && owned[i].id != child.id ==> owned[i] in r
  {
    var kept := WithoutKey(owned, ElementId, child.id);
    assert forall i :: 0 <= i < |kept| ==> (kept + [child])[i] == kept[i];
    kept + [child]
  }

  /** An element is in the list after `Place` exactly when it is the child,
      or was there with another identifier. */
  lemma InPlace(owned: seq<Element>, child: Element, x: Element)
    ensures x in Place(owned, child) <==> x == child || (x in owned && x.id != child.id)
  {
    var r := Place(owned, child);
    if x in r && x != child {
      var i :| 0 <= i < |r| && r[i] == x;
    }
    if x in owned && x.id != child.id {
      var i :| 0 <= i < |owned| && owned[i] == x;
    }
  }

  /** `AddOrUpdateContainement`: a requirement goes into the package's owned
      requirements, anything else into its owned packages, replacing the
      elements with its identifier there; the other list is left alone. */
  function AddOrUpdateContainement(child: Element, owned: Owned): (r: Owned)
    ensures IsRequirement(child.cls) ==> r.packages == owned.packages && r.requirements == Place(owned.requirements, child)
    ensures !IsRequirement(child.cls) ==> r.requirements == owned.requirements && r.packages == Place(owned.packages, child)
  {
    if IsRequirement(child.cls) then owned.(requirements := Place(owned.requirements, child))
    else owned.(packages := Place(owned.packages, child))
  }

  /** After `AddOrUpdateContainement`, the list of the child's kind holds
      exactly one element with its identifier, the child itself. */
  lemma ContainedOnce(child: Element, owned: Owned)
    ensures var r := AddOrUpdateContainement(child, owned);
      var list := if IsRequirement(child.cls) then r.requirements else r.packages;
      forall i :: 0 <= i < |list| && list[i].id == child.id ==> i == |list| - 1 && list[i] == child
  {
  }

  /** Containing the same element twice is containing it once. */
  lemma AddOrUpdateContainementIdempotent(child: Element, owned: Owned)
    ensures var r := AddOrUpdateContainement(child, owned);
      AddOrUpdateContainement(child, r) == r
  {
    var list := if IsRequirement(child.cls) then owned.requirements else owned.packages;
    var kept := WithoutKey(list, ElementId, child.id);
    WithoutKeyOfLast(kept, child, ElementId);
  }

  // The package walk

  /** The position of the first group from `k` on with identifier `iid`. */
  function GroupIndex(groups: seq<GroupThing>, iid: string, k: nat): (r: Option<nat>)
    requires k <= |groups|
    ensures r.Some? ==> k <= r.value < |groups| && groups[r.value].thing.iid == iid
    ensures r.None? <==> forall i :: k <= i < |groups| ==> groups[i].thing.iid != iid
    decreases |groups| - k
  {
    if k == |groups| then None
    else if groups[k].thing.iid == iid then Some(k)
    else GroupIndex(groups, iid, k + 1)
  }

  /** The groups the loop of `UpdateOrCreateRequirementPackages` visits: from
      the requirement's group up through the groups containing it, stopping
      at the specification (a group directly under it has no parent group)
      or at a group it has already visited. */
  function {:induction false} GroupChain(groups: seq<GroupThing>, container: Option<string>, specificationIid: string): (r: seq<GroupThing>)
    ensures |r| <= |groups|
    ensures forall i :: 0 <= i < |r| ==> r[i] in groups && r[i].thing.iid != specificationIid
    ensures container.None? || container == Some(specificationIid) ==> r == []
    ensures r != [] ==> container == Some(r[0].thing.iid)
    ensures forall i :: 0 <= i < |r| - 1 ==> r[i].parent == Some(r[i + 1].thing.iid)
    decreases |groups|
  {
    if container.None? || container.value == specificationIid then []
    else match GroupIndex(groups, container.value, 0)
      case None => []
      case Some(g) =>
        var others := groups[..g] + groups[g + 1..];
        assert forall x :: x in others ==> x in groups;
        var rest := GroupChain(others, groups[g].parent, specificationIid);
        var r := [groups[g]] + rest;
        assert forall i :: 1 <= i < |r| ==> r[i] == rest[i - 1];
        r
  }

  /** The packages standing for the groups of `chain`, each got or created in
      turn by `GetOrCreateRequirementContainer`, a new one with the
      identifier `newId` gives for the group's iid. */
  function {:induction false} ResolveContainers(reg: Registry, temporaries: seq<Element>, sessions: seq<seq<Element>>, chain: seq<GroupThing>,
                                                architecture: Architecture, newId: string -> string)
    : (r: (Registry, seq<Element>, seq<Element>))
    requires Valid(reg)
    ensures Valid(r.0) && |r.2| == |chain|
    ensures |r.1| >= |temporaries| && r.1[..|temporaries|] == temporaries
    decreases |chain|
  {
    if chain == [] then (reg, temporaries, [])
    else
      var c := GetOrCreateRequirementContainer(reg, temporaries, sessions, chain[0].thing, architecture, newId(chain[0].thing.iid));
      assert c.1[..|temporaries|] == temporaries;
      var rest := ResolveContainers(c.0, c.1, sessions, chain[1..], architecture, newId);
      assert rest.1[..|temporaries|] == temporaries by {
        assert rest.1[..|c.1|] == c.1;
      }
      (rest.0, rest.1, [c.2] + rest.2)
  }

  /** The containments the walk makes, as (contained, container) pairs: the
      requirement into the package of its group, each group's package into
      the package of the group above it, and the last one into the
      specification's package. */
  function ContainmentEdges(requirement: Element, containers: seq<Element>, specification: Element): (r: seq<(Element, Element)>)
    ensures |r| == |containers| + 1
    ensures r[0].0 == requirement && r[|r| - 1].1 == specification
    ensures forall i :: 0 <= i < |containers| ==> r[i].1 == containers[i] && r[i + 1].0 == containers[i]
  {
    seq(|containers| + 1, i requires 0 <= i <= |containers| =>
      (if i == 0 then requirement else containers[i - 1], if i < |containers| then containers[i] else specification))
  }

  /** The loop of `UpdateOrCreateRequirementPackages`: the packages of the
      groups of `chain`, and the containments linking the requirement through
      them to the specification's package. */
  function Walk(reg: Registry, temporaries: seq<Element>, sessions: seq<seq<Element>>, chain: seq<GroupThing>, requirement: Element,
                specificationPackage: Element, architecture: Architecture, newId: string -> string)
    : (r: (Registry, seq<Element>, seq<(Element, Element)>))
    requires Valid(reg)
    ensures Valid(r.0)
    ensures |r.1| >= |temporaries| && r.1[..|temporaries|] == temporaries
    ensures |r.2| == |chain| + 1
    ensures r.2[0].0 == requirement && r.2[|r.2| - 1].1 == specificationPackage
    ensures forall i :: 0 <= i < |r.2| - 1 ==> r.2[i].1 == r.2[i + 1].0
  {
    var c := ResolveContainers(reg, temporaries, sessions, chain, architecture, newId);
    (c.0, c.1, ContainmentEdges(requirement, c.2, specificationPackage))
  }

  /** `UpdateOrCreateRequirementPackages`: the specification's package
      first, then the packages of the requirement's group chain, and the
      containments linking the requirement to them. */
  function UpdateOrCreateRequirementPackages(reg: Registry, temporaries: seq<Element>, sessions: seq<seq<Element>>,
                                             specification: SpecificationContents, hub: RequirementThing, requirement: Element,
                                             architecture: Architecture, newId: string -> string)
    : (r: (Registry, seq<Element>, seq<(Element, Element)>))
    requires Valid(reg)
    ensures Valid(r.0)
    ensures |r.1| >= |temporaries| && r.1[..|temporaries|] == temporaries
    ensures |r.2| == |GroupChain(specification.groups, hub.group, specification.thing.iid)| + 1
    ensures r.2[0].0 == requirement
    ensures r.2[|r.2| - 1].1 ==
      GetOrCreateRequirementContainer(reg, temporaries, sessions, specification.thing, architecture, newId(specification.thing.iid)).2
    ensures forall i :: 0 <= i < |r.2| - 1 ==> r.2[i].1 == r.2[i + 1].0
  {
    var s := GetOrCreateRequirementContainer(reg, temporaries, sessions, specification.thing, architecture, newId(specification.thing.iid));
    var w := Walk(s.0, s.1, sessions, GroupChain(specification.groups, hub.group, specification.thing.iid), requirement, s.2, architecture, newId);
    assert w.1[..|temporaries|] == temporaries by {
      assert |s.1| >= |temporaries| && s.1[..|temporaries|] == temporaries;
      assert w.1[..|s.1|] == s.1;
    }
    w
  }

  // The packages' contents

  /** The packages' contents as the loop leaves them, keyed by the package
      object (its `ref`). They are EMF containment lists: adding an element
      to one takes it out of the list that held it, so an element has one
      container at most. */
  type Contents = map<nat, Owned>

  /** An element's object, the key EMF moves a contained element by. */
  function ElementRef(e: Element): nat { e.ref }

  /** The list of `owned` that `AddOrUpdateContainement` puts `child` in. */
  function ListOf(owned: Owned, child: Element): seq<Element> {
    if IsRequirement(child.cls) then owned.requirements else owned.packages
  }

  /** Two snapshots stand for the same contained element: the same object,
      under the same identifier, in the same kind of list. */
  predicate SameChild(a: Element, b: Element) {
    a.ref == b.ref && a.id == b.id && IsRequirement(a.cls) == IsRequirement(b.cls)
  }

  /** `container` holds `child`: its list of the child's kind holds the
      same object under the same identifier. */
  predicate Holds(contents: Contents, container: Element, child: Element) {
    && container.ref in contents
    && exists x :: x in ListOf(contents[container.ref], child) && x.ref == child.ref && x.id == child.id
  }

  /** Every element has one container at most. */
  ghost predicate SingleParent(contents: Contents) {
    forall p, q, c {:trigger Holds(contents, p, c), Holds(contents, q, c)} ::
      Holds(contents, p, c) && Holds(contents, q, c) ==> p.ref == q.ref
  }

  /** Putting `child` in `container` ends the containment of `c` in `p`:
      `c` is the same object, which leaves `p`, or `c` has the child's
      identifier in the list of `container` the child goes in, which
      `AddOrUpdateContainement` empties of that identifier. */
  predicate Displaces(child: Element, container: Element, c: Element, p: Element) {
    || c.ref == child.ref
    || (p.ref == container.ref && c.id == child.id && IsRequirement(c.cls) == IsRequirement(child.cls))
  }

  /** No containment of `edges`, as (contained, container) pairs, ends the
      containment of `c` in `p`. */
  predicate Undisturbed(edges: seq<(Element, Element)>, c: Element, p: Element) {
    forall e :: e in edges ==> !Displaces(e.0, e.1, c, p)
  }

  /** EMF's move on add: `child`'s object leaves every list that held it. */
  function Detach(contents: Contents, child: Element): (r: Contents)
    ensures r.Keys == contents.Keys
    ensures forall p, c {:trigger Holds(r, p, c)} :: Holds(r, p, c) <==> Holds(contents, p, c) && c.ref != child.ref
  {
    var r := map k | k in contents ::
      Owned(WithoutKey(contents[k].requirements, ElementRef, child.ref), WithoutKey(contents[k].packages, ElementRef, child.ref));
    forall p: Element, c: Element | p.ref in contents
      ensures Holds(r, p, c) <==> Holds(contents, p, c) && c.ref != child.ref
    {
      var list := ListOf(contents[p.ref], c);
      assert ListOf(r[p.ref], c) == WithoutKey(list, ElementRef, child.ref);
      forall x
        ensures x in ListOf(r[p.ref], c) <==> x in list && x.ref != child.ref
      {
        InWithoutKey(list, ElementRef, child.ref, x);
      }
    }
    r
  }

  /** One `AddOrUpdateContainement` on the packages' contents: `child`'s
      object leaves the list that held it, the elements with its identifier
      leave `container`'s list of its kind, and it goes last there.
      Afterwards a containment holds exactly when it is the new one, or it
      held before and the new one does not end it; and an element still
      has one container at most. */
  function ContainOne(state: Contents, child: Element, container: Element): (r: Contents)
    ensures forall p, c {:trigger Holds(r, p, c)} ::
      Holds(r, p, c) <==> (p.ref == container.ref && SameChild(c, child)) || (Holds(state, p, c) && !Displaces(child, container, c, p))
    ensures SingleParent(state) ==> SingleParent(r)
    ensures r.Keys == state.Keys + {container.ref}
  {
    var detached := Detach(state, child);
    var owned := if container.ref in detached then detached[container.ref] else Owned([], []);
    var r := detached[container.ref := AddOrUpdateContainement(child, owned)];
    PlaceHolds(detached, child, container);
    assert forall p, c {:trigger Holds(r, p, c)} ::
      Holds(r, p, c) <==> (p.ref == container.ref && SameChild(c, child)) || (Holds(state, p, c) && !Displaces(child, container, c, p));
    OneContainerKept(state, r, child, container);
    r
  }

  /** `AddOrUpdateContainement` in `container`'s entry of `contents`, from
      which `child` has been detached: a containment holds afterwards
      exactly when it is the new one, or it held and is not of an element
      with the child's identifier in the list the child goes in. */
  lemma PlaceHolds(contents: Contents, child: Element, container: Element)
    ensures var owned := if container.ref in contents then contents[container.ref] else Owned([], []);
      var r := contents[container.ref := AddOrUpdateContainement(child, owned)];
      forall p, c {:trigger Holds(r, p, c)} :: Holds(r, p, c) <==>
        (p.ref == container.ref && SameChild(c, child))
        || (Holds(contents, p, c) && !(p.ref == container.ref && c.id == child.id && IsRequirement(c.cls) == IsRequirement(child.cls)))
  {
    var owned := if container.ref in contents then contents[container.ref] else Owned([], []);
    var r := contents[container.ref := AddOrUpdateContainement(child, owned)];
    forall p: Element, c: Element | p.ref == container.ref
      ensures Holds(r, p, c) <==> SameChild(c, child) || (Holds(contents, p, c) && !(c.id == child.id && IsRequirement(c.cls) == IsRequirement(child.cls)))
    {
      if IsRequirement(c.cls) == IsRequirement(child.cls) {
        assert ListOf(r[p.ref], c) == Place(ListOf(owned, c), child);
        forall x
          ensures x in ListOf(r[p.ref], c) <==> x == child || (x in ListOf(owned, c) && x.id != child.id)
        {
          InPlace(ListOf(owned, c), child, x);
        }
      } else {
        assert ListOf(r[p.ref], c) == ListOf(owned, c);
      }
    }
  }

  /** A containment that ends every other containment of its element keeps
      each element in one container at most. */
  lemma OneContainerKept(state: Contents, r: Contents, child: Element, container: Element)
    requires forall p, c {:trigger Holds(r, p, c)} ::
      Holds(r, p, c) <==> (p.ref == container.ref && SameChild(c, child)) || (Holds(state, p, c) && !Displaces(child, container, c, p))
    ensures SingleParent(state) ==> SingleParent(r)
  {
  }

  /** None of `edges` ends a containment that held in `before` and for
      which none of them is the end: it still holds in `after`. */
  ghost predicate KeepsUndisturbed(before: Contents, after: Contents, edges: seq<(Element, Element)>) {
    forall p, c {:trigger Holds(after, p, c)} :: Holds(before, p, c) && Undisturbed(edges, c, p) ==> Holds(after, p, c)
  }

  /** Each containment of `edges` that neither a later one of `edges` nor
      one of `later` ends holds in `contents`. */
  predicate HoldsUndisturbed(contents: Contents, edges: seq<(Element, Element)>, later: seq<(Element, Element)>) {
    forall k :: 0 <= k < |edges| && Undisturbed(edges[k + 1..] + later, edges[k].0, edges[k].1) ==> Holds(contents, edges[k].1, edges[k].0)
  }

  /** Some containment of `edges` put `c` in `p`, and none after it ends
      that. */
  ghost predicate PlacedLast(edges: seq<(Element, Element)>, c: Element, p: Element) {
    exists k :: 0 <= k < |edges| && edges[k].1.ref == p.ref && SameChild(c, edges[k].0) && Undisturbed(edges[k + 1..], c, p)
  }

  /** The containments applied in order to the packages' contents. A
      containment holds afterwards exactly when one of them made it and no
      later one ended it, or it held before and none ended it; an element
      still has one container at most. */
  function {:induction false} Contain(state: Contents, edges: seq<(Element, Element)>): (r: Contents)
    ensures HoldsUndisturbed(r, edges, [])
    ensures KeepsUndisturbed(state, r, edges)
    ensures forall p, c {:trigger Holds(r, p, c)} :: Holds(r, p, c) ==> (Holds(state, p, c) && Undisturbed(edges, c, p)) || PlacedLast(edges, c, p)
    ensures SingleParent(state) ==> SingleParent(r)
    decreases |edges|
  {
    if edges == [] then state
    else
      var first := ContainOne(state, edges[0].0, edges[0].1);
      var r := Contain(first, edges[1..]);
      ContainHolds(edges, first, r);
      ContainKeeps(state, edges, first, r);
      ContainOnly(state, edges, first, r);
      r
  }

  /** The first containment holds after it is made; so the containments
      of `edges` no later one ends hold after the rest are made. */
  lemma ContainHolds(edges: seq<(Element, Element)>, first: Contents, r: Contents)
    requires edges != [] && Holds(first, edges[0].1, edges[0].0)
    requires HoldsUndisturbed(r, edges[1..], []) && KeepsUndisturbed(first, r, edges[1..])
    ensures HoldsUndisturbed(r, edges, [])
  {
    var tail := edges[1..];
    forall k | 0 <= k < |edges| && Undisturbed(edges[k + 1..] + [], edges[k].0, edges[k].1)
      ensures Holds(r, edges[k].1, edges[k].0)
    {
      assert edges[k + 1..] + [] == edges[k + 1..];
      if k == 0 {
        assert edges[1..] == tail;
      } else {
        assert tail[k - 1] == edges[k] && tail[k..] + [] == edges[k + 1..];
      }
    }
  }

  /** What the first containment and the rest each keep, all of `edges`
      keeps. */
  lemma ContainKeeps(state: Contents, edges: seq<(Element, Element)>, first: Contents, r: Contents)
    requires edges != []
    requires forall p, c {:trigger Holds(first, p, c)} :: Holds(state, p, c) && !Displaces(edges[0].0, edges[0].1, c, p) ==> Holds(first, p, c)
    requires KeepsUndisturbed(first, r, edges[1..])
    ensures KeepsUndisturbed(state, r, edges)
  {
    forall p, c | Holds(state, p, c) && Undisturbed(edges, c, p)
      ensures Holds(r, p, c)
    {
      assert edges[0] in edges;
      assert Undisturbed(edges[1..], c, p) by {
        forall e | e in edges[1..] ensures e in edges {}
      }
    }
  }

  /** A containment holding after all of `edges` was made by one of them
      and not ended after, or held before and none ended it. */
  lemma ContainOnly(state: Contents, edges: seq<(Element, Element)>, first: Contents, r: Contents)
    requires edges != []
    requires forall p, c {:trigger Holds(first, p, c)} :: Holds(first, p, c) ==>
      (p.ref == edges[0].1.ref && SameChild(c, edges[0].0)) || (Holds(state, p, c) && !Displaces(edges[0].0, edges[0].1, c, p))
    requires forall p, c {:trigger Holds(r, p, c)} :: Holds(r, p, c) ==> (Holds(first, p, c) && Undisturbed(edges[1..], c, p)) || PlacedLast(edges[1..], c, p)
    ensures forall p, c {:trigger Holds(r, p, c)} :: Holds(r, p, c) ==> (Holds(state, p, c) && Undisturbed(edges, c, p)) || PlacedLast(edges, c, p)
  {
    var tail := edges[1..];
    assert forall e :: e in edges <==> e == edges[0] || e in tail by {
      assert edges == [edges[0]] + tail;
    }
    forall p, c | Holds(r, p, c)
      ensures (Holds(state, p, c) && Undisturbed(edges, c, p)) || PlacedLast(edges, c, p)
    {
      if PlacedLast(tail, c, p) {
        var k :| 0 <= k < |tail| && tail[k].1.ref == p.ref && SameChild(c, tail[k].0) && Undisturbed(tail[k + 1..], c, p);
        assert edges[k + 1] == tail[k] && edges[k + 2..] == tail[k + 1..];
      } else if p.ref == edges[0].1.ref && SameChild(c, edges[0].0) {
        assert edges[0 + 1..] == tail;
      }
    }
  }

  /** Putting an element in a second package takes it out of the first:
      the EMF containment lists give an element one container. */
  lemma {:induction false} PlacingAgainMoves(state: Contents, x: Element, a: Element, b: Element)
    requires a.ref != b.ref
    ensures var r := Contain(state, [(x, a), (x, b)]);
      Holds(r, b, x) && !Holds(r, a, x)
  {
    var edges := [(x, a), (x, b)];
    var r := Contain(state, edges);
    assert edges[1..] + [] == [(x, b)];
    assert Holds(r, b, x);
    assert !Undisturbed(edges, x, a) by {
      assert (x, b) in edges && Displaces(x, b, x, a);
    }
    assert !PlacedLast(edges, x, a) by {
      forall k | 0 <= k < |edges| && edges[k].1.ref == a.ref
        ensures !Undisturbed(edges[k + 1..], x, a)
      {
        assert k == 0 && (x, b) in edges[k + 1..];
      }
    }
  }

  // Mapping the rows

  /** A row of the Hub-to-Capella requirement mapping: the Hub requirement,
      its specification, the Capella requirement chosen for it, if any, and
      the target architecture. */
  datatype HubRequirementRow = HubRequirementRow(hub: RequirementThing, specification: SpecificationContents,
                                                 dst: Option<Element>, architecture: Architecture)

  /** What the rule draws from outside: the elements of the open sessions,
      whether the EMF factory builds a class, and the identifier it gives the
      element created for a Hub thing's iid. */
  datatype DstContext = DstContext(sessions: seq<seq<Element>>, canCreate: DstClass -> bool, newId: string -> string)

  /** What mapping one row leaves: the registry, the temporary packages, the
      updated Capella requirement and the containments to make. */
  datatype RowMapping = RowMapping(registry: Registry, temporaries: seq<Element>, requirement: Element, edges: seq<(Element, Element)>)

  /** `edges` link `requirement` upwards through packages: it goes into the
      first container, and each container into the next. */
  predicate LinksUp(requirement: Element, edges: seq<(Element, Element)>) {
    && |edges| >= 1 && edges[0].0 == requirement
    && forall i :: 0 <= i < |edges| - 1 ==> edges[i].1 == edges[i + 1].0
  }

  /** The Capella requirement a row starts from: the chosen one (its target
      architecture registered), else the one `GetOrCreateRequirement` gets or
      creates with the class the categories name. None when that class does
      not exist or cannot be built, where the source fails. */
  function RowRequirement(reg: Registry, row: HubRequirementRow, ctx: DstContext): (r: (Registry, Option<Element>))
    requires Valid(reg)
    ensures Valid(r.0)
    ensures row.dst.Some? ==> r == (RegisterTargetArchitecture(reg, row.dst.value, row.architecture), row.dst)
    ensures row.dst.None? ==> var cls := ClassToCreate(TryGetRequirementClass(CategoryNames(row.hub.categories)));
      && (cls.None? ==> r == (reg, None))
      && (cls.Some? ==> r == GetOrCreateRequirement(reg, ctx.sessions, row.hub, row.architecture, cls.value,
                                                    ctx.canCreate(cls.value), ctx.newId(row.hub.thing.iid)))
  {
    match row.dst
    case Some(d) => (RegisterTargetArchitecture(reg, d, row.architecture), row.dst)
    case None =>
      match ClassToCreate(TryGetRequirementClass(CategoryNames(row.hub.categories)))
      case None => (reg, None)
      case Some(cls) => GetOrCreateRequirement(reg, ctx.sessions, row.hub, row.architecture, cls, ctx.canCreate(cls), ctx.newId(row.hub.thing.iid))
  }

  /** What the rule copies from a Hub requirement to its Capella one. */
  predicate Carries(requirement: Element, hub: RequirementThing) {
    && requirement.name == hub.thing.name
    && requirement.requirementId == hub.thing.shortName
    && requirement.description == Description(hub.definitions)
  }

  /** One pass of the rule's loop: the row's requirement, its properties
      copied from the Hub, and the packages it is to sit in. */
  function MapRow(reg: Registry, temporaries: seq<Element>, row: HubRequirementRow, ctx: DstContext): (r: Option<RowMapping>)
    requires Valid(reg)
    ensures r.Some? ==> Valid(r.value.registry)
    ensures r.None? <==> RowRequirement(reg, row, ctx).1.None?
    ensures row.dst.Some? ==> r.Some? && r.value.requirement == UpdateProperties(row.hub, row.dst.value)
    ensures r.Some? ==> Carries(r.value.requirement, row.hub)
    ensures r.Some? ==> LinksUp(r.value.requirement, r.value.edges)
    ensures r.Some? ==> |r.value.edges| == |GroupChain(row.specification.groups, row.hub.group, row.specification.thing.iid)| + 1
    ensures r.Some? ==> |r.value.temporaries| >= |temporaries| && r.value.temporaries[..|temporaries|] == temporaries
  {
    var q := RowRequirement(reg, row, ctx);
    match q.1
    case None => None
    case Some(e) =>
      var requirement := UpdateProperties(row.hub, e);
      var p := UpdateOrCreateRequirementPackages(q.0, temporaries, ctx.sessions, row.specification, row.hub, requirement,
                                                 row.architecture, ctx.newId);
      Some(RowMapping(p.0, p.1, requirement, p.2))
  }

  /** The row's mapping as the loop promises it: its requirement is linked
      through one package per group of its chain and then the
      specification's; each of those containments that no later one, of
      the row or of `later`, ends holds in `contents`. */
  predicate Placed(m: RowMapping, row: HubRequirementRow, later: seq<(Element, Element)>, contents: Contents) {
    && LinksUp(m.requirement, m.edges)
    && |m.edges| == |GroupChain(row.specification.groups, row.hub.group, row.specification.thing.iid)| + 1
    && HoldsUndisturbed(contents, m.edges, later)
  }

  /** The containments of the mappings, in the order the loop makes them. */
  function AllEdges(mapped: seq<RowMapping>): seq<(Element, Element)>
    decreases |mapped|
  {
    if mapped == [] then [] else mapped[0].edges + AllEdges(mapped[1..])
  }

  /** What the loop of `Map` leaves: the registry, the package contents,
      and, unless a row failed, each row's requirement with the
      containments made for it. */
  datatype RowsMapping = RowsMapping(registry: Registry, contents: Contents, mapped: Option<seq<RowMapping>>)

  /** The loop of `Map` over the rows, threading the registry, the temporary
      packages and the packages' contents, `AddOrUpdateContainement` applied
      to each row's containments in turn; the first row that fails ends it.
      When none fails, every row's mapping is placed as promised in the
      contents at the end, up to the containments later rows end; a
      containment that held before still holds unless one of the rows ends
      it; an element has one container at most. */
  function {:induction false} MapRows(reg: Registry, temporaries: seq<Element>, contents: Contents,
                                      rows: seq<HubRequirementRow>, ctx: DstContext): (r: RowsMapping)
    requires Valid(reg)
    ensures Valid(r.registry)
    ensures SingleParent(contents) ==> SingleParent(r.contents)
    ensures r.mapped.Some? ==> RowsPlaced(contents, r.contents, r.mapped.value, rows)
    decreases |rows|
  {
    if rows == [] then RowsMapping(reg, contents, Some([]))
    else
      var first := MapRow(reg, temporaries, rows[0], ctx);
      if first.None? then RowsMapping(reg, contents, None)
      else
        var placed := Contain(contents, first.value.edges);
        var rest := MapRows(first.value.registry, first.value.temporaries, placed, rows[1..], ctx);
        if rest.mapped.None? then RowsMapping(rest.registry, rest.contents, None)
        else
          MapRowsJoin(contents, placed, rest.contents, first.value, rest.mapped.value, rows);
          RowsMapping(rest.registry, rest.contents, Some([first.value] + rest.mapped.value))
  }

  /** What the loop promises of the rows' mappings when none fails: one
      per row, each carrying its row's Hub requirement and placed in
      `after`, which keeps what held in `before` unless a mapping ends it. */
  ghost predicate RowsPlaced(before: Contents, after: Contents, mapped: seq<RowMapping>, rows: seq<HubRequirementRow>) {
    && |mapped| == |rows|
    && (forall i :: 0 <= i < |rows| ==> Carries(mapped[i].requirement, rows[i].hub))
    && KeepsUndisturbed(before, after, AllEdges(mapped))
    && PlacedAll(mapped, rows, after)
  }

  /** The first row's mapping, its containments made in `placed`, before
      the rest's, placed in `after`, gives all rows' mappings placed. */
  lemma MapRowsJoin(before: Contents, placed: Contents, after: Contents, first: RowMapping, others: seq<RowMapping>,
                    rows: seq<HubRequirementRow>)
    requires rows != []
    requires Carries(first.requirement, rows[0].hub) && LinksUp(first.requirement, first.edges)
    requires |first.edges| == |GroupChain(rows[0].specification.groups, rows[0].hub.group, rows[0].specification.thing.iid)| + 1
    requires HoldsUndisturbed(placed, first.edges, []) && KeepsUndisturbed(before, placed, first.edges)
    requires RowsPlaced(placed, after, others, rows[1..])
    ensures RowsPlaced(before, after, [first] + others, rows)
  {
    var mapped := [first] + others;
    assert mapped[1..] == others;
    KeepsUndisturbedJoin(before, placed, after, first.edges, AllEdges(others));
    PlacedThrough(first, rows[0], placed, after, AllEdges(others));
    CarriesStep(first, rows, others);
  }

  /** Containments kept through two runs of edges are kept through both. */
  lemma KeepsUndisturbedJoin(a: Contents, b: Contents, c: Contents, first: seq<(Element, Element)>, second: seq<(Element, Element)>)
    requires KeepsUndisturbed(a, b, first) && KeepsUndisturbed(b, c, second)
    ensures KeepsUndisturbed(a, c, first + second)
  {
    forall p, x | Holds(a, p, x) && Undisturbed(first + second, x, p)
      ensures Holds(c, p, x)
    {
      assert Undisturbed(first, x, p) && Undisturbed(second, x, p);
    }
  }

  /** A mapping placed when its containments were made stays placed
      through later containments, up to those they end. */
  lemma PlacedThrough(m: RowMapping, row: HubRequirementRow, placed: Contents, contents: Contents, later: seq<(Element, Element)>)
    requires Placed(m, row, [], placed)
    requires KeepsUndisturbed(placed, contents, later)
    ensures Placed(m, row, later, contents)
  {
    forall k | 0 <= k < |m.edges| && Undisturbed(m.edges[k + 1..] + later, m.edges[k].0, m.edges[k].1)
      ensures Holds(contents, m.edges[k].1, m.edges[k].0)
    {
      var c := m.edges[k].0;
      var p := m.edges[k].1;
      assert Undisturbed(m.edges[k + 1..] + [], c, p) by {
        assert m.edges[k + 1..] + [] == m.edges[k + 1..];
      }
      assert Undisturbed(later, c, p);
    }
  }

  /** Every row's mapping is placed, up to the containments the mappings
      after it end. */
  predicate PlacedAll(mapped: seq<RowMapping>, rows: seq<HubRequirementRow>, contents: Contents)
    decreases |rows|
  {
    && |mapped| == |rows|
    && (rows != [] ==>
          && Placed(mapped[0], rows[0], AllEdges(mapped[1..]), contents)
          && PlacedAll(mapped[1..], rows[1..], contents))
  }

  /** Row `i`'s mapping is placed when all are. */
  lemma {:induction false} PlacedAt(mapped: seq<RowMapping>, rows: seq<HubRequirementRow>, contents: Contents, i: nat)
    requires PlacedAll(mapped, rows, contents) && i < |rows|
    ensures Placed(mapped[i], rows[i], AllEdges(mapped[i + 1..]), contents)
    decreases i
  {
    if i > 0 {
      PlacedAt(mapped[1..], rows[1..], contents, i - 1);
      assert mapped[1..][i - 1] == mapped[i] && rows[1..][i - 1] == rows[i] && mapped[1..][i..] == mapped[i + 1..];
    }
  }

  /** Mappings of the rows after the first that carry their Hub
      requirements still do behind the first row's mapping. */
  lemma CarriesStep(first: RowMapping, rows: seq<HubRequirementRow>, others: seq<RowMapping>)
    requires |rows| >= 1 && |others| == |rows| - 1
    requires forall i :: 0 <= i < |others| ==> Carries(others[i].requirement, rows[1..][i].hub)
    ensures forall i :: 1 <= i < |rows| ==> Carries(([first] + others)[i].requirement, rows[i].hub)
  {
    var mapped := [first] + others;
    forall i | 1 <= i < |rows|
      ensures Carries(mapped[i].requirement, rows[i].hub)
    {
      assert rows[i] == rows[1..][i - 1];
      assert mapped[i] == others[i - 1];
    }
  }

  /** The position of the last mapping before `n` whose requirement is the
      object `ref`. */
  function LastWith(mapped: seq<RowMapping>, ref: nat, n: nat): (r: Option<nat>)
    requires n <= |mapped|
    ensures r.Some? ==> r.value < n && mapped[r.value].requirement.ref == ref
    ensures r.Some? ==> forall k :: r.value < k < n ==> mapped[k].requirement.ref != ref
    ensures r.None? <==> forall k :: 0 <= k < n ==> mapped[k].requirement.ref != ref
  {
    if n == 0 then None
    else if mapped[n - 1].requirement.ref == ref then Some(n - 1)
    else LastWith(mapped, ref, n - 1)
  }

  /** The last row whose requirement is the same object as row `i`'s: the
      row whose update that object shows at the end. */
  function LastSharing(mapped: seq<RowMapping>, i: nat): (j: nat)
    requires i < |mapped|
    ensures i <= j < |mapped| && mapped[j].requirement.ref == mapped[i].requirement.ref
    ensures forall k :: j < k < |mapped| ==> mapped[k].requirement.ref != mapped[i].requirement.ref
  {
    LastWith(mapped, mapped[i].requirement.ref, |mapped|).value
  }

  /** What `Transform` leaves: the registry, each row's mapping (none when
      a row fails), the requirement objects each row's Capella requirement
      ends as, which are the output, and the packages' contents. */
  datatype Transformed = Transformed(registry: Registry, mapped: seq<RowMapping>, requirements: seq<Element>, contents: Contents)

  /** `Transform`: the rows mapped with no temporary package yet (the caches
      are cleared after every transform) and no package contents recorded;
      every row's mapping, or none when a row fails, in which case the
      exception is logged and the result is empty. When every row maps,
      each row's requirement is held by the first of a line of packages,
      one per group of its chain and one more (the one
      `UpdateOrCreateRequirementPackages` gives for the specification), each
      held by the next, up to the containments a later one ends; a row's
      output requirement is the object it mapped, which carries the Hub
      requirement of the last row that mapped the same object; and an
      element has one container at most. */
  function Transform(reg: Registry, rows: seq<HubRequirementRow>, ctx: DstContext): (r: Transformed)
    requires Valid(reg)
    ensures Valid(r.registry)
    ensures |r.mapped| == |rows| || r.mapped == []
    ensures |r.requirements| == |r.mapped|
    ensures SingleParent(r.contents)
    ensures |r.mapped| == |rows| ==> forall i :: 0 <= i < |rows| ==>
      && Placed(r.mapped[i], rows[i], AllEdges(r.mapped[i + 1..]), r.contents)
      && r.requirements[i].ref == r.mapped[i].requirement.ref
      && Carries(r.requirements[i], rows[LastSharing(r.mapped, i)].hub)
  {
    var m := MapRows(reg, [], map[], rows, ctx);
    if m.mapped.Some? then
      RowsPlacedOutcome(map[], m.contents, m.mapped.value, rows);
      Transformed(m.registry, m.mapped.value, FinalRequirements(m.mapped.value), m.contents)
    else Transformed(m.registry, [], [], m.contents)
  }

  /** The requirement object each mapping's Capella requirement ends as:
      the same object, as the last row that mapped it left it. */
  function FinalRequirements(mapped: seq<RowMapping>): (r: seq<Element>)
    ensures |r| == |mapped|
    ensures forall i :: 0 <= i < |mapped| ==> r[i] == mapped[LastSharing(mapped, i)].requirement
  {
    seq(|mapped|, i requires 0 <= i < |mapped| => mapped[LastSharing(mapped, i)].requirement)
  }

  /** When the loop's promises hold, each row's mapping is placed, and each
      row's requirement object ends carrying the Hub requirement of the
      last row that mapped it. */
  lemma RowsPlacedOutcome(before: Contents, after: Contents, mapped: seq<RowMapping>, rows: seq<HubRequirementRow>)
    requires RowsPlaced(before, after, mapped, rows)
    ensures forall i :: 0 <= i < |rows| ==>
      && Placed(mapped[i], rows[i], AllEdges(mapped[i + 1..]), after)
      && FinalRequirements(mapped)[i].ref == mapped[i].requirement.ref
      && Carries(FinalRequirements(mapped)[i], rows[LastSharing(mapped, i)].hub)
  {
    var requirements := FinalRequirements(mapped);
    forall i | 0 <= i < |rows|
      ensures Placed(mapped[i], rows[i], AllEdges(mapped[i + 1..]), after)
      ensures requirements[i].ref == mapped[i].requirement.ref
      ensures Carries(requirements[i], rows[LastSharing(mapped, i)].hub)
    {
      PlacedAt(mapped, rows, after, i);
      var j := LastSharing(mapped, i);
      assert Carries(mapped[j].requirement, rows[j].hub);
    }
  }
}
