/** `RequirementToRequirementsSpecificationMappingRule`: Capella requirements
    become Hub requirements, inside a requirements specification standing for
    their outermost requirements package and inside groups standing for the
    packages in between. Fresh identifiers and the outcome of Hub writes are
    parameters. */
module RequirementToSpecification {
  import opened Wrappers
  import opened Text
  import opened Capella
  import opened Hub
  import opened Sequences
  import opened ShortNames
  import Categories
  import Enumerations

  // Categories

  /** The category `MapCategories` gives a requirement for its kind: the
      simple name of its system requirement class, the same name the
      requirement type enumeration knows the class by; other requirements
      get none. */
  function KindCategoryName(cls: DstClass): (r: Option<string>)
    ensures r == Enumerations.RequirementTypeOfClass(Some(cls)).SimpleName()
    ensures r.Some? <==> IsRequirement(cls) && cls != OtherRequirement
  {
    match cls
    case SystemNonFunctionalRequirement => Some("SystemNonFunctionalRequirement")
    case SystemNonFunctionalInterfaceRequirement => Some("SystemNonFunctionalInterfaceRequirement")
    case SystemFunctionalRequirement => Some("SystemFunctionalRequirement")
    case SystemFunctionalInterfaceRequirement => Some("SystemFunctionalInterfaceRequirement")
    case SystemUserRequirement => Some("SystemUserRequirement")
    case _ => None
  }

  const ObsoleteCategoryName := "Obsolete"

  /** The names of the categories `MapCategories` maps, in order: the kind's,
      then "Obsolete" for an obsolete requirement. */
  function RequirementCategoryNames(cls: DstClass, isObsolete: bool): (r: seq<string>)
    ensures |r| <= 2
    ensures ObsoleteCategoryName in r <==> isObsolete
  {
    (if KindCategoryName(cls).Some? then [KindCategoryName(cls).value] else [])
    + (if isObsolete then [ObsoleteCategoryName] else [])
  }

  /** Of the five system requirement kinds' names, exactly the requirement's
      own is among its category names. */
  lemma CategoryNamesOfKinds(cls: DstClass, isObsolete: bool)
    ensures forall t: Enumerations.RequirementType :: t.SimpleName().Some? ==>
      (t.SimpleName().value in RequirementCategoryNames(cls, isObsolete) <==> t.ClassType() == Some(cls))
  {
  }

  /** What mapping categories draws from outside: the categories of the
      reference data libraries, the iid a category created for a name gets,
      and whether the Hub write creating it succeeds. */
  datatype CategoryContext = CategoryContext(libraries: seq<CategoryThing>, uuid: string -> string, writeSucceeds: string -> bool)

  /** Whether the category of `name` is in the libraries or can be created. */
  predicate Obtainable(ctx: CategoryContext, name: string) {
    Categories.HasShortName(ctx.libraries, GetShortName(name)) || ctx.writeSucceeds(name)
  }

  /** `MapCategories`: `MapCategory` with each name `RequirementCategoryNames`
      gives, for requirements. The requirement keeps its categories, gains
      the category of each of those names that can be obtained, and gains no
      category with another short name. */
  function MapCategories(categories: seq<CategoryThing>, cls: DstClass, isObsolete: bool, ctx: CategoryContext): (r: seq<CategoryThing>)
    ensures |r| >= |categories| && r[..|categories|] == categories
    ensures forall n :: n in RequirementCategoryNames(cls, isObsolete) && Obtainable(ctx, n) ==>
      Categories.HasShortName(r, GetShortName(n))
    ensures forall j :: |categories| <= j < |r| ==> r[j].shortName in Categories.ShortNamesOf(RequirementCategoryNames(cls, isObsolete))
  {
    var names := RequirementCategoryNames(cls, isObsolete);
    Categories.MapCategoryNames(categories, names, [Requirement], ctx.libraries, ctx.uuid, ctx.writeSucceeds)
  }

  // Definitions

  /** Whether a definition is in English: its language code is "en",
      ignoring case. */
  predicate IsEnglish(d: DefinitionThing) {
    |d.languageCode| == 2 && ToLower(d.languageCode[0]) == 'e' && ToLower(d.languageCode[1]) == 'n'
  }

  lemma IsEnglishIgnoresCase(d: DefinitionThing)
    ensures IsEnglish(d) <==> EqualsIgnoreCase(d.languageCode, "en")
  {
  }

  /** The position of the first English definition from `k` on. */
  function FirstEnglish(definitions: seq<DefinitionThing>, k: nat): (r: Option<nat>)
    requires k <= |definitions|
    ensures r.Some? ==> k <= r.value < |definitions| && IsEnglish(definitions[r.value])
    ensures r.Some? ==> forall j :: k <= j < r.value ==> !IsEnglish(definitions[j])
    ensures r.None? <==> forall i :: k <= i < |definitions| ==> !IsEnglish(definitions[i])
    decreases |definitions| - k
  {
    if k == |definitions| then None
    else if IsEnglish(definitions[k]) then Some(k)
    else FirstEnglish(definitions, k + 1)
  }

  /** `createDefinition`: a new definition in language "en" with no content. */
  function NewDefinition(iid: string): (r: DefinitionThing)
    ensures r.iid == iid && r.languageCode == "en" && IsEnglish(r)
  {
    DefinitionThing(iid, "en", "")
  }

  /** A definition's identifier, the key definitions are replaced by. */
  function DefinitionIid(d: DefinitionThing): string { d.iid }

  /** `UpdateOrCreateDefinition`: the first English definition (or a new one
      under `newIid` when there is none) takes the description as content and
      replaces every definition with its iid, at the end. It is then the only
      definition with that iid, and every definition with another iid is
      kept. */
  function UpdateOrCreateDefinition(definitions: seq<DefinitionThing>, description: string, newIid: string): (r: seq<DefinitionThing>)
    ensures |r| >= 1 && r[|r| - 1].content == description && IsEnglish(r[|r| - 1])
    ensures forall i :: 0 <= i < |r| - 1 ==> r[i].iid != r[|r| - 1].iid && r[i] in definitions
    ensures forall i :: 0 <= i < |definitions| && definitions[i].iid != r[|r| - 1].iid ==> definitions[i] in r
    ensures FirstEnglish(definitions, 0).None? ==> r[|r| - 1] == DefinitionThing(newIid, "en", description)
    ensures FirstEnglish(definitions, 0).Some? ==>
      r[|r| - 1] == definitions[FirstEnglish(definitions, 0).value].(content := description)
  {
    var d := match FirstEnglish(definitions, 0)
      case Some(e) => definitions[e]
      case None => NewDefinition(newIid);
    var updated := d.(content := description);
    var r := WithoutKey(definitions, DefinitionIid, updated.iid) + [updated];
    assert forall i :: 0 <= i < |r| - 1 ==> r[i] == WithoutKey(definitions, DefinitionIid, updated.iid)[i];
    r
  }

  /** Whether every English definition shares one iid (as when there is at
      most one English definition). */
  predicate EnglishShareIid(definitions: seq<DefinitionThing>) {
    forall i, j :: 0 <= i < |definitions| && 0 <= j < |definitions| && IsEnglish(definitions[i]) && IsEnglish(definitions[j]) ==>
      definitions[i].iid == definitions[j].iid
  }

  /** When the English definitions share one iid, the update leaves a single
      English definition, the last one; updating again with the same
      description, whatever fresh iid is at hand, changes nothing. */
  lemma DefinitionUpdateIdempotent(definitions: seq<DefinitionThing>, description: string, newIid: string, newIid2: string)
    requires EnglishShareIid(definitions)
    ensures var r := UpdateOrCreateDefinition(definitions, description, newIid);
      && (forall i :: 0 <= i < |r| - 1 ==> !IsEnglish(r[i]))
      && UpdateOrCreateDefinition(r, description, newIid2) == r
  {
    var r := UpdateOrCreateDefinition(definitions, description, newIid);
    var last := r[|r| - 1];
    var kept := r[..|r| - 1];
    assert r == kept + [last];
    assert kept == WithoutKey(definitions, DefinitionIid, last.iid);
    forall i | 0 <= i < |kept|
      ensures !IsEnglish(kept[i])
    {
      assert kept[i] == r[i];
      var j :| 0 <= j < |definitions| && definitions[j] == kept[i];
    }
    FirstEnglishAfterNone(r, |r| - 1);
    assert FirstEnglish(r, 0) == Some(|r| - 1);
    WithoutKeyOfLast(kept, last, DefinitionIid);
  }

  /** With no English definition before position `k`, the first one from 0
      is the first one from `k`. */
  lemma {:induction false} FirstEnglishAfterNone(definitions: seq<DefinitionThing>, k: nat)
    requires k <= |definitions|
    requires forall i :: 0 <= i < k ==> !IsEnglish(definitions[i])
    ensures FirstEnglish(definitions, 0) == FirstEnglish(definitions, k)
    decreases k
  {
    if k > 0 {
      FirstEnglishAfterNone(definitions, k - 1);
    }
  }

  // Requirements

  /** The first requirement from position `k` on with short name `shortName`. */
  function FindRequirement(requirements: seq<RequirementThing>, shortName: string, k: nat): (r: Option<RequirementThing>)
    requires k <= |requirements|
    ensures r.Some? ==> r.value in requirements && r.value.thing.shortName == shortName
    ensures r.None? <==> forall i :: k <= i < |requirements| ==> requirements[i].thing.shortName != shortName
    decreases |requirements| - k
  {
    if k == |requirements| then None
    else if requirements[k].thing.shortName == shortName then Some(requirements[k])
    else FindRequirement(requirements, shortName, k + 1)
  }

  /** The Hub requirement `TryGetOrCreateRequirement` creates for a Capella
      requirement: a fresh iid, its name and short name, in the group at hand
      (none: under the specification), without definitions or categories. */
  function NewRequirement(name: string, iid: string, group: Option<GroupThing>): (r: RequirementThing)
    ensures r.thing == Thing(iid, Requirement, name, GetShortName(name))
    ensures r.group.Some? <==> group.Some?
    ensures group.Some? ==> r.group.value == group.value.thing.iid
    ensures r.definitions == [] && r.categories == []
  {
    RequirementThing(Thing(iid, Requirement, name, GetShortName(name)),
                     if group.Some? then Some(group.value.thing.iid) else None, [], [])
  }

  /** A requirement's identifier, the key requirements are replaced by. */
  function RequirementIid(x: RequirementThing): string { x.thing.iid }

  /** The fresh identifiers one requirement mapping may use: for a new
      requirement and for a new definition. */
  datatype Fresh = Fresh(requirement: string, definition: string)

  /** The requirement `TryGetOrCreateRequirement` starts from: the one found
      by short name, or a new one in the current group. */
  function RequirementBase(spec: SpecificationContents, group: Option<GroupThing>, requirement: Element, ids: Fresh): (r: RequirementThing)
    ensures r.thing.shortName == GetShortName(requirement.name)
  {
    match FindRequirement(spec.requirements, GetShortName(requirement.name), 0)
    case Some(x) => x
    case None => NewRequirement(requirement.name, ids.requirement, group)
  }

  /** What `TryGetOrCreateRequirement` does to the requirement it starts
      from: `UpdateOrCreateDefinition` with the description, then
      `MapCategories`; its thing and group stay. */
  function Describe(base: RequirementThing, requirement: Element, isObsolete: bool, ids: Fresh, ctx: CategoryContext): (r: RequirementThing)
    ensures r.thing == base.thing && r.group == base.group
    ensures |r.definitions| >= 1 && r.definitions[|r.definitions| - 1].content == requirement.description
    ensures r.definitions == UpdateOrCreateDefinition(base.definitions, requirement.description, ids.definition)
    ensures r.categories == MapCategories(base.categories, requirement.cls, isObsolete, ctx)
  {
    base.(definitions := UpdateOrCreateDefinition(base.definitions, requirement.description, ids.definition),
          categories := MapCategories(base.categories, requirement.cls, isObsolete, ctx))
  }

  /** `removeIf(same iid)` followed by `add` on the specification's
      requirements: `x` ends up last and is the only requirement with its
      iid; every requirement with another iid is kept. */
  function PlaceRequirement(requirements: seq<RequirementThing>, x: RequirementThing): (r: seq<RequirementThing>)
    ensures |r| >= 1 && r[|r| - 1] == x
    ensures forall i :: 0 <= i < |r| - 1 ==> r[i].thing.iid != x.thing.iid && r[i] in requirements
    ensures forall i :: 0 <= i < |requirements| && requirements[i].thing.iid != x.thing.iid ==> requirements[i] in r
  {
    var kept := WithoutKey(requirements, RequirementIid, x.thing.iid);
    assert forall i :: 0 <= i < |kept| ==> (kept + [x])[i] == kept[i];
    kept + [x]
  }

  /** `TryGetOrCreateRequirement`: the specification's requirement with the
      Capella requirement's short name, or else a new one in the current
      group, which is added to the specification; described and
      categorized, it then replaces every requirement with its iid. */
  function TryGetOrCreateRequirement(spec: SpecificationContents, group: Option<GroupThing>, requirement: Element,
                                     isObsolete: bool, ids: Fresh, ctx: CategoryContext): (r: (SpecificationContents, RequirementThing))
    ensures r.0.thing == spec.thing && r.0.groups == spec.groups
    ensures |r.0.requirements| >= 1 && r.0.requirements[|r.0.requirements| - 1] == r.1
    ensures forall i :: 0 <= i < |r.0.requirements| - 1 ==>
      r.0.requirements[i].thing.iid != r.1.thing.iid && r.0.requirements[i] in spec.requirements
    ensures r.1 == Describe(RequirementBase(spec, group, requirement, ids), requirement, isObsolete, ids, ctx)
    ensures FindRequirement(spec.requirements, GetShortName(requirement.name), 0).Some? ==>
      r.0.requirements == PlaceRequirement(spec.requirements, r.1)
  {
    var base := RequirementBase(spec, group, requirement, ids);
    var found := FindRequirement(spec.requirements, GetShortName(requirement.name), 0).Some?;
    var listed := if found then spec.requirements else spec.requirements + [base];
    var mapped := Describe(base, requirement, isObsolete, ids, ctx);
    var placed := PlaceRequirement(listed, mapped);
    assert forall i :: 0 <= i < |placed| - 1 ==> placed[i] in spec.requirements by {
      if !found {
        PlacedOverAdded(spec.requirements, base, mapped);
      }
    }
    (spec.(requirements := placed), mapped)
  }

  /** Adding a requirement and then placing one with the same iid keeps,
      in front of it, only requirements that were there before. */
  lemma PlacedOverAdded(requirements: seq<RequirementThing>, added: RequirementThing, x: RequirementThing)
    requires added.thing.iid == x.thing.iid
    ensures var placed := PlaceRequirement(requirements + [added], x);
      forall i :: 0 <= i < |placed| - 1 ==> placed[i] in requirements
  {
    var placed := PlaceRequirement(requirements + [added], x);
    forall i | 0 <= i < |placed| - 1
      ensures placed[i] in requirements
    {
      assert placed[i] in requirements + [added] && placed[i].thing.iid != added.thing.iid;
    }
  }

  /** The last requirement is the one found when it alone has the short name. */
  lemma {:induction false} FindOnlyLast(requirements: seq<RequirementThing>, shortName: string, k: nat)
    requires k < |requirements| && requirements[|requirements| - 1].thing.shortName == shortName
    requires forall i :: 0 <= i < |requirements| - 1 ==> requirements[i].thing.shortName != shortName
    ensures FindRequirement(requirements, shortName, k) == Some(requirements[|requirements| - 1])
    decreases |requirements| - k
  {
    if k < |requirements| - 1 {
      FindOnlyLast(requirements, shortName, k + 1);
    }
  }

  /** After a requirement new to the specification is mapped, looking it up
      by its short name finds the mapped requirement. */
  lemma FoundAfterMapping(spec: SpecificationContents, group: Option<GroupThing>, requirement: Element, isObsolete: bool,
                          ids: Fresh, ctx: CategoryContext)
    requires FindRequirement(spec.requirements, GetShortName(requirement.name), 0).None?
    ensures var r := TryGetOrCreateRequirement(spec, group, requirement, isObsolete, ids, ctx);
      FindRequirement(r.0.requirements, GetShortName(requirement.name), 0) == Some(r.1)
  {
    var r := TryGetOrCreateRequirement(spec, group, requirement, isObsolete, ids, ctx);
    FoundLast(spec.requirements, r.0.requirements, GetShortName(requirement.name));
  }

  /** A list of requirements drawn from ones without the short name, then one
      with it, yields that last one to a lookup. */
  lemma FoundLast(requirements: seq<RequirementThing>, placed: seq<RequirementThing>, shortName: string)
    requires |placed| >= 1 && placed[|placed| - 1].thing.shortName == shortName
    requires forall i :: 0 <= i < |placed| - 1 ==> placed[i] in requirements
    requires FindRequirement(requirements, shortName, 0).None?
    ensures FindRequirement(placed, shortName, 0) == Some(placed[|placed| - 1])
  {
    forall i | 0 <= i < |placed| - 1
      ensures placed[i].thing.shortName != shortName
    {
      var j :| 0 <= j < |requirements| && requirements[j] == placed[i];
    }
    FindOnlyLast(placed, shortName, 0);
  }

  /** A requirement new to the specification is found again by a second
      mapping, whatever identifiers and categories are at hand then: the
      same Hub requirement, group and definitions, and the specification
      does not grow. */
  lemma RequirementMappedOnce(spec: SpecificationContents, group: Option<GroupThing>, requirement: Element, isObsolete: bool,
                              ids: Fresh, ctx: CategoryContext, group2: Option<GroupThing>, ids2: Fresh, ctx2: CategoryContext)
    requires FindRequirement(spec.requirements, GetShortName(requirement.name), 0).None?
    ensures var r1 := TryGetOrCreateRequirement(spec, group, requirement, isObsolete, ids, ctx);
      var r2 := TryGetOrCreateRequirement(r1.0, group2, requirement, isObsolete, ids2, ctx2);
      && r2.1.thing == r1.1.thing && r2.1.group == r1.1.group && r2.1.definitions == r1.1.definitions
      && |r2.0.requirements| == |r1.0.requirements|
  {
    var r1 := TryGetOrCreateRequirement(spec, group, requirement, isObsolete, ids, ctx);
    var r2 := TryGetOrCreateRequirement(r1.0, group2, requirement, isObsolete, ids2, ctx2);
    RemappedFromFound(spec, group, requirement, isObsolete, ids, ctx, group2, ids2, ctx2);
    RemapKeeps(r1.0.requirements, r1.1, r2.1, r2.0.requirements, requirement.description, ids.definition, ids2.definition);
  }

  /** Describing again a requirement just placed last, whose only
      definition came from the same description, keeps its definitions and
      replaces it in place. */
  lemma RemapKeeps(placed: seq<RequirementThing>, x1: RequirementThing, x2: RequirementThing, replaced: seq<RequirementThing>,
                   description: string, definitionIid: string, definitionIid2: string)
    requires |placed| >= 1 && placed[|placed| - 1] == x1
    requires forall i :: 0 <= i < |placed| - 1 ==> placed[i].thing.iid != x1.thing.iid
    requires x1.definitions == UpdateOrCreateDefinition([], description, definitionIid)
    requires x2.thing == x1.thing && x2.definitions == UpdateOrCreateDefinition(x1.definitions, description, definitionIid2)
    requires replaced == PlaceRequirement(placed, x2)
    ensures x2.definitions == x1.definitions && |replaced| == |placed|
  {
    DefinitionUpdateIdempotent([], description, definitionIid, definitionIid2);
    PlaceOverLast(placed, x2);
  }

  /** The second mapping of a requirement new to the specification starts
      from the first mapping's result and places over it. */
  lemma RemappedFromFound(spec: SpecificationContents, group: Option<GroupThing>, requirement: Element, isObsolete: bool,
                          ids: Fresh, ctx: CategoryContext, group2: Option<GroupThing>, ids2: Fresh, ctx2: CategoryContext)
    requires FindRequirement(spec.requirements, GetShortName(requirement.name), 0).None?
    ensures var r1 := TryGetOrCreateRequirement(spec, group, requirement, isObsolete, ids, ctx);
      var r2 := TryGetOrCreateRequirement(r1.0, group2, requirement, isObsolete, ids2, ctx2);
      && r1.1.definitions == UpdateOrCreateDefinition([], requirement.description, ids.definition)
      && r2.1.thing == r1.1.thing && r2.1.group == r1.1.group
      && r2.1.definitions == UpdateOrCreateDefinition(r1.1.definitions, requirement.description, ids2.definition)
      && r2.0.requirements == PlaceRequirement(r1.0.requirements, r2.1)
  {
    var r1 := TryGetOrCreateRequirement(spec, group, requirement, isObsolete, ids, ctx);
    FoundAfterMapping(spec, group, requirement, isObsolete, ids, ctx);
    assert RequirementBase(spec, group, requirement, ids).definitions == [];
    assert RequirementBase(r1.0, group2, requirement, ids2) == r1.1;
  }

  /** Placing a requirement with the iid of the last one, which no other
      shares, replaces the last one: the list keeps its length. */
  lemma PlaceOverLast(requirements: seq<RequirementThing>, x: RequirementThing)
    requires |requirements| >= 1 && requirements[|requirements| - 1].thing.iid == x.thing.iid
    requires forall i :: 0 <= i < |requirements| - 1 ==> requirements[i].thing.iid != x.thing.iid
    ensures PlaceRequirement(requirements, x) == requirements[..|requirements| - 1] + [x]
  {
    var n := |requirements|;
    var prefix := requirements[..n - 1];
    assert requirements == prefix + [requirements[n - 1]];
    WithoutKeyOfLast(prefix, requirements[n - 1], RequirementIid);
  }

  // Specifications

  /** The position of the first specification from `k` on with short name
      `shortName`. */
  function FindSpecification(specs: seq<SpecificationContents>, shortName: string, k: nat): (r: Option<nat>)
    requires k <= |specs|
    ensures r.Some? ==> k <= r.value < |specs| && specs[r.value].thing.shortName == shortName
    ensures r.Some? ==> forall j :: k <= j < r.value ==> specs[j].thing.shortName != shortName
    ensures r.None? <==> forall i :: k <= i < |specs| ==> specs[i].thing.shortName != shortName
    decreases |specs| - k
  {
    if k == |specs| then None
    else if specs[k].thing.shortName == shortName then Some(k)
    else FindSpecification(specs, shortName, k + 1)
  }

  /** The specification created for a package: a fresh iid, the package's
      name and short name, nothing in it yet. */
  function NewSpecification(name: string, iid: string): (r: SpecificationContents)
    ensures r.thing == Thing(iid, RequirementsSpecification, name, GetShortName(name))
    ensures r.requirements == [] && r.groups == []
  {
    SpecificationContents(Thing(iid, RequirementsSpecification, name, GetShortName(name)), [], [])
  }

  /** `TryGetOrCreateRequirementSpecification`: the specification with the
      package's short name among those already mapped in this transform (the
      cache), else among the open iteration's, else a new one; whatever is
      not taken from the cache is added to it. */
  function TryGetOrCreateRequirementSpecification(cache: seq<SpecificationContents>, iteration: seq<SpecificationContents>,
                                                  packageName: string, iid: string): (r: (SpecificationContents, seq<SpecificationContents>))
    ensures r.0.thing.shortName == GetShortName(packageName)
    ensures var c := FindSpecification(cache, GetShortName(packageName), 0);
      && (c.Some? ==> r.0 == cache[c.value] && r.1 == cache)
      && (c.None? ==> r.1 == cache + [r.0])
    ensures var c := FindSpecification(cache, GetShortName(packageName), 0);
      var i := FindSpecification(iteration, GetShortName(packageName), 0);
      && (c.None? && i.Some? ==> r.0 == iteration[i.value])
      && (c.None? && i.None? ==> r.0 == NewSpecification(packageName, iid))
  {
    var shortName := GetShortName(packageName);
    match FindSpecification(cache, shortName, 0)
    case Some(c) => (cache[c], cache)
    case None =>
      var spec := match FindSpecification(iteration, shortName, 0)
        case Some(i) => iteration[i]
        case None => NewSpecification(packageName, iid);
      (spec, cache + [spec])
  }

  /** The cache holds the specification objects themselves, so what is added
      to a specification after the lookup is seen by the next one: the
      specification with the same iid is written back in place. */
  function Remember(cache: seq<SpecificationContents>, spec: SpecificationContents): (r: seq<SpecificationContents>)
    ensures |r| == |cache|
    ensures forall i :: 0 <= i < |cache| && cache[i].thing.iid == spec.thing.iid ==> r[i] == spec
    ensures forall i :: 0 <= i < |cache| && cache[i].thing.iid != spec.thing.iid ==> r[i] == cache[i]
  {
    seq(|cache|, i requires 0 <= i < |cache| => if cache[i].thing.iid == spec.thing.iid then spec else cache[i])
  }

  /** Within one transform, a package's specification is reused: once it has
      been looked up (and whatever was added to it written back), looking up
      the same package again returns it, with its additions, whatever the
      iteration holds and whatever fresh iid is at hand, and leaves the cache
      as it is. */
  lemma SpecificationReused(cache: seq<SpecificationContents>, iteration: seq<SpecificationContents>, packageName: string, iid: string,
                            updated: SpecificationContents, iteration2: seq<SpecificationContents>, iid2: string)
    requires updated.thing == TryGetOrCreateRequirementSpecification(cache, iteration, packageName, iid).0.thing
    ensures var cache1 := Remember(TryGetOrCreateRequirementSpecification(cache, iteration, packageName, iid).1, updated);
      TryGetOrCreateRequirementSpecification(cache1, iteration2, packageName, iid2) == (updated, cache1)
  {
    var (spec, cache0) := TryGetOrCreateRequirementSpecification(cache, iteration, packageName, iid);
    var cache1 := Remember(cache0, updated);
    var sn := GetShortName(packageName);
    if FindSpecification(cache, sn, 0).None? {
      assert cache0[|cache|] == spec;
      FindSpecificationAfterNone(cache0, sn, |cache|);
    }
    var m := FindSpecification(cache0, sn, 0).value;
    assert cache0[m] == spec;
    assert cache1[m] == updated;
    forall j | 0 <= j < m
      ensures cache1[j].thing.shortName != sn || cache1[j] == updated
    {
    }
    var f := FindSpecification(cache1, sn, 0).value;
    assert f <= m;
    assert cache1[f] == updated;
  }

  /** With no match before position `k`, the first match from 0 is the first
      match from `k`. */
  lemma {:induction false} FindSpecificationAfterNone(specs: seq<SpecificationContents>, shortName: string, k: nat)
    requires k <= |specs|
    requires forall i :: 0 <= i < k ==> specs[i].thing.shortName != shortName
    ensures FindSpecification(specs, shortName, 0) == FindSpecification(specs, shortName, k)
    decreases k
  {
    if k > 0 {
      FindSpecificationAfterNone(specs, shortName, k - 1);
    }
  }

  // Groups

  /** The position of the first group from `k` on with short name
      `shortName`. */
  function FindGroup(groups: seq<GroupThing>, shortName: string, k: nat): (r: Option<nat>)
    requires k <= |groups|
    ensures r.Some? ==> k <= r.value < |groups| && groups[r.value].thing.shortName == shortName
    ensures r.None? <==> forall i :: k <= i < |groups| ==> groups[i].thing.shortName != shortName
    decreases |groups| - k
  {
    if k == |groups| then None
    else if groups[k].thing.shortName == shortName then Some(k)
    else FindGroup(groups, shortName, k + 1)
  }

  /** With no match before position `k`, the first match from 0 is the first
      match from `k`. */
  lemma {:induction false} FindGroupAfterNone(groups: seq<GroupThing>, shortName: string, k: nat)
    requires k <= |groups|
    requires forall i :: 0 <= i < k ==> groups[i].thing.shortName != shortName
    ensures FindGroup(groups, shortName, 0) == FindGroup(groups, shortName, k)
    decreases k
  {
    if k > 0 {
      FindGroupAfterNone(groups, shortName, k - 1);
    }
  }

  /** The group created for a package: a fresh iid, the package's name and
      short name, inside the current group, or directly in the specification
      when there is none. */
  function NewGroup(name: string, iid: string, current: Option<GroupThing>): (r: GroupThing)
    ensures r.thing == Thing(iid, RequirementsGroup, name, GetShortName(name))
    ensures r.parent.Some? <==> current.Some?
    ensures current.Some? ==> r.parent.value == current.value.thing.iid
  {
    GroupThing(Thing(iid, RequirementsGroup, name, GetShortName(name)),
               if current.Some? then Some(current.value.thing.iid) else None)
  }

  /** `TryGetOrCreateRequirementGroup` with `TryToFindGroup`: the first group
      with the package's short name among the groups created in this
      transform and then those of the specification; else a new group in the
      current one, added to the specification and to the groups created.
      Found, nothing changes; the specification's requirements never do. */
  function TryGetOrCreateRequirementGroup(temporaries: seq<GroupThing>, spec: SpecificationContents, current: Option<GroupThing>,
                                          packageName: string, iid: string): (r: (GroupThing, SpecificationContents, seq<GroupThing>))
    ensures r.0.thing.shortName == GetShortName(packageName)
    ensures r.1.thing == spec.thing && r.1.requirements == spec.requirements
    ensures var f := FindGroup(temporaries + spec.groups, GetShortName(packageName), 0);
      && (f.Some? ==> r.0 == (temporaries + spec.groups)[f.value] && r.1 == spec && r.2 == temporaries)
      && (f.None? ==> r.0 == NewGroup(packageName, iid, current) && r.1.groups == spec.groups + [r.0] && r.2 == temporaries + [r.0])
  {
    var all := temporaries + spec.groups;
    match FindGroup(all, GetShortName(packageName), 0)
    case Some(f) => (all[f], spec, temporaries)
    case None =>
      var g := NewGroup(packageName, iid, current);
      (g, spec.(groups := spec.groups + [g]), temporaries + [g])
  }

  /** A package's group is found again: once it has been found or created,
      looking up the same package (while the groups stay as they are) returns
      the same group and changes nothing, whatever the current group and the
      fresh iid. */
  lemma GroupReused(temporaries: seq<GroupThing>, spec: SpecificationContents, current: Option<GroupThing>, packageName: string, iid: string,
                    spec2: SpecificationContents, current2: Option<GroupThing>, iid2: string)
    requires spec2.groups == TryGetOrCreateRequirementGroup(temporaries, spec, current, packageName, iid).1.groups
    ensures var r := TryGetOrCreateRequirementGroup(temporaries, spec, current, packageName, iid);
      TryGetOrCreateRequirementGroup(r.2, spec2, current2, packageName, iid2) == (r.0, spec2, r.2)
  {
    var r := TryGetOrCreateRequirementGroup(temporaries, spec, current, packageName, iid);
    var sn := GetShortName(packageName);
    var all := temporaries + spec.groups;
    if FindGroup(all, sn, 0).None? {
      var all2 := r.2 + spec2.groups;
      assert all2[|temporaries|] == r.0;
      forall i | 0 <= i < |temporaries|
        ensures all2[i].thing.shortName != sn
      {
        assert all2[i] == all[i];
      }
      FindGroupAfterNone(all2, sn, |temporaries|);
    }
  }

  /** Sibling requirements share their group: two requirements new to the
      specification, with different short names and in the same package, are
      mapped one after the other; the second finds the group created or
      found for the first, and both requirements are placed in it. */
  lemma SiblingsShareGroup(temporaries: seq<GroupThing>, spec: SpecificationContents, packageName: string, iid1: string, iid2: string,
                           first: Element, second: Element, isObsolete1: bool, isObsolete2: bool,
                           ids1: Fresh, ids2: Fresh, ctx1: CategoryContext, ctx2: CategoryContext)
    requires FindGroup(temporaries + spec.groups, GetShortName(packageName), 0).None?
    requires FindRequirement(spec.requirements, GetShortName(first.name), 0).None?
    requires FindRequirement(spec.requirements, GetShortName(second.name), 0).None?
    requires GetShortName(first.name) != GetShortName(second.name)
    ensures var g1 := TryGetOrCreateRequirementGroup(temporaries, spec, None, packageName, iid1);
      var r1 := TryGetOrCreateRequirement(g1.1, Some(g1.0), first, isObsolete1, ids1, ctx1);
      var g2 := TryGetOrCreateRequirementGroup(g1.2, r1.0, None, packageName, iid2);
      var r2 := TryGetOrCreateRequirement(g2.1, Some(g2.0), second, isObsolete2, ids2, ctx2);
      && g2.0 == g1.0
      && r1.1.group == Some(g1.0.thing.iid) && r2.1.group == Some(g1.0.thing.iid)
  {
    var g1 := TryGetOrCreateRequirementGroup(temporaries, spec, None, packageName, iid1);
    var r1 := TryGetOrCreateRequirement(g1.1, Some(g1.0), first, isObsolete1, ids1, ctx1);
    GroupReused(temporaries, spec, None, packageName, iid1, r1.0, None, iid2);
    var g2 := TryGetOrCreateRequirementGroup(g1.2, r1.0, None, packageName, iid2);
    assert g2.1 == r1.0;
    NotFoundAfterPlacing(g1.1.requirements, r1.0.requirements, GetShortName(second.name));
  }

  /** A list of requirements drawn from ones without the short name, then one
      with another, has none with it. */
  lemma NotFoundAfterPlacing(requirements: seq<RequirementThing>, placed: seq<RequirementThing>, shortName: string)
    requires |placed| >= 1 && placed[|placed| - 1].thing.shortName != shortName
    requires forall i :: 0 <= i < |placed| - 1 ==> placed[i] in requirements
    requires FindRequirement(requirements, shortName, 0).None?
    ensures FindRequirement(placed, shortName, 0).None?
  {
    forall i | 0 <= i < |placed| - 1
      ensures placed[i].thing.shortName != shortName
    {
      var j :| 0 <= j < |requirements| && requirements[j] == placed[i];
    }
  }

  // The descent from the specification's package to the requirement

  /** The groups `TryCreateRelevantGroupsAndTheRequirement` settles on while
      it descends the package tree: `path` holds the names of the packages
      between the specification's package and the requirement, outermost
      first, and each one's group is found or created inside the previous
      one's. A new group's iid is the one `iidOf` gives for its package. */
  function {:induction false} GroupsAlong(temporaries: seq<GroupThing>, spec: SpecificationContents, current: Option<GroupThing>,
                                          path: seq<string>, iidOf: string -> string): (r: (Option<GroupThing>, SpecificationContents, seq<GroupThing>))
    ensures r.1.thing == spec.thing && r.1.requirements == spec.requirements
    ensures path == [] ==> r == (current, spec, temporaries)
    ensures path != [] ==> r.0.Some? && r.0.value.thing.shortName == GetShortName(path[|path| - 1])
    ensures path != [] ==> r.0.value in r.2 + r.1.groups
    ensures |r.2| >= |temporaries| && r.2[..|temporaries|] == temporaries
    decreases |path|
  {
    if path == [] then (current, spec, temporaries)
    else
      var g := TryGetOrCreateRequirementGroup(temporaries, spec, current, path[0], iidOf(path[0]));
      assert |path| > 1 ==> path[1..][|path| - 2] == path[|path| - 1];
      var r := GroupsAlong(g.2, g.1, Some(g.0), path[1..], iidOf);
      assert r.2[..|temporaries|] == temporaries by {
        assert g.2[..|temporaries|] == temporaries;
        assert r.2[..|g.2|] == g.2;
      }
      r
  }

  /** One requirement's mapping into its specification: the groups along
      its path, then the requirement itself in the innermost one. A
      requirement new to the specification is placed in the group of the
      package that holds it, or directly in the specification when that is
      the specification's own package; one already there keeps its group. */
  function MapRequirementAlong(temporaries: seq<GroupThing>, spec: SpecificationContents, path: seq<string>, iidOf: string -> string,
                               requirement: Element, isObsolete: bool, ids: Fresh, ctx: CategoryContext)
    : (r: (SpecificationContents, seq<GroupThing>, RequirementThing))
    ensures r.0.thing == spec.thing
    ensures |r.0.requirements| >= 1 && r.0.requirements[|r.0.requirements| - 1] == r.2
    ensures r.2.thing.shortName == GetShortName(requirement.name)
    ensures var f := FindRequirement(spec.requirements, GetShortName(requirement.name), 0);
      && (f.Some? ==> r.2.thing == f.value.thing && r.2.group == f.value.group)
      && (f.None? && path == [] ==> r.2.group == None)
      && (f.None? && path != [] ==>
            exists x :: x in r.1 + r.0.groups && x.thing.shortName == GetShortName(path[|path| - 1]) && r.2.group == Some(x.thing.iid))
  {
    var g := GroupsAlong(temporaries, spec, None, path, iidOf);
    var m := TryGetOrCreateRequirement(g.1, g.0, requirement, isObsolete, ids, ctx);
    var base := RequirementBase(g.1, g.0, requirement, ids);
    assert m.1.group == base.group;
    assert FindRequirement(spec.requirements, GetShortName(requirement.name), 0).None? && path != [] ==>
      base.group == Some(g.0.value.thing.iid) && g.0.value in g.2 + m.0.groups;
    (m.0, g.2, m.1)
  }
}
