/** `ComponentToElementMappingRule`: a Capella component becomes a Hub
    element definition; its contained components become element usages of
    it, its ports become usages of the shared "Port" definition, and it gets
    categories from its kind. Hub writes and fresh identifiers are
    parameters. */
module ComponentToElement {
  import opened Wrappers
  import opened Text
  import opened Capella
  import opened Hub
  import opened ShortNames
  import Categories

  /** Capella's `OrientationPortKind`. */
  datatype Orientation = Unset | In | Out | InOut

  /** The Hub's `InterfaceEndKind`. */
  datatype InterfaceEnd = NoEnd | Undirected | Input | Output | InputOutput

  /** A Capella `ComponentPort`: its name, orientation and the names of its
      required interfaces. */
  datatype Port = Port(name: string, orientation: Orientation, requiredInterfaces: seq<string>)

  /** A Hub `ElementUsage`: the usage itself, the iid of the element
      definition it uses, its interface end and its definitions. */
  datatype Usage = Usage(thing: Thing, definitionIid: string, interfaceEnd: InterfaceEnd, definitions: seq<DefinitionThing>)

  /** The language code under which a usage records the Capella identifier of
      the component it stands for. */
  const CIID := "CIID"

  /** The name of the element definition every port usage uses. */
  const PortDefinitionName := "Port"

  // Ports

  /** `GetInterfaceEndForPort`: each orientation has its own interface end,
      and a port usage never gets `NONE`. */
  function GetInterfaceEndForPort(orientation: Orientation): (r: InterfaceEnd)
    ensures r != NoEnd
    ensures r == Input <==> orientation == In
    ensures r == InputOutput <==> orientation == InOut
    ensures r == Output <==> orientation == Out
    ensures r == Undirected <==> orientation == Unset
  {
    match orientation
    case In => Input
    case InOut => InputOutput
    case Out => Output
    case Unset => Undirected
  }

  /** How many usages are ports: those with an interface end. */
  function {:induction false} PortCount(usages: seq<Usage>): (n: nat)
    ensures n <= |usages|
    ensures n == 0 <==> forall i :: 0 <= i < |usages| ==> usages[i].interfaceEnd == NoEnd
  {
    if usages == [] then 0
    else
      var tail := usages[1..];
      assert forall i :: 0 <= i < |tail| ==> tail[i] == usages[i + 1];
      (if usages[0].interfaceEnd != NoEnd then 1 else 0) + PortCount(tail)
  }

  /** The name a port gets after its container: "<definition>_port",
      followed by the number of ports already there when there are some. */
  function FallbackPortName(definitionName: string, portNumber: nat): (r: string)
    ensures |r| >= |definitionName| + 5 && r[..|definitionName| + 5] == definitionName + "_port"
    ensures portNumber == 0 <==> |r| == |definitionName| + 5
  {
    if portNumber > 0 then definitionName + "_port" + NatToString(portNumber) else definitionName + "_port"
  }

  /** `GetPortName`: the port's own name unless it is blank, else the name of
      its only required interface, else a name after its container. */
  function GetPortName(definitionName: string, usages: seq<Usage>, port: Port): (r: string)
    ensures !IsBlank(port.name) ==> r == port.name
    ensures IsBlank(port.name) && |port.requiredInterfaces| == 1 ==> r == port.requiredInterfaces[0]
    ensures IsBlank(port.name) && |port.requiredInterfaces| != 1 ==>
      r == FallbackPortName(definitionName, PortCount(usages))
  {
    if !IsBlank(port.name) then port.name
    else if |port.requiredInterfaces| == 1 then port.requiredInterfaces[0]
    else FallbackPortName(definitionName, PortCount(usages))
  }

  /** Names made after the container differ as soon as the port counts do. */
  lemma FallbackPortNamesDistinct(definitionName: string, a: nat, b: nat)
    ensures FallbackPortName(definitionName, a) == FallbackPortName(definitionName, b) ==> a == b
  {
    var prefix := definitionName + "_port";
    if a > 0 && b > 0 && FallbackPortName(definitionName, a) == FallbackPortName(definitionName, b) {
      var x := FallbackPortName(definitionName, a);
      assert x[|prefix|..] == NatToString(a);
      assert x[|prefix|..] == NatToString(b);
      NatToStringInjective(a, b);
    }
  }

  /** The first usage named `name`. */
  function {:induction false} UsageNamed(usages: seq<Usage>, name: string, k: nat): (r: Option<nat>)
    requires k <= |usages|
    ensures r.Some? ==> k <= r.value < |usages| && usages[r.value].thing.name == name
    ensures r.Some? ==> forall i :: k <= i < r.value ==> usages[i].thing.name != name
    ensures r.None? ==> forall i :: k <= i < |usages| ==> usages[i].thing.name != name
    decreases |usages| - k
  {
    if k == |usages| then None
    else if usages[k].thing.name == name then Some(k)
    else UsageNamed(usages, name, k + 1)
  }

  /** The usage a new port gets: its name and short name, a fresh iid, the
      port definition and the port's interface end. */
  function NewPortUsage(name: string, iid: string, portDefinition: Thing, port: Port): (r: Usage)
    ensures r.thing.name == name && r.thing.shortName == GetShortName(name) && r.thing.iid == iid
    ensures r.definitionIid == portDefinition.iid && r.interfaceEnd == GetInterfaceEndForPort(port.orientation)
  {
    Usage(Thing(iid, ElementUsage, name, GetShortName(name)), portDefinition.iid,
          GetInterfaceEndForPort(port.orientation), [])
  }

  /** `after` is `before` with only port usages of `portDefinition`
      appended. */
  predicate Extends(before: seq<Usage>, after: seq<Usage>, portDefinition: Thing) {
    && |after| >= |before| && after[..|before|] == before
    && forall i :: |before| <= i < |after| ==>
         after[i].definitionIid == portDefinition.iid && after[i].interfaceEnd != NoEnd
  }

  lemma ExtendsTransitive(a: seq<Usage>, b: seq<Usage>, c: seq<Usage>, portDefinition: Thing, x: Usage)
    requires Extends(a, b, portDefinition) && Extends(b, c, portDefinition)
    ensures Extends(a, c, portDefinition)
    ensures x in b ==> x in c
  {
    assert forall i :: 0 <= i < |b| ==> c[i] == b[i] by {
      forall i | 0 <= i < |b|
        ensures c[i] == b[i]
      {
        assert c[..|b|][i] == c[i];
      }
    }
    assert c[..|a|] == a by {
      assert forall i :: 0 <= i < |a| ==> b[i] == a[i] by {
        forall i | 0 <= i < |a|
          ensures b[i] == a[i]
        {
          assert b[..|a|][i] == b[i];
        }
      }
    }
  }

  /** One port of `MapPorts`: the usage of the definition named like the
      port, or else a new one appended. The result is the definition's usages
      and the port's usage. */
  function MapPort(definitionName: string, usages: seq<Usage>, port: Port, portDefinition: Thing, iid: string): (r: (seq<Usage>, Usage))
    ensures Extends(usages, r.0, portDefinition)
    ensures r.1 in r.0 && r.1.thing.name == GetPortName(definitionName, usages, port)
  {
    var name := GetPortName(definitionName, usages, port);
    match UsageNamed(usages, name, 0)
    case Some(i) => (usages, usages[i])
    case None =>
      var usage := NewPortUsage(name, iid, portDefinition, port);
      var next := usages + [usage];
      assert next[..|usages|] == usages && next[|usages|] == usage;
      (next, usage)
  }

  /** `MapPorts` for one mapped component, port after port. The result holds
      the definition's usages, which keep those it had and gain only port
      usages of the port definition, and, per port, the usage it is connected
      with (`portsToConnect`), named like the port when the port has a name. */
  function {:induction false} MapPorts(definitionName: string, usages: seq<Usage>, ports: seq<Port>,
                                       portDefinition: Thing, uuid: nat -> string, k: nat): (r: (seq<Usage>, seq<Usage>))
    ensures Extends(usages, r.0, portDefinition)
    ensures |r.1| == |ports|
    ensures forall i :: 0 <= i < |ports| ==> r.1[i] in r.0
    ensures forall i :: 0 <= i < |ports| && !IsBlank(ports[i].name) ==> r.1[i].thing.name == ports[i].name
    decreases |ports|
  {
    if ports == [] then
      assert usages[..|usages|] == usages;
      (usages, [])
    else
      var step := MapPort(definitionName, usages, ports[0], portDefinition, uuid(k));
      var rest := MapPorts(definitionName, step.0, ports[1..], portDefinition, uuid, k + 1);
      ExtendsTransitive(usages, step.0, rest.0, portDefinition, step.1);
      var r := (rest.0, [step.1] + rest.1);
      assert forall i :: 1 <= i < |ports| ==> r.1[i] == rest.1[i - 1] && ports[i] == ports[1..][i - 1];
      r
  }

  // Categories

  /** What `MapCategories` reads from a component besides its name and
      class: whether its container is a component package, and its actor,
      human and abstract flags. */
  datatype Traits = Traits(inComponentPackage: bool, isActor: bool, isHuman: bool, isAbstract: bool)

  /** The categories `MapCategories` can give a component. */
  datatype ComponentCategory = System | Subsystem | Actor | Human | Abstract | LogicalComponentCategory | PhysicalComponentCategory

  /** The name each category is mapped by. */
  function CategoryName(c: ComponentCategory): (r: string)
    ensures |r| > 0
  {
    match c
    case System => "System"
    case Subsystem => "Subsystem"
    case Actor => "Actor"
    case Human => "Human"
    case Abstract => "Abstract"
    case LogicalComponentCategory => "Logical Component"
    case PhysicalComponentCategory => "Physical Component"
  }

  /** Whether `MapCategories` gives a component the category `c`. */
  predicate Applies(c: ComponentCategory, subsystemInName: bool, cls: DstClass, traits: Traits) {
    match c
    case System => traits.inComponentPackage
    case Subsystem => subsystemInName
    case Actor => traits.isActor
    case Human => traits.isHuman
    case Abstract => traits.isAbstract
    case LogicalComponentCategory => !traits.isAbstract && cls.LogicalComponent?
    case PhysicalComponentCategory => !traits.isAbstract && cls.PhysicalComponent?
  }

  /** `s`, followed by `c` when `b` holds. */
  function Push(s: seq<ComponentCategory>, b: bool, c: ComponentCategory): (r: seq<ComponentCategory>)
    ensures forall d :: d in r <==> d in s || (b && d == c)
    ensures |r| == |s| + (if b then 1 else 0) && r[..|s|] == s
  {
    if b then s + [c] else s
  }

  /** Whether `c` is one of the categories that do not depend on the
      component's kind, and applies. */
  predicate AppliesRegardlessOfKind(c: ComponentCategory, subsystemInName: bool, traits: Traits) {
    match c
    case System => traits.inComponentPackage
    case Subsystem => subsystemInName
    case Actor => traits.isActor
    case Human => traits.isHuman
    case _ => false
  }

  /** The categories that do not depend on the component's kind. */
  function RegardlessOfKind(subsystemInName: bool, traits: Traits): (r: seq<ComponentCategory>)
    ensures forall c :: c in r <==> AppliesRegardlessOfKind(c, subsystemInName, traits)
  {
    var s1 := Push([], traits.inComponentPackage, System);
    var s2 := Push(s1, subsystemInName, Subsystem);
    var s3 := Push(s2, traits.isActor, Actor);
    Push(s3, traits.isHuman, Human)
  }

  /** The categories that apply, in the order `MapCategories` maps them. */
  function CategoriesFor(subsystemInName: bool, cls: DstClass, traits: Traits): (r: seq<ComponentCategory>)
    ensures forall c :: c in r <==> Applies(c, subsystemInName, cls, traits)
  {
    var shared := RegardlessOfKind(subsystemInName, traits);
    var s5 := Push(shared, traits.isAbstract, Abstract);
    var s6 := Push(s5, !traits.isAbstract && cls.LogicalComponent?, LogicalComponentCategory);
    Push(s6, !traits.isAbstract && cls.PhysicalComponent?, PhysicalComponentCategory)
  }

  /** The categories `MapCategories` gives a component, in the order it maps
      them: exactly those that apply, "Subsystem" when the name contains the
      word in any case. */
  function CategoriesOf(name: string, cls: DstClass, traits: Traits): (r: seq<ComponentCategory>)
    ensures forall c :: c in r <==> Applies(c, ContainsIgnoreCase(name, "subsystem"), cls, traits)
  {
    CategoriesFor(ContainsIgnoreCase(name, "subsystem"), cls, traits)
  }

  /** An abstract component is not also categorised as a logical or physical
      component; otherwise a logical or physical component gets its kind's
      category. */
  lemma AbstractExcludesComponentKinds(subsystemInName: bool, cls: DstClass, traits: Traits)
    ensures var r := CategoriesFor(subsystemInName, cls, traits);
      && (Abstract in r <==> traits.isAbstract)
      && (Abstract in r ==> LogicalComponentCategory !in r && PhysicalComponentCategory !in r)
      && (Abstract !in r && cls == LogicalComponent ==> LogicalComponentCategory in r)
      && (Abstract !in r && cls == PhysicalComponent ==> PhysicalComponentCategory in r)
  {
    var r := CategoriesFor(subsystemInName, cls, traits);
    assert Abstract in r <==> Applies(Abstract, subsystemInName, cls, traits);
    assert LogicalComponentCategory in r <==> Applies(LogicalComponentCategory, subsystemInName, cls, traits);
    assert PhysicalComponentCategory in r <==> Applies(PhysicalComponentCategory, subsystemInName, cls, traits);
  }

  /** The names of a component's categories. */
  function {:induction false} CategoryNames(cs: seq<ComponentCategory>): (r: seq<string>)
    ensures |r| == |cs| && forall i :: 0 <= i < |cs| ==> r[i] == CategoryName(cs[i])
  {
    if cs == [] then [] else [CategoryName(cs[0])] + CategoryNames(cs[1..])
  }

  /** `MapCategories` of a mapped component: the names of the categories
      that apply, mapped in turn. Every category that applies and is in the
      libraries, or can be created, ends up among the definition's
      categories; the categories it had stay in front. */
  function MapComponentCategories(categories: seq<CategoryThing>, name: string, cls: DstClass, traits: Traits,
                                  libraries: seq<CategoryThing>, uuid: string -> string,
                                  writeSucceeds: string -> bool): (r: seq<CategoryThing>)
    ensures |r| >= |categories| && r[..|categories|] == categories
    ensures forall c :: Applies(c, ContainsIgnoreCase(name, "subsystem"), cls, traits)
                        && (Categories.HasShortName(libraries, GetShortName(CategoryName(c))) || writeSucceeds(CategoryName(c))) ==>
      Categories.HasShortName(r, GetShortName(CategoryName(c)))
  {
    var cs := CategoriesOf(name, cls, traits);
    var names := CategoryNames(cs);
    var r := Categories.MapCategoryNames(categories, names, [ElementDefinition], libraries, uuid, writeSucceeds);
    assert forall c :: c in cs ==> CategoryName(c) in names by {
      forall c | c in cs
        ensures CategoryName(c) in names
      {
        var i :| 0 <= i < |cs| && cs[i] == c;
        assert names[i] == CategoryName(c);
      }
    }
    r
  }

  // Property values

  /** A property's default value: a numeric literal (whose value and unit
      may be null), a boolean literal, a string literal (whose value may be
      null), another kind of value specification, or none. */
  datatype DefaultValue =
    | NumericLiteral(numeric: Option<string>, unit: Option<string>)
    | BooleanLiteral(flag: bool)
    | StringLiteral(text: Option<string>)
    | OtherValue
    | NoDefault

  predicate IsLiteral(v: DefaultValue) {
    v.NumericLiteral? || v.BooleanLiteral? || v.StringLiteral?
  }

  /** `String.valueOf(boolean)`. */
  function BooleanText(b: bool): (r: string)
    ensures r == "true" || r == "false"
    ensures b <==> r == "true"
  {
    if b then "true" else "false"
  }

  /** `TryGetValueFromProperty` as written: the value holder starts out as
      the empty string, not null, and only a literal overwrites it, so any
      other default value reports success with "". The result is the
      reported success and the holder's final value. */
  function TryGetValueFromPropertyAsWritten(v: DefaultValue): (r: (bool, Option<string>))
    ensures r.0 <==> r.1.Some?
    ensures !IsLiteral(v) ==> r == (true, Some(""))
    ensures v.NumericLiteral? ==> r.1 == v.numeric
    ensures v.StringLiteral? ==> r.1 == v.text
    ensures v.BooleanLiteral? ==> r.1 == Some(BooleanText(v.flag))
  {
    var held: Option<string> :=
      match v
      case NumericLiteral(n, _) => n
      case BooleanLiteral(b) => Some(BooleanText(b))
      case StringLiteral(t) => t
      case _ => Some("");
    (held.Some?, held)
  }

  /** A property without a default value, mapped as written, gets a
      parameter valued "". */
  lemma MissingDefaultReadsAsEmpty()
    ensures TryGetValueFromPropertyAsWritten(NoDefault) == (true, Some(""))
    ensures TryGetValueFromPropertyAsWritten(OtherValue) == (true, Some(""))
  {
  }

  /** `TryGetValueFromProperty` as intended: a value only from a literal
      that carries one. */
  function TryGetValueFromProperty(v: DefaultValue): (r: Option<string>)
    ensures r.Some? ==> IsLiteral(v)
    ensures v.BooleanLiteral? ==> r == Some(BooleanText(v.flag))
    ensures v.NumericLiteral? ==> r == v.numeric
    ensures v.StringLiteral? ==> r == v.text
  {
    match v
    case NumericLiteral(n, _) => n
    case BooleanLiteral(b) => Some(BooleanText(b))
    case StringLiteral(t) => t
    case _ => None
  }

  /** The two readings agree exactly on literals. */
  lemma ValueReadingsDisagreeOnlyOffLiterals(v: DefaultValue)
    ensures TryGetValueFromPropertyAsWritten(v) == (TryGetValueFromProperty(v).Some?, TryGetValueFromProperty(v)) <==> IsLiteral(v)
  {
  }

  // Contained elements

  /** The usages of `usages` whose iid is not `iid`, in order. */
  function {:induction false} WithoutIid(usages: seq<Usage>, iid: string): (r: seq<Usage>)
    ensures |r| <= |usages|
  {
    if usages == [] then []
    else
      var rest := WithoutIid(usages[..|usages| - 1], iid);
      var last := usages[|usages| - 1];
      if last.thing.iid == iid then rest else rest + [last]
  }

  /** `WithoutIid` keeps exactly the usages with another iid. */
  lemma {:induction false} WithoutIidContents(usages: seq<Usage>, iid: string)
    ensures var r := WithoutIid(usages, iid);
      && (forall i :: 0 <= i < |r| ==> r[i].thing.iid != iid && r[i] in usages)
      && (forall i :: 0 <= i < |usages| && usages[i].thing.iid != iid ==> usages[i] in r)
  {
    if usages != [] {
      var init := usages[..|usages| - 1];
      WithoutIidContents(init, iid);
      assert forall i :: 0 <= i < |init| ==> usages[i] == init[i];
    }
  }

  /** Removing an iid that is not there changes nothing. */
  lemma {:induction false} WithoutAbsentIid(usages: seq<Usage>, iid: string)
    requires forall i :: 0 <= i < |usages| ==> usages[i].thing.iid != iid
    ensures WithoutIid(usages, iid) == usages
  {
    if usages != [] {
      WithoutAbsentIid(usages[..|usages| - 1], iid);
      assert usages == usages[..|usages| - 1] + [usages[|usages| - 1]];
    }
  }

  /** The usage list a container ends up with in `MapContainedElement`: any
      usage with the same iid removed, the usage appended. */
  function ReplaceUsage(usages: seq<Usage>, usage: Usage): (r: seq<Usage>)
    ensures |r| >= 1 && r[|r| - 1] == usage
    ensures forall i :: 0 <= i < |r| - 1 ==> r[i].thing.iid != usage.thing.iid && r[i] in usages
    ensures forall i :: 0 <= i < |usages| && usages[i].thing.iid != usage.thing.iid ==> usages[i] in r
  {
    WithoutIidContents(usages, usage.thing.iid);
    WithoutIid(usages, usage.thing.iid) + [usage]
  }

  /** Replacing a usage a second time changes nothing. */
  lemma ReplaceUsageIdempotent(usages: seq<Usage>, usage: Usage)
    ensures ReplaceUsage(ReplaceUsage(usages, usage), usage) == ReplaceUsage(usages, usage)
  {
    var w := WithoutIid(usages, usage.thing.iid);
    WithoutIidContents(usages, usage.thing.iid);
    WithoutReplaced(w, usage);
  }

  lemma WithoutReplaced(w: seq<Usage>, usage: Usage)
    requires forall i :: 0 <= i < |w| ==> w[i].thing.iid != usage.thing.iid
    ensures WithoutIid(w + [usage], usage.thing.iid) == w
  {
    assert (w + [usage])[..|w|] == w;
    WithoutAbsentIid(w, usage.thing.iid);
  }

  /** Whether a usage records, under `CIID`, that it stands for the component
      with identifier `componentId`. */
  predicate TaggedWith(usage: Usage, componentId: string) {
    exists i :: 0 <= i < |usage.definitions| && usage.definitions[i].languageCode == CIID
                && usage.definitions[i].content == componentId
  }

  /** The first usage tagged with `componentId`. */
  function {:induction false} TaggedUsage(usages: seq<Usage>, componentId: string, k: nat): (r: Option<nat>)
    requires k <= |usages|
    ensures r.Some? ==> k <= r.value < |usages| && TaggedWith(usages[r.value], componentId)
    ensures r.Some? ==> forall i :: k <= i < r.value ==> !TaggedWith(usages[i], componentId)
    ensures r.None? ==> forall i :: k <= i < |usages| ==> !TaggedWith(usages[i], componentId)
    decreases |usages| - k
  {
    if k == |usages| then None
    else if TaggedWith(usages[k], componentId) then Some(k)
    else TaggedUsage(usages, componentId, k + 1)
  }

  /** `GetOrCreateElementUsage`: the first usage of the container tagged with
      the component's identifier, or else a new usage of the component's
      definition, named after it and tagged with the identifier. */
  function GetOrCreateElementUsage(usages: seq<Usage>, componentId: string, definition: Thing,
                                   usageIid: string, definitionIid: string): (r: Usage)
    ensures TaggedWith(r, componentId)
    ensures (exists i :: 0 <= i < |usages| && TaggedWith(usages[i], componentId)) ==> r in usages
    ensures (forall i :: 0 <= i < |usages| ==> !TaggedWith(usages[i], componentId)) ==>
      && r.thing == Thing(usageIid, ElementUsage, definition.name, definition.shortName)
      && r.definitionIid == definition.iid
      && r.definitions == [DefinitionThing(definitionIid, CIID, componentId)]
  {
    match TaggedUsage(usages, componentId, 0)
    case Some(i) => usages[i]
    case None =>
      var r := Usage(Thing(usageIid, ElementUsage, definition.name, definition.shortName), definition.iid, NoEnd,
                     [DefinitionThing(definitionIid, CIID, componentId)]);
      assert r.definitions[0].languageCode == CIID;
      r
  }

  /** `MapContainedElement` on the container's usages: the usage standing
      for the component replaces any usage with its iid. */
  function MapContainedUsage(usages: seq<Usage>, componentId: string, definition: Thing,
                             usageIid: string, definitionIid: string): (r: seq<Usage>)
    ensures |r| >= 1 && TaggedWith(r[|r| - 1], componentId)
    ensures forall i :: 0 <= i < |r| - 1 ==> r[i].thing.iid != r[|r| - 1].thing.iid && r[i] in usages
  {
    ReplaceUsage(usages, GetOrCreateElementUsage(usages, componentId, definition, usageIid, definitionIid))
  }

  /** When no usage of the container stood for the component, mapping it
      leaves exactly one that does, and mapping it again, whatever fresh
      iids are at hand, changes nothing. */
  lemma ContainedUsageMappedOnce(usages: seq<Usage>, componentId: string, definition: Thing,
                                 usageIid: string, definitionIid: string, usageIid2: string, definitionIid2: string)
    requires forall i :: 0 <= i < |usages| ==> !TaggedWith(usages[i], componentId)
    ensures var once := MapContainedUsage(usages, componentId, definition, usageIid, definitionIid);
      && (forall i :: 0 <= i < |once| - 1 ==> !TaggedWith(once[i], componentId))
      && MapContainedUsage(once, componentId, definition, usageIid2, definitionIid2) == once
  {
    var u := GetOrCreateElementUsage(usages, componentId, definition, usageIid, definitionIid);
    var once := ReplaceUsage(usages, u);
    assert forall i :: 0 <= i < |once| - 1 ==> !TaggedWith(once[i], componentId) by {
      forall i | 0 <= i < |once| - 1
        ensures !TaggedWith(once[i], componentId)
      {
        var j :| 0 <= j < |usages| && usages[j] == once[i];
      }
    }
    var found := TaggedUsage(once, componentId, 0);
    assert found == Some(|once| - 1);
    ReplaceUsageIdempotent(usages, u);
  }

  // Element definitions

  /** The matcher of `GetOrCreateElementDefinition`: the short name equal to
      the name's short name ignoring case, or the same name. */
  predicate DefinitionMatches(definition: Thing, name: string) {
    EqualsIgnoreCase(definition.shortName, GetShortName(name)) || definition.name == name
  }

  /** The first definition matching `name`. */
  function {:induction false} FirstMatching(definitions: seq<Thing>, name: string, k: nat): (r: Option<nat>)
    requires k <= |definitions|
    ensures r.Some? ==> k <= r.value < |definitions| && DefinitionMatches(definitions[r.value], name)
    ensures r.Some? ==> forall i :: k <= i < r.value ==> !DefinitionMatches(definitions[i], name)
    ensures r.None? ==> forall i :: k <= i < |definitions| ==> !DefinitionMatches(definitions[i], name)
    decreases |definitions| - k
  {
    if k == |definitions| then None
    else if DefinitionMatches(definitions[k], name) then Some(k)
    else FirstMatching(definitions, name, k + 1)
  }

  /** `GetOrCreateElementDefinition`: the first matching definition among
      those already mapped, else the first matching one in the iteration,
      else a new definition with the name and its short name. Whatever it
      returns matches the name. */
  function GetOrCreateElementDefinition(mapped: seq<Thing>, elements: seq<Thing>, name: string, iid: string): (r: Thing)
    ensures DefinitionMatches(r, name)
    ensures (exists i :: 0 <= i < |mapped| && DefinitionMatches(mapped[i], name)) ==> r in mapped
    ensures ((forall i :: 0 <= i < |mapped| ==> !DefinitionMatches(mapped[i], name))
             && (exists i :: 0 <= i < |elements| && DefinitionMatches(elements[i], name))) ==> r in elements
    ensures ((forall i :: 0 <= i < |mapped| ==> !DefinitionMatches(mapped[i], name))
             && (forall i :: 0 <= i < |elements| ==> !DefinitionMatches(elements[i], name))) ==>
      r == Thing(iid, ElementDefinition, name, GetShortName(name))
  {
    match FirstMatching(mapped, name, 0)
    case Some(i) => mapped[i]
    case None =>
      match FirstMatching(elements, name, 0)
      case Some(j) => elements[j]
      case None =>
        var r := Thing(iid, ElementDefinition, name, GetShortName(name));
        assert EqualsIgnoreCase(r.shortName, GetShortName(name)) by {
          EqualsIgnoreCaseIsLowerEquality(r.shortName, GetShortName(name));
        }
        r
  }

  /** Once the definition a name resolves to is among the mapped ones, the
      next lookup of that name returns it again, whatever iid is at hand. */
  lemma DefinitionFoundAgain(mapped: seq<Thing>, elements: seq<Thing>, name: string, iid: string, iid2: string)
    ensures var r := GetOrCreateElementDefinition(mapped, elements, name, iid);
      GetOrCreateElementDefinition(mapped + [r], elements, name, iid2) == r
  {
    var r := GetOrCreateElementDefinition(mapped, elements, name, iid);
    var extended := mapped + [r];
    assert forall i :: 0 <= i < |mapped| ==> extended[i] == mapped[i];
    match FirstMatching(mapped, name, 0)
    case Some(i) =>
      assert FirstMatching(extended, name, 0) == Some(i) by {
        FirstMatchingExtends(mapped, [r], name, 0);
      }
    case None =>
      assert extended[|mapped|] == r;
      assert FirstMatching(extended, name, 0) == Some(|mapped|) by {
        FirstMatchingExtends(mapped, [r], name, 0);
      }
  }

  lemma {:induction false} FirstMatchingExtends(a: seq<Thing>, b: seq<Thing>, name: string, k: nat)
    requires k <= |a|
    ensures FirstMatching(a, name, k).Some? ==> FirstMatching(a + b, name, k) == FirstMatching(a, name, k)
    ensures FirstMatching(a, name, k).None? ==> FirstMatching(a + b, name, k) == FirstMatching(a + b, name, |a|)
    decreases |a| - k
  {
    if k < |a| {
      assert (a + b)[k] == a[k];
      FirstMatchingExtends(a, b, name, k + 1);
    }
  }

  /** `GetPortElementDefinition`: the cached port definition, or else the
      one `GetOrCreateElementDefinition` gives for "Port", which is then
      cached. */
  function GetPortElementDefinition(cache: Option<Thing>, mapped: seq<Thing>, elements: seq<Thing>, iid: string): (r: (Thing, Option<Thing>))
    ensures r.1 == Some(r.0)
    ensures cache.Some? ==> r.0 == cache.value
    ensures cache.None? ==> DefinitionMatches(r.0, PortDefinitionName)
  {
    match cache
    case Some(d) => (d, cache)
    case None =>
      var d := GetOrCreateElementDefinition(mapped, elements, PortDefinitionName, iid);
      (d, Some(d))
  }

  /** Asking twice for the port definition gives the same one. */
  lemma PortDefinitionCreatedOnce(cache: Option<Thing>, mapped: seq<Thing>, elements: seq<Thing>, iid: string,
                                  mapped2: seq<Thing>, elements2: seq<Thing>, iid2: string)
    ensures var first := GetPortElementDefinition(cache, mapped, elements, iid);
      GetPortElementDefinition(first.1, mapped2, elements2, iid2) == first
  {
  }
}
