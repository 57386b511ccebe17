/** `ElementToComponentMappingRule`: a Hub element definition becomes a
    Capella component, whose class comes from the definition's categories,
    and its parameters become properties of the component carrying the
    parameters' values as default values. Lookups in the Capella model are
    parameters. */
module ElementToComponent {
  import opened Wrappers
  import opened Text
  import opened Capella
  import Enumerations
  import opened ComponentToElement

  /** The kinds of Hub parameter type the rule distinguishes. */
  datatype ParameterTypeKind = QuantityKind | BooleanParameterType | TextParameterType | OtherParameterType

  datatype ParameterType = ParameterType(iid: string, name: string, kind: ParameterTypeKind)

  /** A Hub measurement scale: its name, short name and the name of its unit,
      if any. */
  datatype Scale = Scale(name: string, shortName: string, unit: Option<string>)

  /** A Hub parameter or parameter override: its iid, its type, its scale and
      the first value of its actual value set. */
  datatype Parameter = Parameter(iid: string, parameterType: ParameterType, scale: Option<Scale>, value: string)

  /** A Capella data type: a physical quantity with the name of its unit, if
      any, or another data type. */
  datatype DataType = PhysicalQuantity(name: string, unit: Option<string>) | OtherDataType(name: string)

  /** A Capella property: its name, type, minimum and maximum cardinality and
      default value (`NoDefault` for none). */
  datatype Property = Property(name: string, dataType: Option<DataType>, minCard: string, maxCard: string, default: DefaultValue)

  /** The Capella classes of literal data values. */
  datatype ValueClass = LiteralNumericValue | LiteralBooleanValue | LiteralStringValue

  // Values

  /** `GetDataValueType`: quantities are numeric, booleans boolean, texts
      strings, and any other parameter type has no data value class. */
  function GetDataValueType(kind: ParameterTypeKind): (r: Option<ValueClass>)
    ensures r == Some(LiteralNumericValue) <==> kind == QuantityKind
    ensures r == Some(LiteralBooleanValue) <==> kind == BooleanParameterType
    ensures r == Some(LiteralStringValue) <==> kind == TextParameterType
    ensures r.None? <==> kind == OtherParameterType
  {
    match kind
    case QuantityKind => Some(LiteralNumericValue)
    case BooleanParameterType => Some(LiteralBooleanValue)
    case TextParameterType => Some(LiteralStringValue)
    case OtherParameterType => None
  }

  /** `CreateDataValue`: an empty literal of the class `GetDataValueType`
      gives, none when there is no class; a numeric literal takes the unit of
      a physical-quantity data type. */
  function CreateDataValue(kind: ParameterTypeKind, dataType: Option<DataType>): (r: DefaultValue)
    ensures r == NoDefault <==> GetDataValueType(kind).None?
    ensures r.NumericLiteral? <==> GetDataValueType(kind) == Some(LiteralNumericValue)
    ensures r.BooleanLiteral? <==> GetDataValueType(kind) == Some(LiteralBooleanValue)
    ensures r.StringLiteral? <==> GetDataValueType(kind) == Some(LiteralStringValue)
    ensures r.NumericLiteral? ==> r.numeric.None?
    ensures r.NumericLiteral? && r.unit.Some? ==> dataType.Some? && dataType.value.PhysicalQuantity?
    ensures r.NumericLiteral? && dataType.Some? && dataType.value.PhysicalQuantity? ==> r.unit == dataType.value.unit
    ensures r.StringLiteral? ==> r.text.None?
  {
    match GetDataValueType(kind)
    case None => NoDefault
    case Some(LiteralNumericValue) =>
      NumericLiteral(None, if dataType.Some? && dataType.value.PhysicalQuantity? then dataType.value.unit else None)
    case Some(LiteralBooleanValue) => BooleanLiteral(false)
    case Some(LiteralStringValue) => StringLiteral(None)
  }

  /** `Boolean.valueOf(String)`: true exactly for "true" in any case. */
  predicate ParseBoolean(s: string) {
    EqualsIgnoreCase(s, "true")
  }

  /** `UpdateValue` on a data value: a literal takes the parameter's value,
      parsed for a boolean; anything else is left as it is. */
  function SetValue(dataValue: DefaultValue, value: string): (r: DefaultValue)
    ensures IsLiteral(r) <==> IsLiteral(dataValue)
    ensures dataValue.NumericLiteral? ==> r == dataValue.(numeric := Some(value))
    ensures dataValue.BooleanLiteral? ==> r == BooleanLiteral(ParseBoolean(value))
    ensures dataValue.StringLiteral? ==> r == StringLiteral(Some(value))
    ensures !IsLiteral(dataValue) ==> r == dataValue
  {
    match dataValue
    case NumericLiteral(_, unit) => NumericLiteral(Some(value), unit)
    case BooleanLiteral(_) => BooleanLiteral(ParseBoolean(value))
    case StringLiteral(_) => StringLiteral(Some(value))
    case _ => dataValue
  }

  /** `UpdateValue` on a property: its default value, created for the
      parameter when it has none, takes the parameter's value. Nothing else
      about the property changes. */
  function UpdateValue(property: Property, parameter: Parameter, dataType: Option<DataType>): (r: Property)
    ensures r.name == property.name && r.dataType == property.dataType
    ensures r.minCard == property.minCard && r.maxCard == property.maxCard
    ensures property.default != NoDefault ==> r.default == SetValue(property.default, parameter.value)
    ensures property.default == NoDefault ==>
      r.default == SetValue(CreateDataValue(parameter.parameterType.kind, dataType), parameter.value)
  {
    var dataValue := if property.default != NoDefault then property.default
                     else CreateDataValue(parameter.parameterType.kind, dataType);
    property.(default := SetValue(dataValue, parameter.value))
  }

  /** A value carried from a Hub parameter into a new Capella property is
      read back unchanged by the opposite rule for quantities and texts; a
      boolean comes back as "true" or "false", so unchanged exactly when it
      was written that way; other parameter types carry no value. */
  lemma ValueRoundTrip(kind: ParameterTypeKind, dataType: Option<DataType>, value: string)
    ensures var read := TryGetValueFromProperty(SetValue(CreateDataValue(kind, dataType), value));
      && (kind == QuantityKind || kind == TextParameterType ==> read == Some(value))
      && (kind == BooleanParameterType ==> read == Some(BooleanText(ParseBoolean(value))))
      && (kind == BooleanParameterType ==> (read == Some(value) <==> value == "true" || value == "false"))
      && (kind == OtherParameterType ==> read.None?)
  {
    if kind == BooleanParameterType && value == "false" {
      assert !ParseBoolean(value);
    }
    if kind == BooleanParameterType && value == "true" {
      assert ParseBoolean(value);
    }
  }

  // Properties

  /** `TryGetExistingProperty`: the first property named like the parameter
      type, ignoring case. */
  function {:induction false} TryGetExistingProperty(properties: seq<Property>, typeName: string, k: nat): (r: Option<nat>)
    requires k <= |properties|
    ensures r.Some? ==> k <= r.value < |properties| && EqualsIgnoreCase(properties[r.value].name, typeName)
    ensures r.Some? ==> forall i :: k <= i < r.value ==> !EqualsIgnoreCase(properties[i].name, typeName)
    ensures r.None? ==> forall i :: k <= i < |properties| ==> !EqualsIgnoreCase(properties[i].name, typeName)
    decreases |properties| - k
  {
    if k == |properties| then None
    else if EqualsIgnoreCase(properties[k].name, typeName) then Some(k)
    else TryGetExistingProperty(properties, typeName, k + 1)
  }

  predicate HasPropertyNamed(properties: seq<Property>, typeName: string) {
    exists i :: 0 <= i < |properties| && EqualsIgnoreCase(properties[i].name, typeName)
  }

  /** `CreateProperty`: a property named after the parameter type, typed by
      the data type only for a quantity, with cardinality "1" to "1" and no
      default value yet. */
  function CreateProperty(parameter: Parameter, dataType: Option<DataType>): (r: Property)
    ensures r.name == parameter.parameterType.name
    ensures r.minCard == "1" && r.maxCard == "1" && r.default == NoDefault
    ensures r.dataType.Some? <==> parameter.parameterType.kind == QuantityKind && dataType.Some?
    ensures r.dataType.Some? ==> r.dataType == dataType
  {
    Property.Property(parameter.parameterType.name,
                      if parameter.parameterType.kind == QuantityKind && dataType.Some? then dataType else None,
                      "1", "1", NoDefault)
  }

  /** Whether a data type stands for a scale: named like the scale's name or
      short name, ignoring case. */
  predicate StandsFor(dataType: DataType, scale: Scale) {
    EqualsIgnoreCase(dataType.name, scale.name) || EqualsIgnoreCase(dataType.name, scale.shortName)
  }

  /** The first data type standing for a scale. */
  function {:induction false} FindDataType(dataTypes: seq<DataType>, scale: Scale, k: nat): (r: Option<nat>)
    requires k <= |dataTypes|
    ensures r.Some? ==> k <= r.value < |dataTypes| && StandsFor(dataTypes[r.value], scale)
    ensures r.None? ==> forall i :: k <= i < |dataTypes| ==> !StandsFor(dataTypes[i], scale)
    decreases |dataTypes| - k
  {
    if k == |dataTypes| then None
    else if StandsFor(dataTypes[k], scale) then Some(k)
    else FindDataType(dataTypes, scale, k + 1)
  }

  /** `GetOrCreateDataType` as written: a data type standing for the scale
      among those created during this mapping, else one the Capella model
      has, else a new physical quantity added to those created, which is
      not handed back. The result is the data type handed back and the data
      types created so far. */
  function GetOrCreateDataTypeAsWritten(scale: Scale, created: seq<DataType>,
                                        modelDataType: Scale -> Option<DataType>): (r: (Option<DataType>, seq<DataType>))
    ensures r.0.Some? ==> r.1 == created
    ensures r.0.None? ==> r.1 == created + [PhysicalQuantity(scale.name, scale.unit)]
  {
    match FindDataType(created, scale, 0)
    case Some(i) => (Some(created[i]), created)
    case None =>
      if modelDataType(scale).Some? then (modelDataType(scale), created)
      else (None, created + [PhysicalQuantity(scale.name, scale.unit)])
  }

  /** `GetOrCreateDataType` as intended: the same search, but the new
      physical quantity is also handed back. */
  function GetOrCreateDataType(scale: Scale, created: seq<DataType>,
                               modelDataType: Scale -> Option<DataType>): (r: (DataType, seq<DataType>))
    ensures |r.1| >= |created| && r.1[..|created|] == created
    ensures (exists i :: 0 <= i < |created| && StandsFor(created[i], scale)) ==> r.0 in created && r.1 == created
    ensures (forall i :: 0 <= i < |created| ==> !StandsFor(created[i], scale)) && modelDataType(scale).Some? ==>
      r == (modelDataType(scale).value, created)
    ensures (forall i :: 0 <= i < |created| ==> !StandsFor(created[i], scale)) && modelDataType(scale).None? ==>
      r.0 == PhysicalQuantity(scale.name, scale.unit) && r.1 == created + [r.0]
  {
    match FindDataType(created, scale, 0)
    case Some(i) => (created[i], created)
    case None =>
      if modelDataType(scale).Some? then
        assert created[..|created|] == created;
        (modelDataType(scale).value, created)
      else
        var d := PhysicalQuantity(scale.name, scale.unit);
        assert (created + [d])[..|created|] == created;
        (d, created + [d])
  }

  /** As written, the first quantity parameter whose scale has no data type
      yet gets an untyped property whose value has no unit, while a later
      parameter with the same scale finds the data type made for the first;
      as intended, both get it. */
  lemma NewScaleLeavesPropertyUntyped(parameter: Parameter, scale: Scale, modelDataType: Scale -> Option<DataType>)
    requires parameter.parameterType.kind == QuantityKind && modelDataType(scale).None?
    ensures var first := GetOrCreateDataTypeAsWritten(scale, [], modelDataType);
      && first.0.None?
      && CreateProperty(parameter, first.0).dataType.None?
      && GetOrCreateDataTypeAsWritten(scale, first.1, modelDataType).0 == Some(PhysicalQuantity(scale.name, scale.unit))
    ensures CreateProperty(parameter, Some(GetOrCreateDataType(scale, [], modelDataType).0)).dataType
            == Some(PhysicalQuantity(scale.name, scale.unit))
  {
    var d := PhysicalQuantity(scale.name, scale.unit);
    assert StandsFor(d, scale) by {
      assert EqualsIgnoreCase(d.name, scale.name);
    }
    assert FindDataType([d], scale, 0) == Some(0);
  }

  /** The component a definition's parameters are mapped into: its
      properties and the data types created during the mapping. */
  datatype Target = Target(properties: seq<Property>, dataTypes: seq<DataType>)

  /** `after` keeps the names and cardinalities of the properties in
      `before`, in place, and every property it adds has cardinality "1" to
      "1". */
  predicate Grows(before: seq<Property>, after: seq<Property>) {
    && |after| >= |before|
    && (forall i :: 0 <= i < |before| ==>
          after[i].name == before[i].name && after[i].minCard == before[i].minCard && after[i].maxCard == before[i].maxCard)
    && (forall i :: |before| <= i < |after| ==> after[i].minCard == "1" && after[i].maxCard == "1")
  }

  lemma GrowsTransitive(a: seq<Property>, b: seq<Property>, c: seq<Property>, typeName: string)
    requires Grows(a, b) && Grows(b, c)
    ensures Grows(a, c)
    ensures HasPropertyNamed(b, typeName) ==> HasPropertyNamed(c, typeName)
  {
    if HasPropertyNamed(b, typeName) {
      var i :| 0 <= i < |b| && EqualsIgnoreCase(b[i].name, typeName);
      assert c[i].name == b[i].name;
    }
  }

  /** The data type `MapProperties` hands `CreateProperty` for a new
      property, with the data types created so far: nothing without a
      scale; otherwise what `GetOrCreateDataType` hands back, as written
      when `asWritten` and as intended otherwise. */
  function NewPropertyType(scale: Option<Scale>, created: seq<DataType>, modelDataType: Scale -> Option<DataType>,
                           asWritten: bool): (r: (Option<DataType>, seq<DataType>))
    ensures scale.None? ==> r == (None, created)
    ensures scale.Some? && asWritten ==> r == GetOrCreateDataTypeAsWritten(scale.value, created, modelDataType)
    ensures scale.Some? && !asWritten ==>
      var t := GetOrCreateDataType(scale.value, created, modelDataType);
      r == (Some(t.0), t.1)
  {
    if scale.None? then (None, created)
    else if asWritten then GetOrCreateDataTypeAsWritten(scale.value, created, modelDataType)
    else
      var t := GetOrCreateDataType(scale.value, created, modelDataType);
      (Some(t.0), t.1)
  }

  /** `MapProperties` for one parameter: the property named like its type
      takes its value, its data type taken from the property's physical
      quantity; or else a new property, typed by what `GetOrCreateDataType`
      hands back for the parameter's scale, is added and takes the value.
      `asWritten` picks the code as written, which hands back nothing for a
      new data type, or the intended one. */
  function MapParameter(target: Target, parameter: Parameter, modelDataType: Scale -> Option<DataType>,
                        asWritten: bool): (r: Target)
    ensures Grows(target.properties, r.properties)
    ensures HasPropertyNamed(r.properties, parameter.parameterType.name)
    ensures HasPropertyNamed(target.properties, parameter.parameterType.name) ==>
      |r.properties| == |target.properties| && r.dataTypes == target.dataTypes
    ensures !HasPropertyNamed(target.properties, parameter.parameterType.name) ==>
      && |r.properties| == |target.properties| + 1
      && r.properties[..|target.properties|] == target.properties
      && var typed := NewPropertyType(parameter.scale, target.dataTypes, modelDataType, asWritten);
         && r.dataTypes == typed.1
         && r.properties[|target.properties|].dataType == CreateProperty(parameter, typed.0).dataType
  {
    var properties := target.properties;
    match TryGetExistingProperty(properties, parameter.parameterType.name, 0)
    case Some(i) =>
      var existing := properties[i];
      var dataType := if existing.dataType.Some? && existing.dataType.value.PhysicalQuantity? then existing.dataType else None;
      var updated := properties[i := UpdateValue(existing, parameter, dataType)];
      assert updated[i].name == existing.name;
      Target(updated, target.dataTypes)
    case None =>
      var typed := NewPropertyType(parameter.scale, target.dataTypes, modelDataType, asWritten);
      var created := UpdateValue(CreateProperty(parameter, typed.0), parameter, typed.0);
      var r := Target(properties + [created], typed.1);
      assert r.properties[|properties|] == created;
      assert r.properties[..|properties|] == properties;
      assert EqualsIgnoreCase(created.name, parameter.parameterType.name);
      r
  }

  /** A quantity parameter with a scale no data type stands for yet, on a
      component without its property: as written the new property has no
      data type, as intended it has the new physical quantity. */
  lemma NewScaleLeavesMappedPropertyUntyped(target: Target, parameter: Parameter, modelDataType: Scale -> Option<DataType>)
    requires parameter.parameterType.kind == QuantityKind && parameter.scale.Some?
    requires modelDataType(parameter.scale.value).None?
    requires forall i :: 0 <= i < |target.dataTypes| ==> !StandsFor(target.dataTypes[i], parameter.scale.value)
    requires !HasPropertyNamed(target.properties, parameter.parameterType.name)
    ensures MapParameter(target, parameter, modelDataType, true).properties[|target.properties|].dataType.None?
    ensures MapParameter(target, parameter, modelDataType, false).properties[|target.properties|].dataType
            == Some(PhysicalQuantity(parameter.scale.value.name, parameter.scale.value.unit))
  {
    assert FindDataType(target.dataTypes, parameter.scale.value, 0).None?;
  }

  /** `MapProperties`: the parameters mapped in turn. Every parameter ends up
      with a property named like its type; the component's properties keep
      their names and cardinalities and new ones have cardinality "1" to
      "1". */
  function {:induction false} MapProperties(target: Target, parameters: seq<Parameter>,
                                            modelDataType: Scale -> Option<DataType>, asWritten: bool): (r: Target)
    ensures Grows(target.properties, r.properties)
    ensures forall j :: 0 <= j < |parameters| ==> HasPropertyNamed(r.properties, parameters[j].parameterType.name)
    decreases |parameters|
  {
    if parameters == [] then target
    else
      var next := MapParameter(target, parameters[0], modelDataType, asWritten);
      var r := MapProperties(next, parameters[1..], modelDataType, asWritten);
      GrowsTransitive(target.properties, next.properties, r.properties, parameters[0].parameterType.name);
      assert forall j :: 0 <= j < |parameters| ==> HasPropertyNamed(r.properties, parameters[j].parameterType.name) by {
        forall j | 1 <= j < |parameters|
          ensures HasPropertyNamed(r.properties, parameters[j].parameterType.name)
        {
          assert parameters[j] == parameters[1..][j - 1];
        }
      }
      r
  }

  /** Mapping parameters that all have their property already adds no
      property. */
  lemma {:induction false} NoPropertyAddedWhenPresent(target: Target, parameters: seq<Parameter>,
                                                      modelDataType: Scale -> Option<DataType>, asWritten: bool)
    requires forall j :: 0 <= j < |parameters| ==> HasPropertyNamed(target.properties, parameters[j].parameterType.name)
    ensures |MapProperties(target, parameters, modelDataType, asWritten).properties| == |target.properties|
    decreases |parameters|
  {
    if parameters != [] {
      var next := MapParameter(target, parameters[0], modelDataType, asWritten);
      forall j | 0 <= j < |parameters[1..]|
        ensures HasPropertyNamed(next.properties, parameters[1..][j].parameterType.name)
      {
        GrowsTransitive(target.properties, next.properties, next.properties, parameters[j + 1].parameterType.name);
      }
      NoPropertyAddedWhenPresent(next, parameters[1..], modelDataType, asWritten);
    }
  }

  /** Mapping the same parameters a second time creates no property. */
  lemma MappingPropertiesTwiceCreatesNone(target: Target, parameters: seq<Parameter>, modelDataType: Scale -> Option<DataType>,
                                          asWritten: bool)
    ensures var once := MapProperties(target, parameters, modelDataType, asWritten);
      |MapProperties(once, parameters, modelDataType, asWritten).properties| == |once.properties|
  {
    NoPropertyAddedWhenPresent(MapProperties(target, parameters, modelDataType, asWritten), parameters, modelDataType, asWritten);
  }

  /** Whether a usage overrides a parameter of the parameter's type. */
  predicate Overridden(parameter: Parameter, overrides: seq<Parameter>) {
    exists o :: 0 <= o < |overrides| && overrides[o].parameterType.iid == parameter.parameterType.iid
  }

  /** The definition's parameters whose type no override of the usage has,
      in order. */
  function {:induction false} NotOverridden(parameters: seq<Parameter>, overrides: seq<Parameter>): (r: seq<Parameter>)
    ensures |r| <= |parameters|
    ensures forall i :: 0 <= i < |r| ==> r[i] in parameters && !Overridden(r[i], overrides)
    ensures forall i :: 0 <= i < |parameters| && !Overridden(parameters[i], overrides) ==> parameters[i] in r
  {
    if parameters == [] then []
    else
      var tail := parameters[1..];
      assert forall i :: 1 <= i < |parameters| ==> parameters[i] == tail[i - 1];
      var rest := NotOverridden(tail, overrides);
      if Overridden(parameters[0], overrides) then rest else [parameters[0]] + rest
  }

  /** The parameters `MapProperties` maps for an element usage, as written:
      only the definition's parameters that are not overridden, although the
      list is named for parameters and overrides. */
  function UsageParametersAsWritten(definitionParameters: seq<Parameter>, overrides: seq<Parameter>): (r: seq<Parameter>)
    ensures forall i :: 0 <= i < |r| ==> r[i] in definitionParameters && !Overridden(r[i], overrides)
  {
    NotOverridden(definitionParameters, overrides)
  }

  /** As written, an override's value never reaches the component: no
      parameter of its type is mapped. */
  lemma OverrideValueDropped(definitionParameters: seq<Parameter>, overrides: seq<Parameter>, o: nat)
    requires o < |overrides|
    ensures forall i :: 0 <= i < |UsageParametersAsWritten(definitionParameters, overrides)| ==>
      UsageParametersAsWritten(definitionParameters, overrides)[i].parameterType.iid != overrides[o].parameterType.iid
  {
  }

  /** The parameters mapped for an element usage as intended: the
      definition's parameters that are not overridden, then the overrides,
      so each parameter type is mapped from the override when there is
      one. */
  function UsageParameters(definitionParameters: seq<Parameter>, overrides: seq<Parameter>): (r: seq<Parameter>)
    ensures forall i :: 0 <= i < |overrides| ==> overrides[i] in r
    ensures forall i :: 0 <= i < |definitionParameters| ==>
      (definitionParameters[i] in r || Overridden(definitionParameters[i], overrides))
    ensures forall i :: 0 <= i < |r| ==> r[i] in overrides || (r[i] in definitionParameters && !Overridden(r[i], overrides))
  {
    var kept := NotOverridden(definitionParameters, overrides);
    var r := kept + overrides;
    assert forall i :: 0 <= i < |overrides| ==> r[|kept| + i] == overrides[i];
    r
  }

  // Component class

  /** `TryGetComponentClass`: the class of the component type named by the
      first category that names one. */
  function {:induction false} TryGetComponentClass(categoryNames: seq<string>, k: nat): (r: Option<DstClass>)
    requires k <= |categoryNames|
    ensures r.Some? <==> exists i :: k <= i < |categoryNames| && Enumerations.ComponentTypeFromOrValueOf(categoryNames[i]).Some?
    ensures r.Some? ==> exists i :: (k <= i < |categoryNames|
      && Enumerations.ComponentTypeFromOrValueOf(categoryNames[i]).Some?
      && r.value == Enumerations.ComponentTypeFromOrValueOf(categoryNames[i]).value.ClassType()
      && forall j :: k <= j < i ==> Enumerations.ComponentTypeFromOrValueOf(categoryNames[j]).None?)
    decreases |categoryNames| - k
  {
    if k == |categoryNames| then None
    else match Enumerations.ComponentTypeFromOrValueOf(categoryNames[k])
      case Some(t) => Some(t.ClassType())
      case None => TryGetComponentClass(categoryNames, k + 1)
  }

  /** `GetOrCreateComponent`'s choice of class: the one the categories name,
      a physical component by default. */
  function GetComponentClass(categoryNames: seq<string>): (r: DstClass)
    ensures IsComponent(r)
    ensures TryGetComponentClass(categoryNames, 0).None? ==> r == PhysicalComponent
  {
    match TryGetComponentClass(categoryNames, 0)
    case Some(c) => c
    case None => PhysicalComponent
  }

  /** The component type a category stands for, if any. */
  function KindOf(c: ComponentCategory): (r: Option<Enumerations.ComponentType>)
    ensures r.Some? <==> c == LogicalComponentCategory || c == PhysicalComponentCategory
  {
    match c
    case LogicalComponentCategory => Some(Enumerations.Logical)
    case PhysicalComponentCategory => Some(Enumerations.Physical)
    case _ => None
  }

  /** A category's name names exactly the component type it stands for: the
      two kind categories are named by the types' labels, and no other
      category name matches a label, a class name or a constant name. */
  lemma CategoryNamesNameTheirKind(c: ComponentCategory)
    ensures Enumerations.ComponentTypeFromOrValueOf(CategoryName(c)) == KindOf(c)
  {
    match c
    case LogicalComponentCategory => Enumerations.ComponentTypeRoundTrips(Enumerations.Logical);
    case PhysicalComponentCategory => Enumerations.ComponentTypeRoundTrips(Enumerations.Physical);
    case Abstract =>
      assert !EqualsIgnoreCase("Physical", "Abstract") by {
        assert ToLower("Physical"[0]) != ToLower("Abstract"[0]);
      }
      NamesNoType(CategoryName(c));
    case _ => NamesNoType(CategoryName(c));
  }

  /** A name no component type is found by. The types' labels and class
      names have 16 to 18 characters, so a shorter name matches none of
      them; of the constant names, "Logical" is the only one of 7
      characters, and "Physical" is excluded ignoring case. Each category
      name other than the two kind names meets these conditions. */
  lemma NamesNoType(name: string)
    requires |name| < 16 && |name| != 7 && !EqualsIgnoreCase("Physical", name)
    ensures Enumerations.ComponentTypeFromOrValueOf(name).None?
  {
    forall t: Enumerations.ComponentType
      ensures !Enumerations.MatchesComponent(name, t) && t.ConstantName() != name
    {
    }
  }

  /** The class the names of categories give, when at most one component
      type is among the types they stand for. */
  lemma ClassFromCategories(cs: seq<ComponentCategory>, t: Enumerations.ComponentType)
    requires forall i :: 0 <= i < |cs| ==> KindOf(cs[i]).None? || KindOf(cs[i]) == Some(t)
    ensures (exists i :: 0 <= i < |cs| && KindOf(cs[i]) == Some(t)) ==> GetComponentClass(CategoryNames(cs)) == t.ClassType()
    ensures (forall i :: 0 <= i < |cs| ==> KindOf(cs[i]).None?) ==> GetComponentClass(CategoryNames(cs)) == PhysicalComponent
  {
    var names := CategoryNames(cs);
    NamesOfKinds(cs);
    OneKindFound(names, 0, t);
    if exists i :: 0 <= i < |cs| && KindOf(cs[i]) == Some(t) {
      var i :| 0 <= i < |cs| && KindOf(cs[i]) == Some(t);
      assert Enumerations.ComponentTypeFromOrValueOf(names[i]) == Some(t);
    }
  }

  /** When the names name at most one component type `t`, the class found
      is `t`'s if some name names it, and nothing otherwise. */
  lemma {:induction false} OneKindFound(names: seq<string>, k: nat, t: Enumerations.ComponentType)
    requires k <= |names|
    requires forall i :: k <= i < |names| ==>
      Enumerations.ComponentTypeFromOrValueOf(names[i]).None? || Enumerations.ComponentTypeFromOrValueOf(names[i]) == Some(t)
    ensures TryGetComponentClass(names, k) ==
      if exists i :: k <= i < |names| && Enumerations.ComponentTypeFromOrValueOf(names[i]) == Some(t)
      then Some(t.ClassType()) else None
    decreases |names| - k
  {
    if k < |names| && Enumerations.ComponentTypeFromOrValueOf(names[k]).None? {
      OneKindFound(names, k + 1, t);
      if exists i :: k <= i < |names| && Enumerations.ComponentTypeFromOrValueOf(names[i]) == Some(t) {
        var i :| k <= i < |names| && Enumerations.ComponentTypeFromOrValueOf(names[i]) == Some(t);
        assert i != k;
      }
    }
  }

  /** Each category's name names the component type it stands for. */
  lemma NamesOfKinds(cs: seq<ComponentCategory>)
    ensures |CategoryNames(cs)| == |cs|
    ensures forall i :: 0 <= i < |cs| ==> Enumerations.ComponentTypeFromOrValueOf(CategoryNames(cs)[i]) == KindOf(cs[i])
  {
    forall i | 0 <= i < |cs|
      ensures Enumerations.ComponentTypeFromOrValueOf(CategoryNames(cs)[i]) == KindOf(cs[i])
    {
      CategoryNamesNameTheirKind(cs[i]);
    }
  }

  /** The class the categories that apply to a component give back. */
  lemma RoundTripCore(cs: seq<ComponentCategory>, subsystemInName: bool, cls: DstClass, traits: Traits)
    requires IsComponent(cls)
    requires forall c :: c in cs <==> Applies(c, subsystemInName, cls, traits)
    ensures GetComponentClass(CategoryNames(cs)) == if traits.isAbstract then PhysicalComponent else cls
  {
    var t := if cls == LogicalComponent then Enumerations.Logical else Enumerations.Physical;
    assert forall i :: 0 <= i < |cs| ==> KindOf(cs[i]).None? || KindOf(cs[i]) == Some(t) by {
      forall i | 0 <= i < |cs|
        ensures KindOf(cs[i]).None? || KindOf(cs[i]) == Some(t)
      {
        assert Applies(cs[i], subsystemInName, cls, traits);
      }
    }
    ClassFromCategories(cs, t);
    if !traits.isAbstract {
      var kind := if cls == LogicalComponent then LogicalComponentCategory else PhysicalComponentCategory;
      assert Applies(kind, subsystemInName, cls, traits);
      var i :| 0 <= i < |cs| && cs[i] == kind;
      assert KindOf(cs[i]) == Some(t);
    } else {
      assert forall i :: 0 <= i < |cs| ==> KindOf(cs[i]).None? by {
        forall i | 0 <= i < |cs|
          ensures KindOf(cs[i]).None?
        {
          assert Applies(cs[i], subsystemInName, cls, traits);
        }
      }
    }
  }

  /** A component mapped to the Hub and back keeps its class when it is not
      abstract; an abstract one comes back as a physical component. This
      holds whether or not its name mentions a subsystem. */
  lemma ComponentClassRoundTrip(subsystemInName: bool, cls: DstClass, traits: Traits)
    requires IsComponent(cls)
    ensures GetComponentClass(CategoryNames(CategoriesFor(subsystemInName, cls, traits)))
            == if traits.isAbstract then PhysicalComponent else cls
  {
    RoundTripCore(CategoriesFor(subsystemInName, cls, traits), subsystemInName, cls, traits);
  }
}
