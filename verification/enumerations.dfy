/** The two enumerations of mappable Capella types, `ComponentType` and
    `RequirementType`, and the lookups of `CapellaTypeEnumerationUtility`
    that turn a Hub category name or a Java class into one of their values. */
module Enumerations {
  import opened Wrappers
  import opened Sequences
  import opened Text
  import opened Capella

  datatype ComponentType = Physical | Logical {
    /** Position in `values()`. */
    function Ordinal(): nat {
      match this
      case Physical => 0
      case Logical => 1
    }

    /** The display label, also returned by `toString`. */
    function Label(): string {
      match this
      case Physical => "Physical Component"
      case Logical => "Logical Component"
    }

    /** The name of the enumeration constant, as `valueOf` expects it. */
    function ConstantName(): string {
      match this
      case Physical => "Physical"
      case Logical => "Logical"
    }

    function ClassType(): DstClass {
      match this
      case Physical => PhysicalComponent
      case Logical => LogicalComponent
    }

    /** `ClassType().getSimpleName()`. */
    function SimpleName(): string {
      match this
      case Physical => "PhysicalComponent"
      case Logical => "LogicalComponent"
    }
  }

  datatype RequirementType = Undefined | NonFunctional | NonFunctionalInterface | Functional | FunctionalInterface | User {
    function Ordinal(): nat {
      match this
      case Undefined => 0
      case NonFunctional => 1
      case NonFunctionalInterface => 2
      case Functional => 3
      case FunctionalInterface => 4
      case User => 5
    }

    function Label(): string {
      match this
      case Undefined => ""
      case NonFunctional => "Non-Functional"
      case NonFunctionalInterface => "Non-Functional Interface"
      case Functional => "Functional"
      case FunctionalInterface => "Functional Interface"
      case User => "User Requirement"
    }

    function ConstantName(): string {
      match this
      case Undefined => "Undefined"
      case NonFunctional => "NonFunctional"
      case NonFunctionalInterface => "NonFunctionalInterface"
      case Functional => "Functional"
      case FunctionalInterface => "FunctionalInterface"
      case User => "User"
    }

    /** The Capella requirement class; `Undefined` has none (null). */
    function ClassType(): Option<DstClass> {
      match this
      case Undefined => None
      case NonFunctional => Some(SystemNonFunctionalRequirement)
      case NonFunctionalInterface => Some(SystemNonFunctionalInterfaceRequirement)
      case Functional => Some(SystemFunctionalRequirement)
      case FunctionalInterface => Some(SystemFunctionalInterfaceRequirement)
      case User => Some(SystemUserRequirement)
    }

    function SimpleName(): Option<string> {
      match this
      case Undefined => None
      case NonFunctional => Some("SystemNonFunctionalRequirement")
      case NonFunctionalInterface => Some("SystemNonFunctionalInterfaceRequirement")
      case Functional => Some("SystemFunctionalRequirement")
      case FunctionalInterface => Some("SystemFunctionalInterfaceRequirement")
      case User => Some("SystemUserRequirement")
    }
  }

  /** A value of either enumeration, as the generic `From(Class)` returns it. */
  datatype TypeEnumeration = Component(component: ComponentType) | Requirement(requirement: RequirementType) {
    function ClassType(): Option<DstClass> {
      match this
      case Component(c) => Some(c.ClassType())
      case Requirement(r) => r.ClassType()
    }
  }

  /** `VerifyEnumerationValue`: the label matches ignoring case, or there is a
      class and its simple name matches ignoring case. */
  predicate VerifyEnumerationValue(valueOrLabel: string, enumLabel: string, simpleName: Option<string>) {
    EqualsIgnoreCase(enumLabel, valueOrLabel) || (simpleName.Some? && EqualsIgnoreCase(simpleName.value, valueOrLabel))
  }

  /** The match ignores case: two strings equal but for case match the same
      values. */
  lemma VerifyEnumerationValueIgnoresCase(a: string, b: string, enumLabel: string, simpleName: Option<string>)
    requires EqualsIgnoreCase(a, b)
    ensures VerifyEnumerationValue(a, enumLabel, simpleName) <==> VerifyEnumerationValue(b, enumLabel, simpleName)
  {
    EqualsIgnoreCaseIsLowerEquality(a, b);
    EqualsIgnoreCaseIsLowerEquality(enumLabel, a);
    EqualsIgnoreCaseIsLowerEquality(enumLabel, b);
    if simpleName.Some? {
      EqualsIgnoreCaseIsLowerEquality(simpleName.value, a);
      EqualsIgnoreCaseIsLowerEquality(simpleName.value, b);
    }
  }

  predicate MatchesComponent(valueOrLabel: string, t: ComponentType) {
    VerifyEnumerationValue(valueOrLabel, t.Label(), Some(t.SimpleName()))
  }

  predicate MatchesRequirement(valueOrLabel: string, t: RequirementType) {
    VerifyEnumerationValue(valueOrLabel, t.Label(), t.SimpleName())
  }

  /** `RequirementType.From(Class)`: the value with exactly that class, else
      `Undefined`; a null class is `Undefined`'s own. */
  function RequirementTypeOfClass(requirementClass: Option<DstClass>): (r: RequirementType)
    ensures r.ClassType() == requirementClass || (r == Undefined && forall t: RequirementType :: t.ClassType() != requirementClass)
  {
    match requirementClass
    case Some(SystemNonFunctionalRequirement) => NonFunctional
    case Some(SystemNonFunctionalInterfaceRequirement) => NonFunctionalInterface
    case Some(SystemFunctionalRequirement) => Functional
    case Some(SystemFunctionalInterfaceRequirement) => FunctionalInterface
    case Some(SystemUserRequirement) => User
    case _ => Undefined
  }

  /** `CapellaTypeEnumerationUtility.From(Class)`: the component type with
      exactly that class, else the requirement type with it, else null. A
      null class finds `Undefined`. */
  function FromClass(classType: Option<DstClass>): (r: Option<TypeEnumeration>)
    ensures r.Some? ==> r.value.ClassType() == classType
    ensures r.None? <==>
      (forall t: ComponentType :: Some(t.ClassType()) != classType) && (forall t: RequirementType :: t.ClassType() != classType)
    ensures (exists t: ComponentType :: Some(t.ClassType()) == classType) ==> r.Some? && r.value.Component?
  {
    if classType == Some(PhysicalComponent) then Some(Component(Physical))
    else if classType == Some(LogicalComponent) then Some(Component(Logical))
    else
      var q := RequirementTypeOfClass(classType);
      if q.ClassType() == classType then Some(Requirement(q)) else None
  }

  /** `ComponentTypeFrom(String)` as written: the first value, in declaration
      order, whose label or class simple name matches ignoring case;
      otherwise null, since the `finally` block overrides whatever `valueOf`
      produced. */
  function ComponentTypeFrom(valueOrLabel: string): (r: Option<ComponentType>)
    ensures r.Some? ==> MatchesComponent(valueOrLabel, r.value)
    ensures r.Some? ==> forall u: ComponentType :: u.Ordinal() < r.value.Ordinal() ==> !MatchesComponent(valueOrLabel, u)
    ensures r.None? <==> forall t: ComponentType :: !MatchesComponent(valueOrLabel, t)
  {
    if MatchesComponent(valueOrLabel, Physical) then Some(Physical)
    else if MatchesComponent(valueOrLabel, Logical) then Some(Logical)
    else None
  }

  /** `ComponentTypeFrom` with the evidently intended fall-back: when nothing
      matches by label or simple name, the constant whose name equals the
      argument exactly, as `valueOf` would return it. */
  function ComponentTypeFromOrValueOf(valueOrLabel: string): (r: Option<ComponentType>)
    ensures ComponentTypeFrom(valueOrLabel).Some? ==> r == ComponentTypeFrom(valueOrLabel)
    ensures ComponentTypeFrom(valueOrLabel).None? && r.Some? ==> r.value.ConstantName() == valueOrLabel
    ensures r.None? <==> forall t: ComponentType :: !MatchesComponent(valueOrLabel, t) && t.ConstantName() != valueOrLabel
  {
    match ComponentTypeFrom(valueOrLabel)
    case Some(t) => Some(t)
    case None =>
      if valueOrLabel == Physical.ConstantName() then Some(Physical)
      else if valueOrLabel == Logical.ConstantName() then Some(Logical)
      else None
  }

  /** `RequirementTypeFrom(String)`: as for components, over the requirement
      types in declaration order, so an empty name finds `Undefined` by its
      empty label. */
  function RequirementTypeFrom(valueOrLabel: string): (r: Option<RequirementType>)
    ensures r.Some? ==> MatchesRequirement(valueOrLabel, r.value)
    ensures r.Some? ==> forall u: RequirementType :: u.Ordinal() < r.value.Ordinal() ==> !MatchesRequirement(valueOrLabel, u)
    ensures r.None? <==> forall t: RequirementType :: !MatchesRequirement(valueOrLabel, t)
  {
    if MatchesRequirement(valueOrLabel, Undefined) then Some(Undefined)
    else if MatchesRequirement(valueOrLabel, NonFunctional) then Some(NonFunctional)
    else if MatchesRequirement(valueOrLabel, NonFunctionalInterface) then Some(NonFunctionalInterface)
    else if MatchesRequirement(valueOrLabel, Functional) then Some(Functional)
    else if MatchesRequirement(valueOrLabel, FunctionalInterface) then Some(FunctionalInterface)
    else if MatchesRequirement(valueOrLabel, User) then Some(User)
    else None
  }

  /** `RequirementType.From(String)`: the constant with exactly that name
      (`valueOf`), else the first whose label matches ignoring case, else
      `Undefined`. */
  function RequirementTypeOfString(valueOrLabel: string): (r: RequirementType)
    ensures (exists t: RequirementType :: t.ConstantName() == valueOrLabel) ==> r.ConstantName() == valueOrLabel
    ensures (forall t: RequirementType :: t.ConstantName() != valueOrLabel) ==>
      (r == Undefined || EqualsIgnoreCase(r.Label(), valueOrLabel))
      && forall u: RequirementType :: u.Ordinal() < r.Ordinal() ==> !EqualsIgnoreCase(u.Label(), valueOrLabel)
  {
    match ValueOf(valueOrLabel)
    case Some(t) => t
    case None =>
      if EqualsIgnoreCase(Undefined.Label(), valueOrLabel) then Undefined
      else if EqualsIgnoreCase(NonFunctional.Label(), valueOrLabel) then NonFunctional
      else if EqualsIgnoreCase(NonFunctionalInterface.Label(), valueOrLabel) then NonFunctionalInterface
      else if EqualsIgnoreCase(Functional.Label(), valueOrLabel) then Functional
      else if EqualsIgnoreCase(FunctionalInterface.Label(), valueOrLabel) then FunctionalInterface
      else if EqualsIgnoreCase(User.Label(), valueOrLabel) then User
      else Undefined
  }

  /** `RequirementType.valueOf`; `None` stands for the
      `IllegalArgumentException` it throws on an unknown name. */
  function ValueOf(name: string): (r: Option<RequirementType>)
    ensures r.Some? ==> r.value.ConstantName() == name
    ensures r.None? ==> forall t: RequirementType :: t.ConstantName() != name
  {
    if name == "Undefined" then Some(Undefined)
    else if name == "NonFunctional" then Some(NonFunctional)
    else if name == "NonFunctionalInterface" then Some(NonFunctionalInterface)
    else if name == "Functional" then Some(Functional)
    else if name == "FunctionalInterface" then Some(FunctionalInterface)
    else if name == "User" then Some(User)
    else
      RequirementTypeNames(name);
      None
  }

  /** The six constant names are the only ones `valueOf` accepts. */
  lemma RequirementTypeNames(name: string)
    requires name !in {"Undefined", "NonFunctional", "NonFunctionalInterface", "Functional", "FunctionalInterface", "User"}
    ensures forall t: RequirementType :: t.ConstantName() != name
  {
    forall t: RequirementType
      ensures t.ConstantName() != name
    {
      match t
      case Undefined =>
      case NonFunctional =>
      case NonFunctionalInterface =>
      case Functional =>
      case FunctionalInterface =>
      case User =>
    }
  }

  // --- round trips ------------------------------------------------------

  /** Every component type is found again from its label, from its class's
      simple name, and from its class. */
  lemma ComponentTypeRoundTrips(t: ComponentType)
    ensures ComponentTypeFrom(t.Label()) == Some(t)
    ensures ComponentTypeFrom(t.SimpleName()) == Some(t)
    ensures FromClass(Some(t.ClassType())) == Some(Component(t))
  {
    if t == Logical {
      assert ToLower(Physical.SimpleName()[0]) != ToLower(t.Label()[0]);
      assert !MatchesComponent(t.Label(), Physical);
      assert !MatchesComponent(t.SimpleName(), Physical);
    }
  }

  /** As written, no component type is found from its own constant name; the
      corrected lookup finds each. */
  lemma ComponentTypeFromIgnoresConstantName(t: ComponentType)
    ensures ComponentTypeFrom(t.ConstantName()) == None
    ensures ComponentTypeFromOrValueOf(t.ConstantName()) == Some(t)
  {
    assert !MatchesComponent(t.ConstantName(), Physical);
    assert !MatchesComponent(t.ConstantName(), Logical);
  }

  /** Every requirement type is found again from its class. */
  lemma RequirementTypeClassRoundTrip(t: RequirementType)
    ensures RequirementTypeOfClass(t.ClassType()) == t
    ensures FromClass(t.ClassType()) == Some(Requirement(t))
  {
  }

  /** `RequirementType.From(String)` finds every value again from its label
      and from its constant name. */
  lemma RequirementTypeStringRoundTrip(t: RequirementType)
    ensures RequirementTypeOfString(t.Label()) == t
    ensures RequirementTypeOfString(t.ConstantName()) == t
  {
    if t != Functional {
      RequirementTypeNames(t.Label());
    }
    forall u: RequirementType | u.Ordinal() < t.Ordinal()
      ensures !EqualsIgnoreCase(u.Label(), t.Label())
    {
      LabelsAndNamesDiffer(u, t);
    }
  }

  /** `RequirementTypeFrom` finds every value again from its label, and each
      one but `Undefined` from its class's simple name. */
  lemma RequirementTypeFromRoundTrip(t: RequirementType)
    ensures RequirementTypeFrom(t.Label()) == Some(t)
    ensures t != Undefined ==> RequirementTypeFrom(t.SimpleName().value) == Some(t)
  {
    FoundOnlyByItself(t.Label(), t);
    if t != Undefined {
      FoundOnlyByItself(t.SimpleName().value, t);
    }
  }

  /** A label or simple name of `t` is matched by no other value, so
      `RequirementTypeFrom` finds `t` from it. */
  lemma FoundOnlyByItself(name: string, t: RequirementType)
    requires name == t.Label() || (t != Undefined && name == t.SimpleName().value)
    ensures RequirementTypeFrom(name) == Some(t)
  {
    assert MatchesRequirement(name, t);
    forall u: RequirementType | u != t
      ensures !MatchesRequirement(name, u)
    {
      NoOtherMatches(name, u, t);
    }
    var r := RequirementTypeFrom(name);
    assert r.value == t;
  }

  /** A label or simple name of `t` is not matched by another value `u`. */
  lemma NoOtherMatches(name: string, u: RequirementType, t: RequirementType)
    requires name == t.Label() || (t != Undefined && name == t.SimpleName().value)
    requires u != t
    ensures !MatchesRequirement(name, u)
  {
    LabelsAndNamesDiffer(u, t);
  }

  /** Labels and class simple names differ in length from one value to
      another, so no two of them are equal ignoring case. */
  lemma LabelsAndNamesDiffer(u: RequirementType, t: RequirementType)
    requires u != t
    ensures |u.Label()| != |t.Label()|
    ensures u != Undefined ==> |u.SimpleName().value| != |t.Label()|
    ensures t != Undefined ==> |u.Label()| != |t.SimpleName().value|
    ensures u != Undefined && t != Undefined ==> |u.SimpleName().value| != |t.SimpleName().value|
  {
    LengthsIdentify(u);
    LengthsIdentify(t);
  }

  /** The value whose label, or else whose class simple name, has length
      `n`; `None` when no label or name has it. */
  function ByLength(n: nat): (r: Option<(RequirementType, bool)>)
    ensures r.Some? && r.value.1 ==> |r.value.0.Label()| == n
  {
    if n == 0 then Some((Undefined, true))
    else if n == 14 then Some((NonFunctional, true))
    else if n == 24 then Some((NonFunctionalInterface, true))
    else if n == 10 then Some((Functional, true))
    else if n == 20 then Some((FunctionalInterface, true))
    else if n == 16 then Some((User, true))
    else if n == 30 then Some((NonFunctional, false))
    else if n == 39 then Some((NonFunctionalInterface, false))
    else if n == 27 then Some((Functional, false))
    else if n == 36 then Some((FunctionalInterface, false))
    else if n == 21 then Some((User, false))
    else None
  }

  /** A label's length identifies its value, and so does a class simple
      name's. */
  lemma LengthsIdentify(t: RequirementType)
    ensures ByLength(|t.Label()|) == Some((t, true))
    ensures t != Undefined ==> ByLength(|t.SimpleName().value|) == Some((t, false))
  {
  }
}
