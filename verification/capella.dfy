/** The Capella (DST) side of the adapter: model objects are abstract records
    carrying what the adapter reads from them. `ref` stands for Java object
    identity, which the adapter compares with `==`; `id` is the Capella
    identifier, compared with `equals`. */
module Capella {
  import opened Wrappers

  /** `CapellaArchitecture`, in declaration order. */
  datatype Architecture =
    | OperationalAnalysis
    | SystemAnalysis
    | LogicalArchitecture
    | PhysicalArchitecture
    | EPBSArchitecture

  /** The concrete Capella classes the adapter distinguishes. */
  datatype DstClass =
    | LogicalComponent
    | PhysicalComponent
    | ComponentPkg
    | PhysicalComponentPkg
    | RequirementsPkg
    | OtherStructure
    | SystemNonFunctionalRequirement
    | SystemNonFunctionalInterfaceRequirement
    | SystemFunctionalRequirement
    | SystemFunctionalInterfaceRequirement
    | SystemUserRequirement
    | OtherRequirement
    | Interface
    | ComponentPort
    | Part
    | Property
    | GenericTrace
    | OtherNamedElement
    | OtherCapellaElement
    | NonCapellaObject

  predicate IsComponent(c: DstClass) {
    c == LogicalComponent || c == PhysicalComponent
  }

  predicate IsRequirement(c: DstClass) {
    c == SystemNonFunctionalRequirement || c == SystemNonFunctionalInterfaceRequirement
    || c == SystemFunctionalRequirement || c == SystemFunctionalInterfaceRequirement
    || c == SystemUserRequirement || c == OtherRequirement
  }

  /** Packages: subclasses of Capella's `Structure`. */
  predicate IsStructure(c: DstClass) {
    c == ComponentPkg || c == PhysicalComponentPkg || c == RequirementsPkg || c == OtherStructure
  }

  predicate IsCapellaElement(c: DstClass) {
    c != NonCapellaObject
  }

  predicate IsNamedElement(c: DstClass) {
    c != NonCapellaObject && c != OtherCapellaElement && c != GenericTrace
  }

  /** A Capella model object: identity, identifier, name, class, the
      architecture its root block architecture belongs to (what
      `CapellaArchitecture.From(element)` reports, `None` for none), the
      requirement identifier and description (empty for other classes), the
      identifiers of the targets of its outgoing traces, and its contained
      objects (`eContents`). */
  datatype Element = Element(
    ref: nat,
    id: string,
    name: string,
    cls: DstClass,
    root: Option<Architecture>,
    requirementId: string,
    description: string,
    traces: seq<string>,
    contents: seq<Element>)

  /** A Capella trace as the adapter reads and writes it: identifier,
      summary, and its source and target elements. */
  datatype Trace = Trace(id: string, summary: string, source: Element, target: Element)
}
