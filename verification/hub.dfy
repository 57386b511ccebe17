/** The COMET Hub side of the adapter. Things are identified by their `iid`
    (a UUID, kept here as a string) and typed by their `ClassKind`. */
module Hub {
  import opened Wrappers

  /** The `ClassKind` values the adapter tells apart. */
  datatype ClassKind =
    | ElementDefinition
    | ElementUsage
    | RequirementsSpecification
    | RequirementsGroup
    | Requirement
    | BinaryRelationship
    | Category
    | Definition
    | Parameter
    | OtherKind

  /** A Hub thing: identifier, class kind, name and short name. */
  datatype Thing = Thing(iid: string, kind: ClassKind, name: string, shortName: string)

  /** A `Relationship` of the iteration; only the binary ones have a source
      and a target. */
  datatype Relationship = Relationship(iid: string, name: string, isBinary: bool, sourceIid: string, targetIid: string)

  /** A `Category` of a reference data library. */
  datatype CategoryThing = CategoryThing(iid: string, name: string, shortName: string, permissibleClasses: seq<ClassKind>)

  /** A requirement `Definition`: a text in one language. */
  datatype DefinitionThing = DefinitionThing(iid: string, languageCode: string, content: string)

  /** A `RequirementsSpecification` with the requirements it holds. */
  datatype Specification = Specification(thing: Thing, requirements: seq<Thing>)

  /** What the adapter reads from the open iteration: its element
      definitions and its requirements specifications, in order. */
  datatype Iteration = Iteration(elements: seq<Thing>, specifications: seq<Specification>)

  /** A Hub `Requirement`: the thing, the iid of the group it belongs to
      (none: directly under its specification), its definitions and its
      categories. */
  datatype RequirementThing = RequirementThing(thing: Thing, group: Option<string>,
                                               definitions: seq<DefinitionThing>, categories: seq<CategoryThing>)

  /** A `RequirementsGroup`, with the iid of the group that contains it
      (none: the specification itself). */
  datatype GroupThing = GroupThing(thing: Thing, parent: Option<string>)

  /** A `RequirementsSpecification` with its requirements and every group it
      contains, at any depth. */
  datatype SpecificationContents = SpecificationContents(thing: Thing, requirements: seq<RequirementThing>, groups: seq<GroupThing>)
}
