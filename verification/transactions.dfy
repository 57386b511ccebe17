/** `CapellaTransactionService`: the registry of clones of existing Capella
    elements, of newly created elements and of the architecture each new
    element is meant for, kept until the changes are committed or reset.
    Java object identity is the `ref` field; the registry hands out fresh
    references from its counter. */
module Transactions {
  import opened Wrappers
  import opened Capella
  import opened Stereotypes

  /** `ClonedReferenceElement`: an original and its working copy. */
  datatype ClonedReference = ClonedReference(original: Element, clone: Element)

  /** The three hash maps of the service, keyed by element id, and the
      counter for fresh object references. */
  datatype Registry = Registry(
    clones: map<string, ClonedReference>,
    news: map<string, Element>,
    archs: map<string, Architecture>,
    nextRef: nat)

  /** What the registry keeps true: every entry sits under its own id, a
      clone is a different object from its original, and every object the
      registry made has a reference below the counter. */
  predicate Valid(reg: Registry) {
    && (forall id :: id in reg.clones ==>
          reg.clones[id].original.id == id && reg.clones[id].clone.id == id
          && IsCapellaElement(reg.clones[id].original.cls) && reg.clones[id].clone.cls == reg.clones[id].original.cls
          && reg.clones[id].clone.ref != reg.clones[id].original.ref
          && reg.clones[id].clone.ref < reg.nextRef)
    && (forall id :: id in reg.news ==> reg.news[id].id == id && reg.news[id].ref < reg.nextRef)
  }

  const Empty: Registry := Registry(map[], map[], map[], 0)

  /** `GetClone`. */
  function GetClone(reg: Registry, element: Element): (r: Option<ClonedReference>)
    ensures r.Some? <==> element.id in reg.clones
    ensures r.Some? ==> r.value == reg.clones[element.id]
  {
    if element.id in reg.clones then Some(reg.clones[element.id]) else None
  }

  /** `GetNew(id, class)`. */
  function GetNew(reg: Registry, id: string): (r: Option<Element>)
    ensures r.Some? <==> id in reg.news
    ensures Valid(reg) && r.Some? ==> r.value.id == id
  {
    if id in reg.news then Some(reg.news[id]) else None
  }

  /** `IsCloned`: a Capella element that is the very object (same
      reference) registered as the clone under its id. */
  predicate IsCloned(reg: Registry, element: Element) {
    IsCapellaElement(element.cls) && element.id in reg.clones && reg.clones[element.id].clone.ref == element.ref
  }

  /** `IsNew`: the very object created under its id. */
  predicate IsNew(reg: Registry, element: Element) {
    element.id in reg.news && reg.news[element.id].ref == element.ref
  }

  /** `IsClonedOrNew`. */
  function IsClonedOrNew(reg: Registry, element: Element): (r: bool)
    ensures r <==> IsCapellaElement(element.cls) && (IsCloned(reg, element) || IsNew(reg, element))
  {
    if !IsCapellaElement(element.cls) then false
    else if IsCloned(reg, element) then true
    else IsNew(reg, element)
  }

  /** `GetOriginal`: the original of a registered clone, any other element
      itself. */
  function GetOriginal(reg: Registry, element: Element): (r: Element)
    ensures Valid(reg) ==> r.id == element.id
    ensures !IsCloned(reg, element) ==> r == element
    ensures IsCloned(reg, element) ==> r == reg.clones[element.id].original
    ensures Valid(reg) && IsCloned(reg, element) ==> r.ref != element.ref
  {
    if IsCloned(reg, element) then reg.clones[element.id].original else element
  }

  /** `Clone`: a null original gives null; an original already cloned gives
      the existing clone and leaves the registry alone; otherwise a copy
      under a fresh reference is registered under the original's id. */
  function Clone(reg: Registry, original: Option<Element>): (r: (Registry, Option<Element>))
    requires Valid(reg)
    requires original.Some? ==> IsCapellaElement(original.value.cls)
    ensures Valid(r.0)
    ensures original.None? ==> r == (reg, None)
    ensures original.Some? ==> r.1.Some? && r.1.value.id == original.value.id && IsCloned(r.0, r.1.value)
    ensures original.Some? && original.value.id in reg.clones ==>
      r == (reg, Some(reg.clones[original.value.id].clone))
    ensures original.Some? && original.value.id !in reg.clones ==>
      && r.1.value == original.value.(ref := r.1.value.ref)
      && r.1.value.ref != original.value.ref
      && r.0.clones == reg.clones[original.value.id := ClonedReference(original.value, r.1.value)]
      && r.0.news == reg.news && r.0.archs == reg.archs
  {
    match original
    case None => (reg, None)
    case Some(o) =>
      if o.id in reg.clones then (reg, Some(reg.clones[o.id].clone))
      else
        var freshRef := if reg.nextRef > o.ref then reg.nextRef else o.ref + 1;
        var copy := o.(ref := freshRef);
        (reg.(clones := reg.clones[o.id := ClonedReference(o, copy)], nextRef := freshRef + 1), Some(copy))
  }

  /** After cloning a Capella element, the copy is recognised as a clone;
      on a first cloning its original is the element and it is a different
      object; cloning the element again hands back the same copy and changes
      nothing. */
  lemma CloneRoundTrip(reg: Registry, original: Element)
    requires Valid(reg) && IsCapellaElement(original.cls)
    requires !IsCloned(reg, original)
    ensures var r := Clone(reg, Some(original));
      && IsCloned(r.0, r.1.value)
      && (original.id !in reg.clones ==> GetOriginal(r.0, r.1.value) == original && r.1.value != original)
      && Clone(r.0, Some(original)) == r
  {
  }

  /** `Create(class[, name])`. The EMF factory is outside the model:
      `created` says whether it could build an instance of the class,
      `newId` is the identifier it gave it. A created element is registered
      as new and named when a name is given; a failed one is null, and
      nothing changes. */
  function Create(reg: Registry, cls: DstClass, created: bool, newId: string, name: Option<string>): (r: (Registry, Option<Element>))
    requires Valid(reg)
    ensures Valid(r.0)
    ensures !created ==> r == (reg, None)
    ensures created ==>
      && r.1.Some?
      && r.1.value.id == newId && r.1.value.cls == cls && r.1.value.contents == [] && r.1.value.traces == []
      && r.1.value.name == name.GetOr("")
      && IsNew(r.0, r.1.value)
      && r.0.clones == reg.clones && r.0.archs == reg.archs
      && r.0.news == reg.news[newId := r.1.value]
  {
    if !created then (reg, None)
    else
      var e := Element(reg.nextRef, newId, name.GetOr(""), cls, None, "", "", [], []);
      (reg.(news := reg.news[newId := e], nextRef := reg.nextRef + 1), Some(e))
  }

  /** `Create(class, name, architecture)`: `Create(class, name)`, then the
      architecture registered for the new element unless one was recorded
      for its id before. When the factory builds nothing, the registration
      dereferences null and throws, which is nothing here. */
  function CreateForArchitecture(reg: Registry, cls: DstClass, created: bool, newId: string, name: string,
                                 architecture: Architecture): (r: Option<(Registry, Element)>)
    requires Valid(reg)
    ensures r.None? <==> !created
    ensures r.Some? ==>
      && Valid(r.value.0)
      && r.value.1.id == newId && r.value.1.cls == cls && r.value.1.contents == [] && r.value.1.traces == []
      && r.value.1.name == name
      && IsNew(r.value.0, r.value.1)
      && r.value.0.clones == reg.clones
      && r.value.0.news == reg.news[newId := r.value.1]
      && r.value.0.archs == (if newId in reg.archs then reg.archs else reg.archs[newId := architecture])
  {
    match Create(reg, cls, created, newId, Some(name))
    case (_, None) => None
    case (reg1, Some(e)) => Some((RegisterTargetArchitecture(reg1, e, architecture), e))
  }

  /** `GetTargetArchitecture`. */
  function GetTargetArchitecture(reg: Registry, element: Element): (r: Option<Architecture>)
    ensures r.Some? <==> element.id in reg.archs
    ensures r.Some? ==> r.value == reg.archs[element.id]
  {
    if element.id in reg.archs then Some(reg.archs[element.id]) else None
  }

  /** `RegisterTargetArchitecture`: `putIfAbsent`, so the first registration
      for an id wins. */
  function RegisterTargetArchitecture(reg: Registry, element: Element, architecture: Architecture): (r: Registry)
    ensures Valid(reg) ==> Valid(r)
    ensures r.clones == reg.clones && r.news == reg.news && r.nextRef == reg.nextRef
    ensures GetTargetArchitecture(r, element) == Some(GetTargetArchitecture(reg, element).GetOr(architecture))
    ensures forall id :: id != element.id ==> (id in r.archs <==> id in reg.archs)
    ensures forall id :: id != element.id && id in reg.archs ==> r.archs[id] == reg.archs[id]
  {
    if element.id in reg.archs then reg else reg.(archs := reg.archs[element.id := architecture])
  }

  /** Registering again for the same element changes nothing. */
  lemma RegisterTargetArchitectureFirstWins(reg: Registry, element: Element, first: Architecture, second: Architecture)
    ensures var r := RegisterTargetArchitecture(reg, element, first);
      RegisterTargetArchitecture(r, element, second) == r
  {
  }

  /** `Reset`: forget every clone, new element and architecture. */
  function Reset(reg: Registry): (r: Registry)
    ensures Valid(r)
    ensures forall e: Element :: !IsCloned(r, e) && !IsNew(r, e) && GetTargetArchitecture(r, e).None?
    ensures r.nextRef == reg.nextRef
  {
    Registry(map[], map[], map[], reg.nextRef)
  }

  /** `Commit`: the transaction body runs outside the model and reports
      `succeeded`; the registry is reset whatever the outcome. */
  function Commit(reg: Registry, succeeded: bool): (r: (Registry, bool))
    ensures r.1 == succeeded
    ensures r.0 == Reset(reg)
  {
    (Reset(reg), succeeded)
  }

  /** `GetClones(Class)`: the registered clones whose original is an instance
      of the class. */
  function GetClonesOf(reg: Registry, filter: ClassFilter): (r: set<ClonedReference>)
    ensures forall c :: c in r ==> InstanceOf(c.original.cls, filter)
    ensures forall id :: id in reg.clones && InstanceOf(reg.clones[id].original.cls, filter) ==> reg.clones[id] in r
    ensures forall c :: c in r ==> exists id :: id in reg.clones && reg.clones[id] == c
  {
    set id | id in reg.clones && InstanceOf(reg.clones[id].original.cls, filter) :: reg.clones[id]
  }
}
