/** Containment helpers of `StereotypeUtils`: filtering children by class,
    the recursive ownership test, and the search for the package a Capella
    requirement should be specified under. */
module Stereotypes {
  import opened Wrappers
  import opened Sequences
  import opened Capella

  /** The Java class a caller passes to `GetChildren`; a child is kept when
      that class is assignable from the child's class. */
  datatype ClassFilter =
    | AnyObject
    | AnyCapellaElement
    | AnyComponent
    | AnyRequirement
    | AnyStructure
    | Exactly(cls: DstClass)

  predicate InstanceOf(c: DstClass, f: ClassFilter) {
    match f
    case AnyObject => true
    case AnyCapellaElement => IsCapellaElement(c)
    case AnyComponent => IsComponent(c)
    case AnyRequirement => IsRequirement(c)
    case AnyStructure => IsStructure(c)
    case Exactly(k) => c == k
  }

  /** `GetChildren(element, clazz)`; `contents` is `None` when `eContents()`
      is null. */
  function GetChildren(contents: Option<seq<Element>>, filter: ClassFilter): (r: seq<Element>)
    ensures contents.None? ==> r == []
    ensures contents.Some? ==> IsSubsequence(r, contents.value)
    ensures forall i :: 0 <= i < |r| ==> InstanceOf(r[i].cls, filter)
    ensures contents.Some? ==>
      forall i :: 0 <= i < |contents.value| && InstanceOf(contents.value[i].cls, filter) ==> contents.value[i] in r
  {
    match contents
    case None => []
    case Some(children) => Filter(children, (e: Element) => InstanceOf(e.cls, filter))
  }

  /** `IsOwnedBy(element, parent)`: false for a parent without contents;
      otherwise looks through the parent's Capella children, in order, for
      one with the element's id or one that owns it in turn. */
  function IsOwnedBy(element: Element, parent: Element): bool
    decreases parent, |parent.contents| + 1
  {
    |parent.contents| > 0 && OwnedByChildFrom(element, parent, 0)
  }

  function OwnedByChildFrom(element: Element, parent: Element, i: nat): bool
    decreases parent, |parent.contents| - i
  {
    if i >= |parent.contents| then false
    else
      var child := parent.contents[i];
      (IsCapellaElement(child.cls)
       && (child.id == element.id || (|child.contents| > 0 && IsOwnedBy(element, child))))
      || OwnedByChildFrom(element, parent, i + 1)
  }

  /** The object reached from `root` by following child positions, provided
      every object on the way after `root` is a Capella element. */
  function Follow(root: Element, path: seq<nat>): Option<Element>
    decreases |path|
  {
    if |path| == 0 then Some(root)
    else if path[0] < |root.contents| && IsCapellaElement(root.contents[path[0]].cls)
    then Follow(root.contents[path[0]], path[1..])
    else None
  }

  /** Some proper descendant, reached through Capella elements only, has
      identifier `id`. */
  ghost predicate OwnsId(parent: Element, id: string) {
    exists path: seq<nat> :: |path| > 0 && Follow(parent, path).Some? && Follow(parent, path).value.id == id
  }

  /** The ownership test holds exactly when some descendant carries the
      element's identifier; in particular it fails for a childless parent. */
  lemma IsOwnedByIff(element: Element, parent: Element)
    ensures IsOwnedBy(element, parent) <==> OwnsId(parent, element.id)
    ensures |parent.contents| == 0 ==> !IsOwnedBy(element, parent)
  {
    if IsOwnedBy(element, parent) {
      OwnedImpliesPath(element, parent);
    }
    if OwnsId(parent, element.id) {
      var path: seq<nat> :| |path| > 0 && Follow(parent, path).Some? && Follow(parent, path).value.id == element.id;
      PathImpliesOwned(element, parent, path);
    }
  }

  lemma {:induction false} OwnedImpliesPath(element: Element, parent: Element)
    requires IsOwnedBy(element, parent)
    ensures OwnsId(parent, element.id)
    decreases parent, 0
  {
    var i := OwnedChildIndex(element, parent, 0);
    var child := parent.contents[i];
    if child.id == element.id {
      assert Follow(parent, [i]) == Follow(child, []);
    } else {
      OwnedImpliesPath(element, child);
      var rest: seq<nat> :| |rest| > 0 && Follow(child, rest).Some? && Follow(child, rest).value.id == element.id;
      assert ([i] + rest)[1..] == rest;
      assert Follow(parent, [i] + rest) == Follow(child, rest);
    }
  }

  /** The position of the child that made the ownership test succeed. */
  lemma {:induction false} OwnedChildIndex(element: Element, parent: Element, from: nat) returns (i: nat)
    requires OwnedByChildFrom(element, parent, from)
    ensures from <= i < |parent.contents|
    ensures IsCapellaElement(parent.contents[i].cls)
    ensures parent.contents[i].id == element.id
      || (|parent.contents[i].contents| > 0 && IsOwnedBy(element, parent.contents[i]))
    decreases |parent.contents| - from
  {
    var child := parent.contents[from];
    if IsCapellaElement(child.cls)
       && (child.id == element.id || (|child.contents| > 0 && IsOwnedBy(element, child))) {
      i := from;
    } else {
      i := OwnedChildIndex(element, parent, from + 1);
    }
  }

  lemma {:induction false} OwnedFromEarlier(element: Element, parent: Element, from: nat, i: nat)
    requires from <= i < |parent.contents|
    requires IsCapellaElement(parent.contents[i].cls)
    requires parent.contents[i].id == element.id
      || (|parent.contents[i].contents| > 0 && IsOwnedBy(element, parent.contents[i]))
    ensures OwnedByChildFrom(element, parent, from)
    decreases i - from
  {
    if from < i {
      OwnedFromEarlier(element, parent, from + 1, i);
    }
  }

  lemma {:induction false} PathImpliesOwned(element: Element, parent: Element, path: seq<nat>)
    requires |path| > 0 && Follow(parent, path).Some? && Follow(parent, path).value.id == element.id
    ensures IsOwnedBy(element, parent)
    decreases |path|
  {
    var i := path[0];
    var child := parent.contents[i];
    if |path| == 1 {
      assert Follow(child, path[1..]) == Some(child);
    } else {
      PathImpliesOwned(element, child, path[1..]);
      assert path[1..][0] < |child.contents|;
    }
    OwnedFromEarlier(element, parent, 0, i);
  }

  // --- TryGetPossibleRequirementsSpecificationElement -------------------

  /** State of the search loop. `ancestors[0]` is the requirement's container,
      `ancestors[k + 1]` the container of `ancestors[k]`; the sequence ends
      where a container is null. `last` and `current` are positions in it,
      `parent` the value stored in the `possibleParent` reference. */
  datatype SearchState = SearchState(last: Option<nat>, current: Option<nat>, parent: Option<Element>)

  predicate ValidState(ancestors: seq<Element>, s: SearchState) {
    (s.last.Some? ==> s.last.value < |ancestors|) && (s.current.Some? ==> s.current.value < |ancestors|)
  }

  /** The loop condition: no parent found yet and a current object. */
  predicate Running(s: SearchState) {
    s.parent.None? && s.current.Some?
  }

  function Start(ancestors: seq<Element>): (s: SearchState)
    ensures ValidState(ancestors, s)
  {
    SearchState(None, if |ancestors| > 0 then Some(0) else None, None)
  }

  /** One pass of the loop body. With `guarded` set, the pass also ends the
      loop when the object looked at is not a package and no package has been
      seen yet, which is the state the unguarded loop can never leave. */
  function Step(ancestors: seq<Element>, s: SearchState, guarded: bool): (t: SearchState)
    requires ValidState(ancestors, s) && Running(s)
    ensures ValidState(ancestors, t)
  {
    var c := s.current.value;
    var isPkg := ancestors[c].cls == RequirementsPkg;
    var last := if isPkg then Some(c) else s.last;
    var parent := if isPkg || s.last.None? then None else Some(ancestors[s.last.value]);
    var current :=
      if guarded && !isPkg && s.last.None? then None
      else match last
        case None => if |ancestors| > 0 then Some(0) else None
        case Some(l) => if l + 1 < |ancestors| then Some(l + 1) else None;
    SearchState(last, current, parent)
  }

  /** At most `fuel` passes of the loop. */
  function Run(ancestors: seq<Element>, s: SearchState, guarded: bool, fuel: nat): (t: SearchState)
    requires ValidState(ancestors, s)
    ensures ValidState(ancestors, t)
    ensures fuel == 0 || !Running(s) ==> t == s
    decreases fuel
  {
    if fuel == 0 || !Running(s) then s else Run(ancestors, Step(ancestors, s, guarded), guarded, fuel - 1)
  }

  datatype SearchOutcome = Found(pkg: Element) | NotFound | Diverges

  /** The number of leading requirement packages in the chain. */
  function PackageRun(ancestors: seq<Element>): (k: nat)
    ensures k <= |ancestors|
    ensures forall j :: 0 <= j < k ==> ancestors[j].cls == RequirementsPkg
    ensures k < |ancestors| ==> ancestors[k].cls != RequirementsPkg
  {
    if |ancestors| == 0 || ancestors[0].cls != RequirementsPkg then 0
    else 1 + PackageRun(ancestors[1..])
  }

  /** What the loop ends with: the outermost package of the unbroken chain of
      requirement packages above the requirement, found when that chain is
      followed by a non-package; nothing when the chain runs into a null
      container; and no end at all when the direct container is not a
      requirement package. */
  function PossibleSpecificationParent(ancestors: seq<Element>): (r: SearchOutcome)
    ensures r.Found? ==> r.pkg.cls == RequirementsPkg
    ensures r.Found? <==> 0 < PackageRun(ancestors) < |ancestors|
    ensures r.Found? ==>
      r.pkg == ancestors[PackageRun(ancestors) - 1] && ancestors[PackageRun(ancestors)].cls != RequirementsPkg
    ensures r.Diverges? <==> |ancestors| > 0 && ancestors[0].cls != RequirementsPkg
  {
    var k := PackageRun(ancestors);
    if |ancestors| == 0 then NotFound
    else if k == 0 then Diverges
    else if k == |ancestors| then NotFound
    else Found(ancestors[k - 1])
  }

  /** As written, when the direct container is not a requirement package, a
      pass of the loop leaves its state exactly as it was: however many passes
      are allowed, the loop is still running. */
  lemma SearchDivergesAtStart(ancestors: seq<Element>, fuel: nat)
    requires PossibleSpecificationParent(ancestors).Diverges?
    ensures Running(Start(ancestors)) && Step(ancestors, Start(ancestors), false) == Start(ancestors)
    ensures Running(Run(ancestors, Start(ancestors), false, fuel))
  {
    StaysAtFixedPoint(ancestors, Start(ancestors), fuel);
  }

  lemma {:induction false} StaysAtFixedPoint(ancestors: seq<Element>, s: SearchState, fuel: nat)
    requires ValidState(ancestors, s) && Running(s) && Step(ancestors, s, false) == s
    ensures Run(ancestors, s, false, fuel) == s
    decreases fuel
  {
    if fuel > 0 {
      StaysAtFixedPoint(ancestors, s, fuel - 1);
    }
  }

  /** In every other case the loop, guarded or not, stops within
      `|ancestors| + 1` passes, having stored exactly the package
      `PossibleSpecificationParent` names, or none. */
  lemma SearchTerminates(ancestors: seq<Element>, guarded: bool)
    requires !PossibleSpecificationParent(ancestors).Diverges?
    ensures var t := Run(ancestors, Start(ancestors), guarded, |ancestors| + 1);
      && !Running(t)
      && (PossibleSpecificationParent(ancestors).Found? ==> t.parent == Some(PossibleSpecificationParent(ancestors).pkg))
      && (PossibleSpecificationParent(ancestors).NotFound? ==> t.parent.None?)
  {
    if |ancestors| > 0 {
      var s1 := Step(ancestors, Start(ancestors), guarded);
      assert s1 == SearchState(Some(0), if 1 < |ancestors| then Some(1) else None, None);
      RunInsideChain(ancestors, guarded, 1, |ancestors|);
    }
  }

  /** The guarded loop always stops, within `|ancestors| + 1` passes, and
      reports a parent exactly when `PossibleSpecificationParent` finds one. */
  lemma SearchGuardedTerminates(ancestors: seq<Element>)
    ensures var t := Run(ancestors, Start(ancestors), true, |ancestors| + 1);
      && !Running(t)
      && (t.parent.Some? <==> PossibleSpecificationParent(ancestors).Found?)
      && (t.parent.Some? ==> t.parent.value == PossibleSpecificationParent(ancestors).pkg)
  {
    if PossibleSpecificationParent(ancestors).Diverges? {
      var t := Step(ancestors, Start(ancestors), true);
      assert t == SearchState(None, None, None);
      assert Run(ancestors, t, true, |ancestors|) == t;
    } else {
      SearchTerminates(ancestors, true);
    }
  }

  /** Inside the chain of packages, after `j` passes the loop has `last` on
      package `j - 1` and `current` on the next object. */
  lemma {:induction false} RunInsideChain(ancestors: seq<Element>, guarded: bool, j: nat, fuel: nat)
    requires 0 < j <= PackageRun(ancestors)
    requires fuel + j >= |ancestors|
    ensures var s := SearchState(Some(j - 1), if j < |ancestors| then Some(j) else None, None);
      var t := Run(ancestors, s, guarded, fuel);
      && !Running(t)
      && (PossibleSpecificationParent(ancestors).Found? ==> t.parent == Some(PossibleSpecificationParent(ancestors).pkg))
      && (PossibleSpecificationParent(ancestors).NotFound? ==> t.parent.None?)
    decreases |ancestors| - j
  {
    var s := SearchState(Some(j - 1), if j < |ancestors| then Some(j) else None, None);
    var k := PackageRun(ancestors);
    if j == |ancestors| {
      assert Run(ancestors, s, guarded, fuel) == s;
    } else if j == k {
      var t := Step(ancestors, s, guarded);
      assert t.parent == Some(ancestors[j - 1]);
      assert Run(ancestors, t, guarded, fuel - 1) == t;
    } else {
      var t := Step(ancestors, s, guarded);
      assert t == SearchState(Some(j), if j + 1 < |ancestors| then Some(j + 1) else None, None);
      RunInsideChain(ancestors, guarded, j + 1, fuel - 1);
    }
  }

  /** What the search stores in `possibleParent`, with the loop guarded so
      that it always ends: the package `PossibleSpecificationParent` finds,
      or nothing. */
  function SpecificationParent(ancestors: seq<Element>): (r: Option<Element>)
    ensures r.Some? <==> PossibleSpecificationParent(ancestors).Found?
    ensures r.Some? ==> r.value == PossibleSpecificationParent(ancestors).pkg && r.value.cls == RequirementsPkg
  {
    SearchGuardedTerminates(ancestors);
    Run(ancestors, Start(ancestors), true, |ancestors| + 1).parent
  }
}
