/** The older `DstController` of the repository's top-level `src` tree:
    the direction toggle, select-all by class kind, the guard that adds a
    thing to an iteration container only once, and what `Transfer` and
    `TransferToHub` report and leave behind. The Hub is a parameter. */
module LegacyController {
  import opened Wrappers
  import opened Sequences
  import opened Capella
  import opened Hub
  import opened Rows

  /** The older controller's state: the direction, the two map results and
      the two transfer selections (Hub things, and the Capella elements of
      the Hub-to-Capella rows, nulls included). */
  datatype State = State(
    direction: MappingDirection,
    dstMapResult: seq<MappedRow>,
    hubMapResult: seq<MappedRow>,
    selectedDst: seq<Thing>,
    selectedHub: seq<Option<Element>>)

  /** `ChangeMappingDirection`: toggles between the two directions and
      changes nothing else. */
  function ChangeMappingDirection(s: State): (r: State)
    ensures r.direction != s.direction
    ensures r == s.(direction := r.direction)
  {
    s.(direction := Opposite(s.direction))
  }

  // Select all / deselect all

  /** Whether some Capella-to-Hub row has no Hub element. */
  predicate HasRowWithoutHub(rows: seq<MappedRow>) {
    exists j :: 0 <= j < |rows| && rows[j].hub.None?
  }

  /** The Hub elements of rows that all have one, in row order. */
  function {:induction false} HubElements(rows: seq<MappedRow>): (r: seq<Thing>)
    requires !HasRowWithoutHub(rows)
    ensures |r| == |rows|
    ensures forall j :: 0 <= j < |rows| ==> rows[j].hub == Some(r[j])
  {
    if |rows| == 0 then []
    else
      assert forall j :: 1 <= j < |rows| ==> rows[1..][j - 1] == rows[j];
      [rows[0].hub.value] + HubElements(rows[1..])
  }

  /** The older `AddOrRemoveAllFromSelectedDstMapResultForTransfer`: the
      selected things of exactly that class kind are removed; unless
      `shouldRemove`, the Hub elements of that kind are then added. The
      kind test is applied to every row's Hub element, so a row without
      one makes the addition throw (`None`). */
  function SelectAllOfKind(s: State, classKind: ClassKind, shouldRemove: bool): (r: Option<State>)
    ensures r.None? <==> !shouldRemove && HasRowWithoutHub(s.dstMapResult)
    ensures r.Some? ==> r.value == s.(selectedDst := r.value.selectedDst)
    ensures r.Some? ==>
      forall x :: x in r.value.selectedDst && x.kind != classKind <==> x in s.selectedDst && x.kind != classKind
    ensures r.Some? && shouldRemove ==> forall x :: x in r.value.selectedDst ==> x.kind != classKind
    ensures r.Some? && !shouldRemove ==>
      forall x :: x in r.value.selectedDst && x.kind == classKind <==>
        exists j :: 0 <= j < |s.dstMapResult| && s.dstMapResult[j].hub == Some(x) && x.kind == classKind
  {
    var kept := Filter(s.selectedDst, (x: Thing) => x.kind != classKind);
    if shouldRemove then Some(s.(selectedDst := kept))
    else if HasRowWithoutHub(s.dstMapResult) then None
    else
      var hubs := HubElements(s.dstMapResult);
      var added := Filter(hubs, (x: Thing) => x.kind == classKind);
      forall x: Thing
        ensures x in added <==> exists j :: 0 <= j < |s.dstMapResult| && s.dstMapResult[j].hub == Some(x) && x.kind == classKind
      {
        if x in added {
          var j :| 0 <= j < |hubs| && hubs[j] == x;
        }
      }
      Some(s.(selectedDst := kept + added))
  }

  /** The older `AddOrRemoveAllFromSelectedHubMapResultForTransfer`: the
      selection is cleared, then, unless `shouldRemove`, holds the Capella
      element of every Hub-to-Capella row in row order. */
  function SelectAllMappedElements(s: State, shouldRemove: bool): (r: State)
    ensures r == s.(selectedHub := r.selectedHub)
    ensures shouldRemove ==> r.selectedHub == []
    ensures !shouldRemove ==> |r.selectedHub| == |s.hubMapResult|
    ensures !shouldRemove ==> forall i :: 0 <= i < |s.hubMapResult| ==> r.selectedHub[i] == s.hubMapResult[i].dst
  {
    s.(selectedHub := if shouldRemove then [] else DstElements(s.hubMapResult))
  }

  /** The Capella elements of `rows`, position by position. */
  function {:induction false} DstElements(rows: seq<MappedRow>): (r: seq<Option<Element>>)
    ensures |r| == |rows|
    ensures forall i :: 0 <= i < |rows| ==> r[i] == rows[i].dst
  {
    if |rows| == 0 then [] else [rows[0].dst] + DstElements(rows[1..])
  }

  /** The older `AddOrRemoveAllFromSelectedThingsToTransfer`: no class kind
      selects on the Hub-to-Capella side, a class kind on the other; the
      other selection is untouched. */
  function AddOrRemoveAllFromSelectedThingsToTransfer(s: State, classKind: Option<ClassKind>, shouldRemove: bool): (r: Option<State>)
    ensures classKind.None? ==> r.Some? && r.value.selectedDst == s.selectedDst
    ensures r.Some? && classKind.Some? ==> r.value.selectedHub == s.selectedHub
    ensures r.None? ==> classKind.Some? && !shouldRemove
  {
    match classKind
    case None => Some(SelectAllMappedElements(s, shouldRemove))
    case Some(kind) => SelectAllOfKind(s, kind, shouldRemove)
  }

  /** The select-all sequence of the controller's test: with one element
      definition row and one requirements specification row, selecting the
      definitions, then the specifications, then deselecting both, then
      selecting element usages, leaves 1, 2, 1, 0 and 0 selected things,
      and selecting or deselecting on the empty Hub-to-Capella side leaves
      nothing selected there. */
  lemma SelectAllTestSequence(definition: Thing, specification: Thing, edRow: MappedRow, rsRow: MappedRow)
    requires definition.kind == ElementDefinition && specification.kind == RequirementsSpecification
    requires edRow.hub == Some(definition) && rsRow.hub == Some(specification)
    ensures var s0 := State(FromDstToHub, [edRow, rsRow], [], [], []);
      var s1 := AddOrRemoveAllFromSelectedThingsToTransfer(s0, Some(ElementDefinition), false);
      && s1.Some? && |s1.value.selectedDst| == 1
      && var s2 := AddOrRemoveAllFromSelectedThingsToTransfer(s1.value, Some(RequirementsSpecification), false);
      && s2.Some? && |s2.value.selectedDst| == 2
      && var s3 := AddOrRemoveAllFromSelectedThingsToTransfer(s2.value, Some(RequirementsSpecification), true);
      && s3.Some? && |s3.value.selectedDst| == 1
      && var s4 := AddOrRemoveAllFromSelectedThingsToTransfer(s3.value, Some(ElementDefinition), true);
      && s4.Some? && |s4.value.selectedDst| == 0
      && var s5 := AddOrRemoveAllFromSelectedThingsToTransfer(s4.value, Some(ElementUsage), false);
      && s5.Some? && |s5.value.selectedDst| == 0
      && var s6 := AddOrRemoveAllFromSelectedThingsToTransfer(s5.value, None, false);
      && |s6.value.selectedHub| == 0
      && |AddOrRemoveAllFromSelectedThingsToTransfer(s6.value, None, true).value.selectedHub| == 0
  {
    var rows := [edRow, rsRow];
    var s0 := State(FromDstToHub, rows, [], [], []);
    assert !HasRowWithoutHub(rows);
    assert HubElements(rows) == [definition, specification];
    SelectingDefinitionsOfTest(s0, definition, specification);
    SelectingSpecificationsOfTest(s0.(selectedDst := [definition]), definition, specification);
    var s2 := s0.(selectedDst := [definition, specification]);
    DeselectingStepsOfTest(s2, definition, specification);
  }

  /** The first selecting step of the test sequence: the definitions. */
  lemma SelectingDefinitionsOfTest(s: State, definition: Thing, specification: Thing)
    requires definition.kind == ElementDefinition && specification.kind == RequirementsSpecification
    requires s.selectedDst == [] && !HasRowWithoutHub(s.dstMapResult) && HubElements(s.dstMapResult) == [definition, specification]
    ensures SelectAllOfKind(s, ElementDefinition, false) == Some(s.(selectedDst := [definition]))
  {
    var s1 := SelectAllOfKind(s, ElementDefinition, false).value;
    assert s1.selectedDst == [definition];
  }

  /** The second selecting step of the test sequence: the specifications. */
  lemma SelectingSpecificationsOfTest(s: State, definition: Thing, specification: Thing)
    requires definition.kind == ElementDefinition && specification.kind == RequirementsSpecification
    requires s.selectedDst == [definition] && !HasRowWithoutHub(s.dstMapResult)
    requires HubElements(s.dstMapResult) == [definition, specification]
    ensures SelectAllOfKind(s, RequirementsSpecification, false) == Some(s.(selectedDst := [definition, specification]))
  {
    var s2 := SelectAllOfKind(s, RequirementsSpecification, false).value;
    assert s2.selectedDst == [definition, specification];
  }

  /** The three deselecting and usage steps of the test sequence. */
  lemma DeselectingStepsOfTest(s: State, definition: Thing, specification: Thing)
    requires definition.kind == ElementDefinition && specification.kind == RequirementsSpecification
    requires s.selectedDst == [definition, specification] && !HasRowWithoutHub(s.dstMapResult)
    requires HubElements(s.dstMapResult) == [definition, specification]
    ensures SelectAllOfKind(s, RequirementsSpecification, true) == Some(s.(selectedDst := [definition]))
    ensures SelectAllOfKind(s.(selectedDst := [definition]), ElementDefinition, true) == Some(s.(selectedDst := []))
    ensures SelectAllOfKind(s.(selectedDst := []), ElementUsage, false) == Some(s.(selectedDst := []))
  {
    var s3 := SelectAllOfKind(s, RequirementsSpecification, true).value;
    assert s3.selectedDst == [definition];
    var s4 := SelectAllOfKind(s.(selectedDst := [definition]), ElementDefinition, true).value;
    assert s4.selectedDst == [];
    var s5 := SelectAllOfKind(s.(selectedDst := []), ElementUsage, false).value;
    assert s5.selectedDst == [];
  }

  // The Hub iteration

  /** Whether `container` holds a thing with identifier `iid`. */
  predicate HasIid(container: seq<Thing>, iid: string) {
    exists i :: 0 <= i < |container| && container[i].iid == iid
  }

  /** Whether the identifiers of `container` are pairwise distinct. */
  predicate UniqueIids(container: seq<Thing>) {
    forall i, j :: 0 <= i < j < |container| ==> container[i].iid != container[j].iid
  }

  /** `AddOrUpdateIterationAndTransaction`'s container update: the thing is
      added only when no thing with its identifier is present. Afterwards
      its identifier is present, the container's earlier content is kept
      in front, and distinct identifiers stay distinct. */
  function AddOrUpdateIteration(container: seq<Thing>, thing: Thing): (r: seq<Thing>)
    ensures HasIid(r, thing.iid)
    ensures |container| <= |r| <= |container| + 1 && r[..|container|] == container
    ensures |r| == |container| + 1 <==> !HasIid(container, thing.iid)
    ensures |r| == |container| + 1 ==> r[|container|] == thing
    ensures UniqueIids(container) ==> UniqueIids(r)
  {
    if HasIid(container, thing.iid) then container
    else
      var r := container + [thing];
      assert r[|container|].iid == thing.iid;
      assert r[..|container|] == container;
      r
  }

  /** Adding the same thing twice adds it once. */
  lemma AddOrUpdateIterationIdempotent(container: seq<Thing>, thing: Thing)
    ensures AddOrUpdateIteration(AddOrUpdateIteration(container, thing), thing) == AddOrUpdateIteration(container, thing)
  {
  }

  // Transfer

  /** What the Hub does during `TransferToHub`: getting the iteration,
      preparing or writing throws, or the write goes through and the first
      and second `Refresh` calls answer. */
  datatype HubOutcome = Throws | Written(firstRefresh: bool, secondRefresh: bool)

  /** The result of a transfer: the state it leaves, what it reports and
      how many times it refreshed the Hub. */
  datatype TransferResult = TransferResult(state: State, succeeded: bool, refreshes: nat)

  /** `TransferToHub`: it succeeds when the write goes through and both
      refreshes answer true, the second refresh running only after a
      successful first one; whatever happens, the Capella-to-Hub selection
      is cleared. */
  function TransferToHub(s: State, outcome: HubOutcome): (r: TransferResult)
    ensures r.state == s.(selectedDst := [])
    ensures r.succeeded <==> outcome.Written? && outcome.firstRefresh && outcome.secondRefresh
    ensures r.refreshes == (if outcome.Throws? then 0 else if outcome.firstRefresh then 2 else 1)
  {
    match outcome
    case Throws => TransferResult(s.(selectedDst := []), false, 0)
    case Written(first, second) =>
      if first then TransferResult(s.(selectedDst := []), second, 2)
      else TransferResult(s.(selectedDst := []), false, 1)
  }

  /** The older `Transfer`: Capella to Hub reports `TransferToHub`'s
      result, Hub to Capella reports true without touching the Hub; either
      way the mapping is then reloaded, which empties both map results. */
  function Transfer(s: State, outcome: HubOutcome): (r: TransferResult)
    ensures s.direction == FromHubToDst ==> r.succeeded && r.refreshes == 0 && r.state.selectedDst == s.selectedDst
    ensures s.direction == FromDstToHub ==>
      r.succeeded == TransferToHub(s, outcome).succeeded && r.refreshes == TransferToHub(s, outcome).refreshes && r.state.selectedDst == []
    ensures r.state.dstMapResult == [] && r.state.hubMapResult == []
    ensures r.state.direction == s.direction && r.state.selectedHub == s.selectedHub
  {
    var transferred := if s.direction == FromDstToHub then TransferToHub(s, outcome) else TransferResult(s, true, 0);
    transferred.(state := transferred.state.(dstMapResult := [], hubMapResult := []))
  }

  /** The transfer sequence of the controller's test: Hub to Capella
      succeeds; back to Capella to Hub it fails while the Hub's refresh
      answers false and succeeds once it answers true; the Hub is
      refreshed three times in all. */
  lemma TransferTestSequence(s: State)
    requires s.direction == FromDstToHub
    ensures var t1 := Transfer(ChangeMappingDirection(s), Written(false, false));
      var t2 := Transfer(ChangeMappingDirection(t1.state), Written(false, false));
      var t3 := Transfer(t2.state, Written(true, true));
      && t1.succeeded && !t2.succeeded && t3.succeeded
      && t1.refreshes + t2.refreshes + t3.refreshes == 3
  {
  }
}
