/** The newer `DstController`: the mapping direction, the two transfer
    selections and the helpers that edit them, the wrapper around the
    mapping engine and what `Map` and `MapTraces` do with its output, and
    the merge helpers used while a transfer to Capella is prepared. The
    mapping engine, the Capella sessions and the Hub are parameters. */
module Controller {
  import opened Wrappers
  import opened Sequences
  import opened Text
  import opened Capella
  import opened Hub
  import opened Rows

  /** An entry of the Capella-to-Hub transfer selection
      (`selectedDstMapResultForTransfer`): a mapped Hub thing, or a binary
      relationship mapped from a Capella trace. */
  datatype HubItem = HubThing(thing: Thing) | HubRelationship(relationship: Relationship) {
    function Iid(): string {
      if HubThing? then thing.iid else relationship.iid
    }

    function Kind(): ClassKind {
      if HubThing? then thing.kind else BinaryRelationship
    }
  }

  /** An entry of the Hub-to-Capella transfer selection
      (`selectedHubMapResultForTransfer`): a Capella element that is not a
      trace, a Capella trace mapped from a binary relationship, or the null
      that a row without a Capella element contributes. */
  datatype DstItem = DstElement(element: Element) | DstTrace(trace: Trace) | NullItem

  /** The controller's state. `relationshipsFromTraces` is
      `mappedTracesToBinaryRelationships` and `tracesFromRelationships` is
      `mappedBinaryRelationshipsToTraces`. */
  datatype State = State(
    direction: MappingDirection,
    dstMapResult: seq<MappedRow>,
    hubMapResult: seq<MappedRow>,
    selectedDst: seq<HubItem>,
    selectedHub: seq<DstItem>,
    relationshipsFromTraces: seq<Relationship>,
    tracesFromRelationships: seq<Trace>)

  /** `ChangeMappingDirection`: the other direction, nothing else changed. */
  function ChangeMappingDirection(s: State): (r: State)
    ensures r.direction != s.direction
    ensures r == s.(direction := r.direction)
  {
    s.(direction := Opposite(s.direction))
  }

  /** Changing the direction twice restores the state. */
  lemma ChangeMappingDirectionTwice(s: State)
    ensures ChangeMappingDirection(ChangeMappingDirection(s)) == s
  {
  }

  // Select all / deselect all

  /** The predicate select-all uses for a class kind: the requirements
      impact view passes `RequirementsSpecification` and means the
      requirements. */
  predicate OfKind(item: HubItem, classKind: ClassKind) {
    if classKind == RequirementsSpecification then item.Kind() == Requirement else item.Kind() == classKind
  }

  /** Whether some row of `rows` holds `thing` as its Hub element. */
  predicate HubElementOf(rows: seq<MappedRow>, thing: Thing) {
    exists j :: 0 <= j < |rows| && rows[j].hub == Some(thing)
  }

  /** The Hub elements of the rows that have one, in row order. */
  function {:induction false} HubThings(rows: seq<MappedRow>): (r: seq<HubItem>)
    ensures |r| <= |rows|
    ensures forall i :: 0 <= i < |r| ==> r[i].HubThing? && HubElementOf(rows, r[i].thing)
    ensures forall j :: 0 <= j < |rows| && rows[j].hub.Some? ==> HubThing(rows[j].hub.value) in r
  {
    if |rows| == 0 then []
    else
      var rest := HubThings(rows[1..]);
      var head := if rows[0].hub.Some? then [HubThing(rows[0].hub.value)] else [];
      assert forall i :: 0 <= i < |rest| ==> HubElementOf(rows, rest[i].thing) by {
        forall i | 0 <= i < |rest|
          ensures HubElementOf(rows, rest[i].thing)
        {
          var j :| 0 <= j < |rows[1..]| && rows[1..][j].hub == Some(rest[i].thing);
          assert rows[j + 1].hub == Some(rest[i].thing);
        }
      }
      assert forall j :: 1 <= j < |rows| ==> rows[j] == rows[1..][j - 1];
      head + rest
  }

  /** `AddOrRemoveAllFromSelectedDstMapResultForTransfer`: the selected
      things of the kind are removed; unless `shouldRemove`, every Hub
      element of the Capella-to-Hub results that has the kind is then
      added. Nothing of another kind is added or removed. */
  function SelectAllOfKind(s: State, classKind: ClassKind, shouldRemove: bool): (r: State)
    ensures r == s.(selectedDst := r.selectedDst)
    ensures forall x :: x in s.selectedDst && !OfKind(x, classKind) ==> x in r.selectedDst
    ensures forall x :: x in r.selectedDst && !OfKind(x, classKind) ==> x in s.selectedDst
    ensures shouldRemove ==> forall x :: x in r.selectedDst ==> !OfKind(x, classKind)
    ensures !shouldRemove ==>
      forall x :: x in r.selectedDst && OfKind(x, classKind) ==> x.HubThing? && HubElementOf(s.dstMapResult, x.thing)
    ensures !shouldRemove ==>
      forall j :: 0 <= j < |s.dstMapResult| && s.dstMapResult[j].hub.Some? && OfKind(HubThing(s.dstMapResult[j].hub.value), classKind)
        ==> HubThing(s.dstMapResult[j].hub.value) in r.selectedDst
  {
    var kept := Filter(s.selectedDst, x => !OfKind(x, classKind));
    var added := if shouldRemove then [] else Filter(HubThings(s.dstMapResult), x => OfKind(x, classKind));
    s.(selectedDst := kept + added)
  }

  /** Only the last select-all of a kind matters: selecting or deselecting
      all of a kind after any earlier one of the same kind gives what it
      gives on its own. */
  lemma {:induction false} SelectAllOfKindSettles(s: State, classKind: ClassKind, first: bool, second: bool)
    ensures SelectAllOfKind(SelectAllOfKind(s, classKind, first), classKind, second) == SelectAllOfKind(s, classKind, second)
  {
    var p := (x: HubItem) => !OfKind(x, classKind);
    var q := (x: HubItem) => OfKind(x, classKind);
    var kept := Filter(s.selectedDst, p);
    var added := if first then [] else Filter(HubThings(s.dstMapResult), q);
    var s1 := SelectAllOfKind(s, classKind, first);
    assert s1.selectedDst == kept + added;
    assert s1.dstMapResult == s.dstMapResult;
    FilterAppend(kept, added, p);
    FilterIdempotent(s.selectedDst, p);
    forall i | 0 <= i < |added|
      ensures !p(added[i])
    {
      assert q(added[i]);
    }
    FilterNone(added, p);
    assert Filter(s1.selectedDst, p) == kept;
  }

  /** The entry a Capella-to-Hub row contributes to the Hub-to-Capella
      selection: its Capella element, or null. */
  function DstItemOf(dst: Option<Element>): DstItem {
    if dst.Some? then DstElement(dst.value) else NullItem
  }

  /** The entries of `rows`' Capella elements, position by position. */
  function {:induction false} DstItems(rows: seq<MappedRow>): (r: seq<DstItem>)
    ensures |r| == |rows|
    ensures forall i :: 0 <= i < |rows| ==> r[i] == DstItemOf(rows[i].dst)
  {
    if |rows| == 0 then []
    else [DstItemOf(rows[0].dst)] + DstItems(rows[1..])
  }

  /** `AddOrRemoveAllFromSelectedHubMapResultForTransfer`: the selection is
      cleared, then, unless `shouldRemove`, holds the Capella element of
      every Hub-to-Capella row, nulls included, in row order. */
  function SelectAllMappedElements(s: State, shouldRemove: bool): (r: State)
    ensures r == s.(selectedHub := r.selectedHub)
    ensures shouldRemove ==> r.selectedHub == []
    ensures !shouldRemove ==> |r.selectedHub| == |s.hubMapResult|
    ensures !shouldRemove ==> forall i :: 0 <= i < |s.hubMapResult| ==> r.selectedHub[i] == DstItemOf(s.hubMapResult[i].dst)
  {
    s.(selectedHub := if shouldRemove then [] else DstItems(s.hubMapResult))
  }

  /** `AddOrRemoveAllFromSelectedThingsToTransfer`: no class kind means the
      Hub-to-Capella selection, a class kind the Capella-to-Hub one; the
      other selection is untouched. */
  function AddOrRemoveAllFromSelectedThingsToTransfer(s: State, classKind: Option<ClassKind>, shouldRemove: bool): (r: State)
    ensures classKind.None? ==> r.selectedDst == s.selectedDst && (shouldRemove ==> r.selectedHub == [])
    ensures classKind.Some? ==> r.selectedHub == s.selectedHub
    ensures classKind.Some? && shouldRemove ==> forall x :: x in r.selectedDst ==> !OfKind(x, classKind.value)
  {
    match classKind
    case None => SelectAllMappedElements(s, shouldRemove)
    case Some(kind) => SelectAllOfKind(s, kind, shouldRemove)
  }

  // Traces and binary relationships selected for transfer

  /** Whether a Capella element with identifier `id` is selected. */
  predicate SelectsElement(selection: seq<DstItem>, id: string) {
    exists i :: 0 <= i < |selection| && selection[i].DstElement? && selection[i].element.id == id
  }

  /** The traces of `traces` whose source and target elements are both
      selected, as selection entries, in order. */
  function {:induction false} TransferableTraces(traces: seq<Trace>, selection: seq<DstItem>): (r: seq<DstItem>)
    ensures forall i :: 0 <= i < |r| ==> r[i].DstTrace?
    ensures forall t :: DstTrace(t) in r <==>
      t in traces && SelectsElement(selection, t.source.id) && SelectsElement(selection, t.target.id)
  {
    if |traces| == 0 then [] else
      var t := traces[0];
      var rest := TransferableTraces(traces[1..], selection);
      assert forall u :: u in traces <==> u == t || u in traces[1..];
      if SelectsElement(selection, t.target.id) && SelectsElement(selection, t.source.id) then [DstTrace(t)] + rest
      else rest
  }

  /** Removing the traces from a selection keeps the selected elements. */
  lemma KeepsSelectedElements(selection: seq<DstItem>, id: string)
    ensures SelectsElement(Filter(selection, (x: DstItem) => !x.DstTrace?), id) <==> SelectsElement(selection, id)
  {
    var kept := Filter(selection, (x: DstItem) => !x.DstTrace?);
    if SelectsElement(selection, id) {
      var i :| 0 <= i < |selection| && selection[i].DstElement? && selection[i].element.id == id;
      assert selection[i] in kept;
      var k :| 0 <= k < |kept| && kept[k] == selection[i];
    }
    if SelectsElement(kept, id) {
      var k :| 0 <= k < |kept| && kept[k].DstElement? && kept[k].element.id == id;
      assert kept[k] in selection;
      var i :| 0 <= i < |selection| && selection[i] == kept[k];
    }
  }

  /** `AddOrRemoveTracesForTransfer`: the selected traces are replaced by
      exactly the mapped traces whose source and target elements are both
      selected; every other entry is kept. */
  function AddOrRemoveTracesForTransfer(s: State): (r: State)
    ensures r == s.(selectedHub := r.selectedHub)
    ensures forall x :: x in r.selectedHub && !x.DstTrace? <==> x in s.selectedHub && !x.DstTrace?
    ensures forall t :: DstTrace(t) in r.selectedHub <==>
      t in s.tracesFromRelationships && SelectsElement(s.selectedHub, t.source.id) && SelectsElement(s.selectedHub, t.target.id)
  {
    var kept := Filter(s.selectedHub, (x: DstItem) => !x.DstTrace?);
    var items := TransferableTraces(s.tracesFromRelationships, kept);
    forall id: string
      ensures SelectsElement(kept, id) <==> SelectsElement(s.selectedHub, id)
    {
      KeepsSelectedElements(s.selectedHub, id);
    }
    s.(selectedHub := kept + items)
  }

  /** Refreshing the selected traces twice gives what once gives. */
  lemma AddOrRemoveTracesForTransferIdempotent(s: State)
    ensures AddOrRemoveTracesForTransfer(AddOrRemoveTracesForTransfer(s)) == AddOrRemoveTracesForTransfer(s)
  {
    var p := (x: DstItem) => !x.DstTrace?;
    var kept := Filter(s.selectedHub, p);
    var s1 := AddOrRemoveTracesForTransfer(s);
    var items := s1.selectedHub[|kept|..];
    assert s1.selectedHub == kept + items;
    forall i | 0 <= i < |items|
      ensures !p(items[i])
    {
      assert items[i] in s1.selectedHub && items[i] !in s.selectedHub[..0];
    }
    FilterAppend(kept, items, p);
    FilterIdempotent(s.selectedHub, p);
    FilterNone(items, p);
    assert Filter(s1.selectedHub, p) == kept;
  }

  /** Whether a thing or relationship with identifier `iid` is selected. */
  predicate SelectsIid(selection: seq<HubItem>, iid: string) {
    exists i :: 0 <= i < |selection| && selection[i].Iid() == iid
  }

  /** The binary relationships of `relationships` whose two ends are
      selected, as selection entries, in order. */
  function {:induction false} TransferableRelationships(relationships: seq<Relationship>, selection: seq<HubItem>): (r: seq<HubItem>)
    ensures |r| <= |relationships|
    ensures forall i :: 0 <= i < |r| ==>
      && r[i].HubRelationship?
      && r[i].relationship in relationships
      && SelectsIid(selection, r[i].relationship.targetIid)
      && SelectsIid(selection, r[i].relationship.sourceIid)
    ensures forall j ::
      0 <= j < |relationships| && SelectsIid(selection, relationships[j].targetIid) && SelectsIid(selection, relationships[j].sourceIid)
      ==> HubRelationship(relationships[j]) in r
  {
    if |relationships| == 0 then []
    else
      var x := relationships[0];
      var rest := TransferableRelationships(relationships[1..], selection);
      assert forall j :: 1 <= j < |relationships| ==> relationships[j] == relationships[1..][j - 1];
      if SelectsIid(selection, x.targetIid) && SelectsIid(selection, x.sourceIid) then [HubRelationship(x)] + rest else rest
  }

  /** `AddOrRemoveBinaryRelationshipForTransfer` as written: the
      relationships are removed from the Hub-to-Capella selection, which
      never holds any, and the transferable ones are then appended to the
      Capella-to-Hub selection, which keeps the relationships it already
      holds. */
  function AddOrRemoveBinaryRelationshipForTransferAsWritten(s: State): (r: State)
    ensures r == s.(selectedDst := r.selectedDst)
    ensures |s.selectedDst| <= |r.selectedDst| && r.selectedDst[..|s.selectedDst|] == s.selectedDst
    ensures forall i :: |s.selectedDst| <= i < |r.selectedDst| ==>
      r.selectedDst[i].HubRelationship? && r.selectedDst[i].relationship in s.relationshipsFromTraces
  {
    var added := TransferableRelationships(s.relationshipsFromTraces, s.selectedDst);
    assert (s.selectedDst + added)[..|s.selectedDst|] == s.selectedDst;
    s.(selectedDst := s.selectedDst + added)
  }

  /** The selected Hub things with the relationships removed. */
  function SelectedThings(selection: seq<HubItem>): (r: seq<HubItem>)
    ensures forall x :: x in r <==> x in selection && x.HubThing?
  {
    Filter(selection, (x: HubItem) => x.HubThing?)
  }

  /** `AddOrRemoveBinaryRelationshipForTransfer` as intended: the
      relationships already in the Capella-to-Hub selection are replaced by
      exactly the mapped relationships whose two ends are selected things. */
  function AddOrRemoveBinaryRelationshipForTransfer(s: State): (r: State)
    ensures r == s.(selectedDst := r.selectedDst)
    ensures forall x :: x in r.selectedDst && x.HubThing? <==> x in s.selectedDst && x.HubThing?
    ensures forall x :: x in r.selectedDst && x.HubRelationship? ==>
      && x.relationship in s.relationshipsFromTraces
      && SelectsIid(SelectedThings(s.selectedDst), x.relationship.sourceIid)
      && SelectsIid(SelectedThings(s.selectedDst), x.relationship.targetIid)
  {
    var kept := SelectedThings(s.selectedDst);
    s.(selectedDst := kept + TransferableRelationships(s.relationshipsFromTraces, kept))
  }

  /** The intended version can be applied again without effect. */
  lemma AddOrRemoveBinaryRelationshipForTransferIdempotent(s: State)
    ensures AddOrRemoveBinaryRelationshipForTransfer(AddOrRemoveBinaryRelationshipForTransfer(s))
      == AddOrRemoveBinaryRelationshipForTransfer(s)
  {
    var p := (x: HubItem) => x.HubThing?;
    var kept := Filter(s.selectedDst, p);
    var added := TransferableRelationships(s.relationshipsFromTraces, kept);
    var s1 := AddOrRemoveBinaryRelationshipForTransfer(s);
    assert s1.selectedDst == kept + added;
    FilterAppend(kept, added, p);
    FilterIdempotent(s.selectedDst, p);
    forall i | 0 <= i < |added|
      ensures !p(added[i])
    {
      assert added[i].HubRelationship?;
    }
    FilterNone(added, p);
    assert SelectedThings(s1.selectedDst) == kept;
  }

  /** With two selected things and one relationship between them, applying
      the helper as written twice selects that relationship twice, while
      the intended version selects it once. */
  lemma RelationshipSelectedTwice(a: Thing, b: Thing, link: Relationship)
    requires link.sourceIid == a.iid && link.targetIid == b.iid
    ensures var s := State(FromDstToHub, [], [], [HubThing(a), HubThing(b)], [], [link], []);
      && AddOrRemoveBinaryRelationshipForTransferAsWritten(AddOrRemoveBinaryRelationshipForTransferAsWritten(s)).selectedDst
        == [HubThing(a), HubThing(b), HubRelationship(link), HubRelationship(link)]
      && AddOrRemoveBinaryRelationshipForTransfer(AddOrRemoveBinaryRelationshipForTransfer(s)).selectedDst
        == [HubThing(a), HubThing(b), HubRelationship(link)]
  {
    var s := State(FromDstToHub, [], [], [HubThing(a), HubThing(b)], [], [link], []);
    SelectingTwoThingsTwiceAsWritten(s, a, b, link);
    SelectingTwoThingsOnce(s, a, b, link);
  }

  /** The helper as written, applied twice to the two things, selects the
      relationship twice. */
  lemma SelectingTwoThingsTwiceAsWritten(s: State, a: Thing, b: Thing, link: Relationship)
    requires link.sourceIid == a.iid && link.targetIid == b.iid
    requires s.selectedDst == [HubThing(a), HubThing(b)] && s.relationshipsFromTraces == [link]
    ensures AddOrRemoveBinaryRelationshipForTransferAsWritten(AddOrRemoveBinaryRelationshipForTransferAsWritten(s)).selectedDst
      == [HubThing(a), HubThing(b), HubRelationship(link), HubRelationship(link)]
  {
    LinkTransferable(a, b, link, []);
    var once := AddOrRemoveBinaryRelationshipForTransferAsWritten(s);
    assert once.selectedDst == [HubThing(a), HubThing(b)] + [HubRelationship(link)];
    LinkTransferable(a, b, link, [HubRelationship(link)]);
    assert once.relationshipsFromTraces == [link];
  }

  /** The intended version, applied twice to the two things, selects the
      relationship once. */
  lemma SelectingTwoThingsOnce(s: State, a: Thing, b: Thing, link: Relationship)
    requires link.sourceIid == a.iid && link.targetIid == b.iid
    requires s.selectedDst == [HubThing(a), HubThing(b)] && s.relationshipsFromTraces == [link]
    ensures AddOrRemoveBinaryRelationshipForTransfer(AddOrRemoveBinaryRelationshipForTransfer(s)).selectedDst
      == [HubThing(a), HubThing(b), HubRelationship(link)]
  {
    LinkTransferable(a, b, link, []);
    FilterAll(s.selectedDst, (x: HubItem) => x.HubThing?);
    assert AddOrRemoveBinaryRelationshipForTransfer(s).selectedDst == [HubThing(a), HubThing(b)] + [HubRelationship(link)];
    AddOrRemoveBinaryRelationshipForTransferIdempotent(s);
  }

  /** A relationship between the first two selected things is transferable,
      whatever follows them in the selection. */
  lemma LinkTransferable(a: Thing, b: Thing, link: Relationship, rest: seq<HubItem>)
    requires link.sourceIid == a.iid && link.targetIid == b.iid
    ensures TransferableRelationships([link], [HubThing(a), HubThing(b)] + rest) == [HubRelationship(link)]
  {
    var selection := [HubThing(a), HubThing(b)] + rest;
    assert selection[0].Iid() == a.iid && selection[1].Iid() == b.iid;
    assert SelectsIid(selection, a.iid) && SelectsIid(selection, b.iid);
    var r := TransferableRelationships([link], selection);
    assert |r| == 1 && r[0].relationship == link;
  }

  // The mapping engine

  /** What the mapping engine returns: a list, or some other object. */
  datatype EngineOutput<T> = AList(items: seq<T>) | NotAList

  /** What `TryMap` leaves behind: whether it succeeded, the result flag
      `Map` falls back on, and the output list. */
  datatype MapAttempt<T> = MapAttempt(succeeded: bool, result: bool, output: Option<seq<T>>)

  /** `TryMap`, with the result flag starting false as both callers start
      it: the flag is raised on empty input, and the attempt succeeds
      exactly when the engine returns a list, which becomes the output. */
  function TryMap<T>(inputEmpty: bool, engine: EngineOutput<T>): (r: MapAttempt<T>)
    ensures r.result <==> inputEmpty
    ensures r.succeeded <==> engine.AList?
    ensures r.succeeded <==> r.output.Some?
    ensures r.output.Some? ==> r.output.value == engine.items
  {
    MapAttempt(inputEmpty, engine.AList?, if engine.AList? then Some(engine.items) else None)
      .(succeeded := engine.AList?, result := inputEmpty)
  }

  /** The Hub identifier of a row's Hub element, if it has one. */
  function HubIid(row: MappedRow): Option<string> {
    if row.hub.Some? then Some(row.hub.value.iid) else None
  }

  /** The Capella identifier of a row's Capella element, if it has one. */
  function DstId(row: MappedRow): Option<string> {
    if row.dst.Some? then Some(row.dst.value.id) else None
  }

  /** Whether every output row carries a Capella element (the Hub-to-Capella
      branch's `instanceof CapellaElement` guard). */
  predicate AllCapellaElements(output: seq<MappedRow>) {
    forall i :: 0 <= i < |output| ==> output[i].dst.Some? && IsCapellaElement(output[i].dst.value.cls)
  }

  /** Whether some output row has no Hub element. */
  predicate HasRowWithoutHub(output: seq<MappedRow>) {
    exists i :: 0 <= i < |output| && output[i].hub.None?
  }

  /** `Map` as written. In the Capella-to-Hub branch the rows to replace
      are looked up among the output rows WITHOUT a Hub element, whose Hub
      element is then dereferenced: with such a row and a non-empty result
      list the call throws (`None`), and otherwise no row is removed.
      Either branch clears its selection and reports true. */
  function MapAsWritten(s: State, inputEmpty: bool, direction: MappingDirection, engine: EngineOutput<MappedRow>): (r: Option<(State, bool)>)
    ensures r.None? <==>
      engine.AList? && |engine.items| > 0 && direction == FromDstToHub && |s.dstMapResult| > 0 && HasRowWithoutHub(engine.items)
    ensures r.Some? && engine.AList? && |engine.items| > 0 && direction == FromDstToHub ==>
      r.value.0.dstMapResult == s.dstMapResult + engine.items && r.value.0.selectedDst == [] && r.value.1
    ensures r.Some? && !(engine.AList? && |engine.items| > 0) ==> r.value == (s, inputEmpty)
  {
    var attempt := TryMap(inputEmpty, engine);
    if attempt.output.Some? && |attempt.output.value| > 0 then
      var output := attempt.output.value;
      if direction == FromDstToHub then
        if |s.dstMapResult| > 0 && HasRowWithoutHub(output) then None
        else Some((s.(dstMapResult := s.dstMapResult + output, selectedDst := []), true))
      else if AllCapellaElements(output) then
        Some((s.(hubMapResult := MergeBy(s.hubMapResult, output, DstId), selectedHub := []), true))
      else Some((s, attempt.result))
    else Some((s, attempt.result))
  }

  /** `Map` as intended: the result rows replace the rows mapping the same
      Hub element (Capella to Hub) or the same Capella element (Hub to
      Capella); rows without such an element are kept. */
  function Map(s: State, inputEmpty: bool, direction: MappingDirection, engine: EngineOutput<MappedRow>): (r: (State, bool))
    ensures !(engine.AList? && |engine.items| > 0) ==> r == (s, inputEmpty)
    ensures engine.AList? && |engine.items| > 0 && direction == FromDstToHub ==>
      && r.1
      && r.0 == s.(dstMapResult := r.0.dstMapResult, selectedDst := [])
      && |engine.items| <= |r.0.dstMapResult|
      && r.0.dstMapResult[|r.0.dstMapResult| - |engine.items|..] == engine.items
      && (forall i :: 0 <= i < |r.0.dstMapResult| - |engine.items| ==>
            r.0.dstMapResult[i] in s.dstMapResult && !Claims(engine.items, HubIid, HubIid(r.0.dstMapResult[i])))
    ensures engine.AList? && |engine.items| > 0 && direction == FromHubToDst ==>
      if AllCapellaElements(engine.items) then
        && r.1
        && r.0 == s.(hubMapResult := r.0.hubMapResult, selectedHub := [])
        && |engine.items| <= |r.0.hubMapResult|
        && r.0.hubMapResult[|r.0.hubMapResult| - |engine.items|..] == engine.items
        && (forall i :: 0 <= i < |r.0.hubMapResult| - |engine.items| ==>
              r.0.hubMapResult[i] in s.hubMapResult && !Claims(engine.items, DstId, DstId(r.0.hubMapResult[i])))
      else r == (s, inputEmpty)
  {
    var attempt := TryMap(inputEmpty, engine);
    if attempt.output.Some? && |attempt.output.value| > 0 then
      var output := attempt.output.value;
      if direction == FromDstToHub then
        (s.(dstMapResult := MergeBy(s.dstMapResult, output, HubIid), selectedDst := []), true)
      else if AllCapellaElements(output) then
        (s.(hubMapResult := MergeBy(s.hubMapResult, output, DstId), selectedHub := []), true)
      else (s, attempt.result)
    else (s, attempt.result)
  }

  /** Mapping an element already mapped to a Hub element: as written the
      old row stays beside the new one, as intended the new one replaces
      it. */
  lemma MapKeepsStaleRow(s: State, previous: MappedRow, row: MappedRow)
    requires s.dstMapResult == [previous]
    requires previous.hub.Some? && row.hub.Some? && previous.hub.value.iid == row.hub.value.iid
    ensures MapAsWritten(s, false, FromDstToHub, AList([row])) == Some((s.(dstMapResult := [previous, row], selectedDst := []), true))
    ensures Map(s, false, FromDstToHub, AList([row])).0.dstMapResult == [row]
  {
    assert !HasRowWithoutHub([row]);
    assert [previous] + [row] == [previous, row];
    var r := Map(s, false, FromDstToHub, AList([row])).0.dstMapResult;
    assert [row][0] == row && HubIid(row) == HubIid(previous);
    assert Claims([row], HubIid, HubIid(previous));
  }

  /** The intended `Map` from Capella to Hub run twice on the same rows
      with Hub elements gives what running it once gives. */
  lemma MapIdempotent(s: State, inputEmpty: bool, rows: seq<MappedRow>)
    requires |rows| > 0
    requires forall i :: 0 <= i < |rows| ==> rows[i].hub.Some?
    ensures Map(Map(s, inputEmpty, FromDstToHub, AList(rows)).0, inputEmpty, FromDstToHub, AList(rows)).0
      == Map(s, inputEmpty, FromDstToHub, AList(rows)).0
  {
    MergeByIdempotent(s.dstMapResult, rows, HubIid);
  }

  /** `MapTraces` as written. The stray `;` after its `if (TryMap(...))`
      makes the block run even when the engine returns no list, and adding
      the missing output then throws (`None`). Otherwise the mapped
      relationships (Capella to Hub, by Hub identifier) or traces (Hub to
      Capella, by summary) are merged with the output; the call reports
      the `TryMap` flag. */
  function MapTracesAsWritten(s: State, inputEmpty: bool, direction: MappingDirection,
                              relationships: EngineOutput<Relationship>, traces: EngineOutput<Trace>): (r: Option<(State, bool)>)
    ensures r.None? <==> (if direction == FromDstToHub then relationships.NotAList? else traces.NotAList?)
    ensures r.Some? ==> r.value.1 == inputEmpty
    ensures r.Some? && direction == FromDstToHub ==>
      r.value.0 == s.(relationshipsFromTraces := MergeBy(s.relationshipsFromTraces, relationships.items, RelationshipIid))
    ensures r.Some? && direction == FromHubToDst ==>
      r.value.0 == s.(tracesFromRelationships := MergeBy(s.tracesFromRelationships, traces.items, TraceSummary))
  {
    if direction == FromDstToHub then
      var attempt := TryMap(inputEmpty, relationships);
      if attempt.output.None? then None
      else Some((s.(relationshipsFromTraces := MergeBy(s.relationshipsFromTraces, attempt.output.value, RelationshipIid)), attempt.result))
    else
      var attempt := TryMap(inputEmpty, traces);
      if attempt.output.None? then None
      else Some((s.(tracesFromRelationships := MergeBy(s.tracesFromRelationships, attempt.output.value, TraceSummary)), attempt.result))
  }

  /** The merge key of a mapped binary relationship. */
  function RelationshipIid(x: Relationship): Option<string> {
    Some(x.iid)
  }

  /** The merge key of a mapped trace. */
  function TraceSummary(x: Trace): Option<string> {
    Some(x.summary)
  }

  /** `MapTraces` as intended: when the engine returns no list nothing
      changes and the `TryMap` flag is reported. */
  function MapTraces(s: State, inputEmpty: bool, direction: MappingDirection,
                     relationships: EngineOutput<Relationship>, traces: EngineOutput<Trace>): (r: (State, bool))
    ensures r.1 == inputEmpty
    ensures MapTracesAsWritten(s, inputEmpty, direction, relationships, traces).Some? ==>
      r == MapTracesAsWritten(s, inputEmpty, direction, relationships, traces).value
    ensures MapTracesAsWritten(s, inputEmpty, direction, relationships, traces).None? ==> r.0 == s
  {
    match MapTracesAsWritten(s, inputEmpty, direction, relationships, traces)
    case Some(result) => result
    case None => (s, inputEmpty)
  }

  /** After the intended `MapTraces`, every mapped relationship or trace of
      the output is recorded once under its key: no earlier entry with the
      same key remains. */
  lemma MapTracesReplacesByKey(s: State, inputEmpty: bool, direction: MappingDirection,
                               relationships: EngineOutput<Relationship>, traces: EngineOutput<Trace>)
    ensures var r := MapTraces(s, inputEmpty, direction, relationships, traces).0;
      && (direction == FromDstToHub && relationships.AList? ==>
            forall i, j :: 0 <= i < |r.relationshipsFromTraces| && 0 <= j < |relationships.items|
              && r.relationshipsFromTraces[i].iid == relationships.items[j].iid
              ==> i >= |r.relationshipsFromTraces| - |relationships.items|)
      && (direction == FromHubToDst && traces.AList? ==>
            forall i, j :: 0 <= i < |r.tracesFromRelationships| && 0 <= j < |traces.items|
              && r.tracesFromRelationships[i].summary == traces.items[j].summary
              ==> i >= |r.tracesFromRelationships| - |traces.items|)
  {
    var r := MapTraces(s, inputEmpty, direction, relationships, traces).0;
    if direction == FromDstToHub && relationships.AList? {
      forall i, j | 0 <= i < |r.relationshipsFromTraces| && 0 <= j < |relationships.items|
        && r.relationshipsFromTraces[i].iid == relationships.items[j].iid
        ensures i >= |r.relationshipsFromTraces| - |relationships.items|
      {
        assert RelationshipIid(relationships.items[j]) == RelationshipIid(r.relationshipsFromTraces[i]);
      }
    }
    if direction == FromHubToDst && traces.AList? {
      forall i, j | 0 <= i < |r.tracesFromRelationships| && 0 <= j < |traces.items|
        && r.tracesFromRelationships[i].summary == traces.items[j].summary
        ensures i >= |r.tracesFromRelationships| - |traces.items|
      {
        assert TraceSummary(traces.items[j]) == TraceSummary(r.tracesFromRelationships[i]);
      }
    }
  }

  /** With no list from the engine, `MapTraces` as written throws where the
      intended version leaves the state alone. */
  lemma MapTracesWithoutList(s: State, inputEmpty: bool)
    ensures MapTracesAsWritten(s, inputEmpty, FromDstToHub, NotAList, NotAList).None?
    ensures MapTraces(s, inputEmpty, FromDstToHub, NotAList, NotAList) == (s, inputEmpty)
  {
  }

  // Merging clones into the original Capella model

  /** Whether some element of `s` has identifier `id`, ignoring case. */
  predicate HasIdIgnoringCase(s: seq<Element>, id: string) {
    exists i :: 0 <= i < |s| && EqualsIgnoreCase(id, s[i].id)
  }

  /** `UpdateChildrenOfType`: the clones whose identifier no original
      element has (ignoring case) are appended, in order; the original
      elements stay in front, so afterwards every clone's identifier is
      present. */
  function UpdateChildrenOfType(original: seq<Element>, cloned: seq<Element>): (r: seq<Element>)
    ensures |original| <= |r| && r[..|original|] == original
    ensures forall i :: |original| <= i < |r| ==> r[i] in cloned && !HasIdIgnoringCase(original, r[i].id)
    ensures forall x :: x in cloned && !HasIdIgnoringCase(original, x.id) ==> x in r
    ensures forall j :: 0 <= j < |cloned| ==> HasIdIgnoringCase(r, cloned[j].id)
  {
    var added := Filter(cloned, (x: Element) => !HasIdIgnoringCase(original, x.id));
    var r := original + added;
    assert r[..|original|] == original;
    forall j | 0 <= j < |cloned|
      ensures HasIdIgnoringCase(r, cloned[j].id)
    {
      if !HasIdIgnoringCase(original, cloned[j].id) {
        assert cloned[j] in added;
        var k :| 0 <= k < |added| && added[k] == cloned[j];
        assert r[|original| + k] == cloned[j];
        assert EqualsIgnoreCase(cloned[j].id, r[|original| + k].id);
      } else {
        var i :| 0 <= i < |original| && EqualsIgnoreCase(cloned[j].id, original[i].id);
        assert r[i] == original[i];
      }
    }
    r
  }

  /** Merging the same clones a second time adds nothing. */
  lemma UpdateChildrenOfTypeIdempotent(original: seq<Element>, cloned: seq<Element>)
    ensures UpdateChildrenOfType(UpdateChildrenOfType(original, cloned), cloned) == UpdateChildrenOfType(original, cloned)
  {
    var r := UpdateChildrenOfType(original, cloned);
    FilterNone(cloned, (x: Element) => !HasIdIgnoringCase(r, x.id));
  }

  /** Whether some cloned interface has identifier `id`. */
  predicate ClonesId(cloned: seq<Element>, id: string) {
    exists i :: 0 <= i < |cloned| && cloned[i].id == id
  }

  /** Replacing by identifier keeps `x` and the entries with another
      identifier, and nothing else. */
  lemma ReplaceByIdMembers(original: seq<Element>, x: Element)
    ensures forall y :: y in ReplaceBy(original, x, (e: Element) => e.id) <==> y == x || (y in original && y.id != x.id)
  {
    var key := (e: Element) => e.id;
    var r := ReplaceBy(original, x, key);
    ReplaceByUnique(original, x, key);
    var kept := r[..|r| - 1];
    assert r == kept + [x];
  }

  /** A clone identifier is the first clone's or one of the rest's. */
  lemma ClonesIdCons(cloned: seq<Element>, id: string)
    requires |cloned| > 0
    ensures ClonesId(cloned, id) <==> cloned[0].id == id || ClonesId(cloned[1..], id)
  {
    if ClonesId(cloned[1..], id) {
      var j :| 0 <= j < |cloned[1..]| && cloned[1..][j].id == id;
      assert cloned[j + 1].id == id;
    }
    if ClonesId(cloned, id) && cloned[0].id != id {
      var j :| 0 <= j < |cloned| && cloned[j].id == id;
      assert cloned[1..][j - 1].id == id;
    }
  }

  /** `UpdateInterfaces`: each cloned interface in turn replaces the
      interfaces with its identifier. Afterwards every interface is a clone
      or an original no clone replaces, and the last clone of each
      identifier and every original no clone replaces are present. */
  function {:induction false} UpdateInterfaces(cloned: seq<Element>, original: seq<Element>): (r: seq<Element>)
    ensures forall x :: x in r ==> x in cloned || (x in original && !ClonesId(cloned, x.id))
    ensures forall x :: x in original && !ClonesId(cloned, x.id) ==> x in r
    ensures forall i :: 0 <= i < |cloned| && (forall j :: i < j < |cloned| ==> cloned[j].id != cloned[i].id) ==> cloned[i] in r
    decreases |cloned|
  {
    if |cloned| == 0 then original
    else
      var first := cloned[0];
      var rest := cloned[1..];
      var next := ReplaceBy(original, first, (x: Element) => x.id);
      var r := UpdateInterfaces(rest, next);
      ReplaceByIdMembers(original, first);
      forall id: string
        ensures ClonesId(cloned, id) <==> first.id == id || ClonesId(rest, id)
      {
        ClonesIdCons(cloned, id);
      }
      forall i | 1 <= i < |cloned| && (forall j :: i < j < |cloned| ==> cloned[j].id != cloned[i].id)
        ensures cloned[i] in r
      {
        assert rest[i - 1] == cloned[i];
        forall j | i - 1 < j < |rest|
          ensures rest[j].id != rest[i - 1].id
        {
          assert rest[j] == cloned[j + 1];
        }
      }
      assert (forall j :: 0 < j < |cloned| ==> cloned[j].id != first.id) ==> first in r by {
        if forall j :: 0 < j < |cloned| ==> cloned[j].id != first.id {
          forall j | 0 <= j < |rest|
            ensures rest[j].id != first.id
          {
            assert rest[j] == cloned[j + 1];
          }
        }
      }
      r
  }

  // Looking Capella elements up

  /** What `TryGetElementByName` matches: a named element whose name equals
      the thing's name or short name, ignoring case. */
  predicate NamedLike(thing: Thing, x: Element) {
    IsNamedElement(x.cls) && (EqualsIgnoreCase(thing.name, x.name) || EqualsIgnoreCase(thing.shortName, x.name))
  }

  /** `TryGetElementBy`: the open sessions are searched in turn and the
      first element of the requested class satisfying `p` in the first
      session that has one is returned. */
  function {:induction false} TryGetElementBy(sessions: seq<seq<Element>>, ofClass: DstClass -> bool, p: Element -> bool): (r: Option<Element>)
    ensures r.Some? ==> ofClass(r.value.cls) && p(r.value) && exists k :: 0 <= k < |sessions| && r.value in sessions[k]
    ensures r.None? <==> forall k :: 0 <= k < |sessions| ==> !Any(sessions[k], (x: Element) => ofClass(x.cls) && p(x))
  {
    if |sessions| == 0 then None
    else
      var q := (x: Element) => ofClass(x.cls) && p(x);
      assert forall k :: 1 <= k < |sessions| ==> sessions[k] == sessions[1..][k - 1];
      match First(sessions[0], q)
      case Some(x) => Some(x)
      case None =>
        var r := TryGetElementBy(sessions[1..], ofClass, p);
        assert r.Some? ==> exists k :: 0 <= k < |sessions| && r.value in sessions[k] by {
          if r.Some? {
            var k :| 0 <= k < |sessions[1..]| && r.value in sessions[1..][k];
            assert r.value in sessions[k + 1];
          }
        }
        r
  }

  /** `TryGetElementByName`. */
  function TryGetElementByName(sessions: seq<seq<Element>>, ofClass: DstClass -> bool, thing: Thing): (r: Option<Element>)
    ensures r.Some? ==> ofClass(r.value.cls) && IsNamedElement(r.value.cls)
    ensures r.Some? ==> EqualsIgnoreCase(thing.name, r.value.name) || EqualsIgnoreCase(thing.shortName, r.value.name)
    ensures r.None? <==> forall k, i :: 0 <= k < |sessions| && 0 <= i < |sessions[k]| ==>
      !(ofClass(sessions[k][i].cls) && NamedLike(thing, sessions[k][i]))
  {
    TryGetElementBy(sessions, ofClass, (x: Element) => NamedLike(thing, x))
  }
}
