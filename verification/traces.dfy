/** The two trace mapping rules. `BinaryRelationshipToCapellaTraces` turns
    the Hub binary relationships between mapped elements into Capella
    traces; `CapellaTracesToBinaryRelationship` turns the Capella traces
    between mapped elements into Hub binary relationships. Both receive the
    mapped rows of the current map result, and an exception anywhere in a
    transform makes it return an empty list. */
module Traces {
  import opened Wrappers
  import opened Sequences
  import opened Text
  import opened Capella
  import opened Hub
  import opened Rows
  import opened Transactions

  // Hub binary relationships to Capella traces

  /** Whether every input row has a Hub element; the first row without one
      makes the rule throw. */
  predicate HubsPresent(rows: seq<MappedRow>) {
    forall i :: 0 <= i < |rows| ==> rows[i].hub.Some?
  }

  /** The Hub identifier of input row `i`. */
  function HubIidAt(rows: seq<MappedRow>, i: nat): string
    requires HubsPresent(rows) && i < |rows|
  {
    rows[i].hub.value.iid
  }

  /** Whether some input row's Hub element has identifier `iid`. */
  predicate HasHubIid(rows: seq<MappedRow>, iid: string) {
    exists x :: 0 <= x < |rows| && rows[x].hub.Some? && rows[x].hub.value.iid == iid
  }

  /** Whether the Hub reports for each thing only relationships that have
      the thing at one end. */
  ghost predicate Attached(relationshipsOf: string -> seq<Relationship>) {
    forall iid, k :: 0 <= k < |relationshipsOf(iid)| ==>
      relationshipsOf(iid)[k].sourceIid == iid || relationshipsOf(iid)[k].targetIid == iid
  }

  /** The rows a relationship is mapped between, as input positions: the
      source row first, the target row second. */
  datatype Ends = Ends(source: nat, target: nat)

  /** The `HashMap` from relationships to their rows. `order` lists the keys
      in insertion order; it shows that the keys can be listed, but a hash
      map promises no iteration order, so the rule's loop takes its order as
      a separate parameter (see `Candidates`). */
  datatype Pairs = Pairs(ends: map<Relationship, Ends>, order: seq<Relationship>)

  /** Whether `order` lists every key of `ends` exactly once: an iteration
      order the map may follow. */
  ghost predicate Enumerates(order: seq<Relationship>, ends: map<Relationship, Ends>) {
    && (forall rel :: rel in ends <==> rel in order)
    && (forall i, j :: 0 <= i < j < |order| ==> order[i] != order[j])
  }

  ghost predicate ValidPairs(p: Pairs) {
    Enumerates(p.order, p.ends)
  }

  /** `HashMap.put`: a later put for the same relationship replaces its
      rows. */
  function Put(p: Pairs, rel: Relationship, e: Ends): (r: Pairs)
    requires ValidPairs(p)
    ensures ValidPairs(r) && r.ends == p.ends[rel := e]
  {
    Pairs(p.ends[rel := e], if rel in p.ends then p.order else p.order + [rel])
  }

  /** The end of `rel` that row `m`'s thing is not: its source when the
      thing is its target, its target otherwise. */
  function OtherIid(rows: seq<MappedRow>, m: nat, rel: Relationship): string
    requires HubsPresent(rows) && m < |rows|
  {
    if rel.targetIid == HubIidAt(rows, m) then rel.sourceIid else rel.targetIid
  }

  /** The first row whose Hub element is the other end of `rel`. */
  function OtherEnd(rows: seq<MappedRow>, m: nat, rel: Relationship): (r: Option<nat>)
    requires HubsPresent(rows) && m < |rows|
    ensures r.Some? ==> r.value < |rows| && HubIidAt(rows, r.value) == OtherIid(rows, m, rel)
    ensures r.None? <==> !HasHubIid(rows, OtherIid(rows, m, rel))
  {
    var wanted := OtherIid(rows, m, rel);
    FirstIndex(rows, (x: MappedRow) => x.hub.Some? && x.hub.value.iid == wanted)
  }

  /** What every entry of the map satisfies: the relationship is binary, its
      target row holds its target, and its source row holds its source or
      is the row that listed it without being its target. */
  predicate EntryOk(rows: seq<MappedRow>, relationshipsOf: string -> seq<Relationship>, rel: Relationship, e: Ends)
    requires HubsPresent(rows)
  {
    && rel.isBinary
    && e.source < |rows| && e.target < |rows|
    && HubIidAt(rows, e.target) == rel.targetIid
    && (|| HubIidAt(rows, e.source) == rel.sourceIid
        || (rel in relationshipsOf(HubIidAt(rows, e.source)) && rel.targetIid != HubIidAt(rows, e.source)))
  }

  predicate WellFormed(rows: seq<MappedRow>, relationshipsOf: string -> seq<Relationship>, p: Pairs)
    requires HubsPresent(rows)
  {
    forall rel :: rel in p.ends ==> EntryOk(rows, relationshipsOf, rel, p.ends[rel])
  }

  /** Whether the `j`-th relationship of row `m`'s thing is binary and its
      other end is among the rows. */
  predicate MappableAt(rows: seq<MappedRow>, relationshipsOf: string -> seq<Relationship>, m: nat, j: nat)
    requires HubsPresent(rows) && m < |rows|
  {
    var rels := relationshipsOf(HubIidAt(rows, m));
    j < |rels| && rels[j].isBinary && OtherEnd(rows, m, rels[j]).Some?
  }

  /** The inner loop of `GetMappableBinaryRelationships` over the binary
      relationships of row `m`'s thing, from the `k`-th on. */
  function {:induction false} VisitRelationships(rows: seq<MappedRow>, relationshipsOf: string -> seq<Relationship>, m: nat, k: nat, p: Pairs): (r: Pairs)
    requires HubsPresent(rows) && m < |rows| && ValidPairs(p) && WellFormed(rows, relationshipsOf, p)
    ensures ValidPairs(r) && WellFormed(rows, relationshipsOf, r)
    ensures p.ends.Keys <= r.ends.Keys
    ensures CoversRow(rows, relationshipsOf, m, k, r)
    decreases |relationshipsOf(HubIidAt(rows, m))| - k
  {
    var rels := relationshipsOf(HubIidAt(rows, m));
    if k >= |rels| then p
    else
      var next := VisitRelationship(rows, relationshipsOf, m, k, p);
      VisitRelationships(rows, relationshipsOf, m, k + 1, next)
  }

  /** One pass of the inner loop: the `k`-th relationship of row `m`'s
      thing is put with its pair when it is binary and its other end is
      among the rows. */
  function VisitRelationship(rows: seq<MappedRow>, relationshipsOf: string -> seq<Relationship>, m: nat, k: nat, p: Pairs): (r: Pairs)
    requires HubsPresent(rows) && m < |rows| && k < |relationshipsOf(HubIidAt(rows, m))|
    requires ValidPairs(p) && WellFormed(rows, relationshipsOf, p)
    ensures ValidPairs(r) && WellFormed(rows, relationshipsOf, r)
    ensures p.ends.Keys <= r.ends.Keys
    ensures MappableAt(rows, relationshipsOf, m, k) ==> relationshipsOf(HubIidAt(rows, m))[k] in r.ends
  {
    var rels := relationshipsOf(HubIidAt(rows, m));
    var rel := rels[k];
    assert rel in rels;
    if !rel.isBinary then p
    else
      match OtherEnd(rows, m, rel)
      case None => p
      case Some(o) => Put(p, rel, if rel.targetIid == HubIidAt(rows, m) then Ends(o, m) else Ends(m, o))
  }

  /** Every mappable relationship of row `m`'s thing, from the `k`-th on,
      has its pair in `p`. */
  ghost predicate CoversRow(rows: seq<MappedRow>, relationshipsOf: string -> seq<Relationship>, m: nat, k: nat, p: Pairs)
    requires HubsPresent(rows) && m < |rows|
  {
    forall j: nat :: k <= j && MappableAt(rows, relationshipsOf, m, j) ==> relationshipsOf(HubIidAt(rows, m))[j] in p.ends
  }

  /** Every mappable relationship of the things of the rows from the `m`-th
      on has its pair in `p`. */
  ghost predicate CoversRows(rows: seq<MappedRow>, relationshipsOf: string -> seq<Relationship>, m: nat, p: Pairs)
    requires HubsPresent(rows)
  {
    forall i: nat :: m <= i < |rows| ==> CoversRow(rows, relationshipsOf, i, 0, p)
  }

  /** Covering row `m` and, later, the rows after it covers the rows from
      `m` on. */
  lemma CoversRowsStep(rows: seq<MappedRow>, relationshipsOf: string -> seq<Relationship>, m: nat, q: Pairs, r: Pairs)
    requires HubsPresent(rows) && m < |rows|
    requires CoversRow(rows, relationshipsOf, m, 0, q) && q.ends.Keys <= r.ends.Keys
    requires CoversRows(rows, relationshipsOf, m + 1, r)
    ensures CoversRows(rows, relationshipsOf, m, r)
  {
    forall j: nat | MappableAt(rows, relationshipsOf, m, j)
      ensures relationshipsOf(HubIidAt(rows, m))[j] in r.ends
    {
      assert relationshipsOf(HubIidAt(rows, m))[j] in q.ends;
    }
    assert CoversRow(rows, relationshipsOf, m, 0, r);
  }

  /** The outer loop of `GetMappableBinaryRelationships` over the rows from
      the `m`-th on. */
  function {:induction false} VisitRows(rows: seq<MappedRow>, relationshipsOf: string -> seq<Relationship>, m: nat, p: Pairs): (r: Pairs)
    requires HubsPresent(rows) && m <= |rows| && ValidPairs(p) && WellFormed(rows, relationshipsOf, p)
    ensures ValidPairs(r) && WellFormed(rows, relationshipsOf, r)
    ensures p.ends.Keys <= r.ends.Keys
    ensures CoversRows(rows, relationshipsOf, m, r)
    decreases |rows| - m
  {
    if m == |rows| then p
    else
      var q := VisitRelationships(rows, relationshipsOf, m, 0, p);
      var r := VisitRows(rows, relationshipsOf, m + 1, q);
      CoversRowsStep(rows, relationshipsOf, m, q, r);
      r
  }

  /** `GetMappableBinaryRelationships`: every binary relationship of an
      input row's thing whose other end is also an input row, with its
      (source row, target row) pair. */
  function GetMappableBinaryRelationships(rows: seq<MappedRow>, relationshipsOf: string -> seq<Relationship>): (r: Pairs)
    requires HubsPresent(rows)
    ensures ValidPairs(r) && WellFormed(rows, relationshipsOf, r)
    ensures forall i: nat, j: nat :: i < |rows| && MappableAt(rows, relationshipsOf, i, j) ==> relationshipsOf(HubIidAt(rows, i))[j] in r.ends
  {
    var r := VisitRows(rows, relationshipsOf, 0, Pairs(map[], []));
    forall i: nat, j: nat | i < |rows| && MappableAt(rows, relationshipsOf, i, j)
      ensures relationshipsOf(HubIidAt(rows, i))[j] in r.ends
    {
      assert CoversRow(rows, relationshipsOf, i, 0, r);
    }
    r
  }

  /** When the Hub lists each thing's relationships at that thing, a
      relationship listed by an input row's thing is mappable exactly when
      it is binary and both of its ends are input rows, and then its pair is
      (the row of its source, the row of its target). */
  lemma MappableIffBothEndsInInput(rows: seq<MappedRow>, relationshipsOf: string -> seq<Relationship>, m: nat, j: nat)
    requires HubsPresent(rows) && Attached(relationshipsOf)
    requires m < |rows| && j < |relationshipsOf(HubIidAt(rows, m))|
    ensures var rel := relationshipsOf(HubIidAt(rows, m))[j];
      var p := GetMappableBinaryRelationships(rows, relationshipsOf);
      && (rel in p.ends <==> rel.isBinary && HasHubIid(rows, rel.sourceIid) && HasHubIid(rows, rel.targetIid))
      && (rel in p.ends ==>
            HubIidAt(rows, p.ends[rel].source) == rel.sourceIid && HubIidAt(rows, p.ends[rel].target) == rel.targetIid)
  {
    var rels := relationshipsOf(HubIidAt(rows, m));
    var rel := rels[j];
    var p := GetMappableBinaryRelationships(rows, relationshipsOf);
    assert rel.sourceIid == HubIidAt(rows, m) || rel.targetIid == HubIidAt(rows, m);
    assert HasHubIid(rows, HubIidAt(rows, m)) by {
      assert rows[m].hub.value.iid == HubIidAt(rows, m);
    }
    if rel in p.ends {
      var e := p.ends[rel];
      assert rows[e.target].hub.value.iid == rel.targetIid;
      assert rows[e.source].hub.value.iid == rel.sourceIid;
    }
    if rel.isBinary && HasHubIid(rows, rel.sourceIid) && HasHubIid(rows, rel.targetIid) {
      assert MappableAt(rows, relationshipsOf, m, j);
    }
  }

  /** Whether the trace is already there: the source element already has an
      outgoing trace to the target element, or a trace mapped earlier joins
      the two. */
  predicate AlreadyExists(source: Element, target: Element, mapped: seq<Trace>) {
    || target.id in source.traces
    || exists i :: 0 <= i < |mapped| && mapped[i].source.id == source.id && mapped[i].target.id == target.id
  }

  /** Mapping more traces never makes an existing one disappear, and a
      mapped trace between the two elements' ids makes it exist. */
  lemma AlreadyExistsOnceMapped(source: Element, target: Element, mapped: seq<Trace>, more: seq<Trace>)
    ensures AlreadyExists(source, target, mapped) ==> AlreadyExists(source, target, mapped + more)
    ensures (exists k :: 0 <= k < |more| && more[k].source.id == source.id && more[k].target.id == target.id) ==>
      AlreadyExists(source, target, mapped + more)
    ensures target.id !in source.traces && AlreadyExists(source, target, mapped + more) ==>
      exists k :: 0 <= k < |mapped + more| && (mapped + more)[k].source.id == source.id && (mapped + more)[k].target.id == target.id
  {
    if AlreadyExists(source, target, mapped) && target.id !in source.traces {
      var i :| 0 <= i < |mapped| && mapped[i].source.id == source.id && mapped[i].target.id == target.id;
      assert (mapped + more)[i] == mapped[i];
    }
    if exists k :: 0 <= k < |more| && more[k].source.id == source.id && more[k].target.id == target.id {
      var k :| 0 <= k < |more| && more[k].source.id == source.id && more[k].target.id == target.id;
      assert (mapped + more)[|mapped| + k] == more[k];
    }
  }

  /** What `CreateTrace` makes of a relationship between two Capella
      elements: a trace summarised by the relationship's name in lower case,
      between the originals of the two elements when they are clones. */
  predicate TraceFor(reg: Registry, rel: Relationship, source: Element, target: Element, t: Trace) {
    && t.summary == Lower(rel.name)
    && t.source == GetOriginal(reg, source)
    && t.target == GetOriginal(reg, target)
  }

  /** `CreateTrace`: a new `GenericTrace` registered with the transaction
      service under the identifier `uuid` gives its reference. */
  function CreateTrace(reg: Registry, rel: Relationship, source: Element, target: Element, uuid: nat -> string): (r: (Registry, Trace))
    requires Valid(reg)
    ensures Valid(r.0) && r.0.clones == reg.clones
    ensures TraceFor(reg, rel, source, target, r.1)
    ensures r.1.id == uuid(reg.nextRef) && r.1.id in r.0.news
  {
    var created := Create(reg, GenericTrace, true, uuid(reg.nextRef), None);
    (created.0, Trace(created.1.value.id, Lower(rel.name), GetOriginal(reg, source), GetOriginal(reg, target)))
  }

  /** A mappable relationship with the Capella elements of its two rows. */
  datatype Candidate = Candidate(rel: Relationship, source: Option<Element>, target: Option<Element>)

  /** The mappable relationships in `order`, each with the Capella elements
      of its source and target rows. `order` is the map's iteration order,
      which the `HashMap` leaves unspecified: any listing of its keys. */
  function Candidates(rows: seq<MappedRow>, relationshipsOf: string -> seq<Relationship>, order: seq<Relationship>): (r: seq<Candidate>)
    requires HubsPresent(rows)
    requires Enumerates(order, GetMappableBinaryRelationships(rows, relationshipsOf).ends)
    ensures var p := GetMappableBinaryRelationships(rows, relationshipsOf);
      && |r| == |order| == |p.ends|
      && (forall rel :: rel in p.ends <==> exists k :: 0 <= k < |r| && r[k].rel == rel)
      && forall k :: 0 <= k < |r| ==>
           && r[k].rel == order[k]
           && r[k].source == rows[p.ends[order[k]].source].dst
           && r[k].target == rows[p.ends[order[k]].target].dst
  {
    var p := GetMappableBinaryRelationships(rows, relationshipsOf);
    assert forall rel :: rel in p.ends ==> p.ends[rel].source < |rows| && p.ends[rel].target < |rows| by {
      forall rel | rel in p.ends
        ensures p.ends[rel].source < |rows| && p.ends[rel].target < |rows|
      {
        assert EntryOk(rows, relationshipsOf, rel, p.ends[rel]);
      }
    }
    var r := ListCandidates(rows, p.ends, order);
    assert |order| == |p.ends| by {
      DistinctListingSize(order, p.ends);
    }
    assert forall rel :: rel in p.ends <==> exists k :: 0 <= k < |r| && r[k].rel == rel by {
      ListedKeys(order, p.ends, r);
    }
    r
  }

  /** The relationships of `order` with the Capella elements of their rows
      in `ends`. */
  function ListCandidates(rows: seq<MappedRow>, ends: map<Relationship, Ends>, order: seq<Relationship>): (r: seq<Candidate>)
    requires forall k :: 0 <= k < |order| ==> order[k] in ends
    requires forall rel :: rel in ends ==> ends[rel].source < |rows| && ends[rel].target < |rows|
    ensures |r| == |order|
    ensures forall k :: 0 <= k < |r| ==>
      && r[k].rel == order[k]
      && r[k].source == rows[ends[order[k]].source].dst
      && r[k].target == rows[ends[order[k]].target].dst
  {
    seq(|order|, k requires 0 <= k < |order| => CandidateOf(rows, ends, order[k]))
  }

  /** The candidate for a relationship of `ends`. */
  function CandidateOf(rows: seq<MappedRow>, ends: map<Relationship, Ends>, rel: Relationship): (r: Candidate)
    requires rel in ends && ends[rel].source < |rows| && ends[rel].target < |rows|
  {
    Candidate(rel, rows[ends[rel].source].dst, rows[ends[rel].target].dst)
  }

  /** Every key of a listed map is the relationship of some candidate when
      the candidates follow the listing. */
  lemma ListedKeys(order: seq<Relationship>, ends: map<Relationship, Ends>, r: seq<Candidate>)
    requires Enumerates(order, ends)
    requires |r| == |order| && forall k :: 0 <= k < |r| ==> r[k].rel == order[k]
    ensures forall rel :: rel in ends <==> exists k :: 0 <= k < |r| && r[k].rel == rel
  {
    forall rel | rel in ends
      ensures exists k :: 0 <= k < |r| && r[k].rel == rel
    {
      var k :| 0 <= k < |order| && order[k] == rel;
      assert r[k].rel == rel;
    }
  }

  /** A listing of a map's keys without repeats is as long as the map. */
  lemma DistinctListingSize(order: seq<Relationship>, ends: map<Relationship, Ends>)
    requires Enumerates(order, ends)
    ensures |order| == |ends|
  {
    DistinctSize(order);
    assert ends.Keys == set rel | rel in order;
  }

  /** A sequence without repeats has as many distinct elements as
      positions. */
  lemma {:induction false} DistinctSize(order: seq<Relationship>)
    requires forall i, j :: 0 <= i < j < |order| ==> order[i] != order[j]
    ensures |set rel | rel in order| == |order|
    decreases |order|
  {
    if order != [] {
      var rest := order[1..];
      forall i, j | 0 <= i < j < |rest|
        ensures rest[i] != rest[j]
      {
        assert rest[i] == order[i + 1] && rest[j] == order[j + 1];
      }
      DistinctSize(rest);
      var later := set rel | rel in rest;
      assert order[0] !in later by {
        forall i | 0 <= i < |rest|
          ensures rest[i] != order[0]
        {
          assert rest[i] == order[i + 1];
        }
      }
      assert order == [order[0]] + rest;
      assert (set rel | rel in order) == later + {order[0]};
    }
  }

  /** Whether a candidate's rows both have a Capella element; `Map` throws
      on the first one that does not. */
  predicate EndsPresent(c: Candidate) {
    c.source.Some? && c.target.Some?
  }

  /** Whether a candidate needs a trace: both its rows have Capella elements
      and no trace joins them yet. */
  predicate NeedsTrace(c: Candidate, mapped: seq<Trace>) {
    EndsPresent(c) && !AlreadyExists(c.source.value, c.target.value, mapped)
  }

  /** The candidates that need a trace, in order. */
  function {:induction false} Needed(cs: seq<Candidate>, mapped: seq<Trace>): (r: seq<Candidate>)
    ensures |r| <= |cs|
    ensures forall n :: 0 <= n < |r| ==> r[n] in cs && NeedsTrace(r[n], mapped)
    ensures forall k :: 0 <= k < |cs| && NeedsTrace(cs[k], mapped) ==> cs[k] in r
  {
    if cs == [] then []
    else
      var rest := Needed(cs[1..], mapped);
      assert forall k :: 1 <= k < |cs| ==> cs[k] == cs[1..][k - 1];
      if NeedsTrace(cs[0], mapped) then
        assert forall n :: 1 <= n < |[cs[0]] + rest| ==> ([cs[0]] + rest)[n] == rest[n - 1];
        [cs[0]] + rest
      else rest
  }

  /** The first candidate with a row that lacks a Capella element: the one
      at which `Map` throws. */
  function {:induction false} FirstBroken(cs: seq<Candidate>, k: nat): (r: Option<nat>)
    ensures r.Some? ==> k <= r.value < |cs| && !EndsPresent(cs[r.value])
    ensures r.Some? ==> forall j :: k <= j < r.value ==> EndsPresent(cs[j])
    ensures r.None? <==> forall j :: k <= j < |cs| ==> EndsPresent(cs[j])
    decreases |cs| - k
  {
    if k >= |cs| then None
    else if !EndsPresent(cs[k]) then Some(k)
    else FirstBroken(cs, k + 1)
  }

  /** The loop of `Map` over the candidates that need a trace: one trace per
      candidate, in order, each made by `CreateTrace` against the registry
      as the previous ones left it. */
  function {:induction false} CreateTraces(needed: seq<Candidate>, reg: Registry, uuid: nat -> string): (r: (Registry, seq<Trace>))
    requires Valid(reg)
    requires forall n :: 0 <= n < |needed| ==> needed[n].source.Some? && needed[n].target.Some?
    ensures Valid(r.0) && r.0.clones == reg.clones
    ensures |r.1| == |needed|
    ensures forall n :: 0 <= n < |needed| ==>
      TraceFor(reg, needed[n].rel, needed[n].source.value, needed[n].target.value, r.1[n])
  {
    if needed == [] then (reg, [])
    else
      var c := needed[0];
      var tail := needed[1..];
      assert forall n :: 0 <= n < |tail| ==> tail[n] == needed[n + 1];
      var created := CreateTrace(reg, c.rel, c.source.value, c.target.value, uuid);
      var rest := CreateTraces(tail, created.0, uuid);
      var traces := [created.1] + rest.1;
      forall n | 0 <= n < |needed|
        ensures TraceFor(reg, needed[n].rel, needed[n].source.value, needed[n].target.value, traces[n])
      {
        if n > 0 {
          assert needed[n] == tail[n - 1] && traces[n] == rest.1[n - 1];
        }
      }
      (rest.0, traces)
  }

  /** The rule's result buffer, the list it returns and the registry. */
  datatype RuleResult<T> = RuleResult(buffer: seq<T>, output: seq<T>, reg: Registry)

  /** `Map` and the rest of `Transform` once the candidates are known:
      empty when a candidate has a row without a Capella element, after the
      traces for the needed candidates before it were made; otherwise the
      buffer followed by one trace per needed candidate. */
  function MapCandidates(buffer: seq<Trace>, cs: seq<Candidate>, mapped: seq<Trace>, reg: Registry, uuid: nat -> string): (r: RuleResult<Trace>)
    requires Valid(reg)
    ensures r.buffer == []
    ensures Valid(r.reg) && r.reg.clones == reg.clones
    ensures FirstBroken(cs, 0).Some? ==> r.output == []
    ensures FirstBroken(cs, 0).None? ==>
      var needed := Needed(cs, mapped);
      && |r.output| == |buffer| + |needed| && r.output[..|buffer|] == buffer
      && forall n :: 0 <= n < |needed| ==>
           TraceFor(reg, needed[n].rel, needed[n].source.value, needed[n].target.value, r.output[|buffer| + n])
  {
    match FirstBroken(cs, 0)
    case Some(f) =>
      var before := Needed(cs[..f], mapped);
      assert forall n :: 0 <= n < |before| ==> NeedsTrace(before[n], mapped);
      RuleResult([], [], CreateTraces(before, reg, uuid).0)
    case None =>
      var needed := Needed(cs, mapped);
      assert forall n :: 0 <= n < |needed| ==> NeedsTrace(needed[n], mapped);
      var created := CreateTraces(needed, reg, uuid);
      var output := buffer + created.1;
      assert forall n :: 0 <= n < |created.1| ==> output[|buffer| + n] == created.1[n];
      assert output[..|buffer|] == buffer;
      RuleResult([], output, created.0)
  }

  /** `BinaryRelationshipToCapellaTraces.Transform`. `buffer` is the rule's
      result list on entry. A row without a Hub element throws before any
      trace is made. A mappable relationship with a row without a Capella
      element throws when `Map` reaches it, after the traces for the needed
      relationships before it were made. Either way the result is an empty
      list. Otherwise the returned list is the buffer followed by one trace,
      made by `CreateTrace`, per mappable relationship that no trace joins
      yet, in the map's order. The buffer is emptied whatever happens. */
  function RelationshipsToTraces(buffer: seq<Trace>, rows: seq<MappedRow>, relationshipsOf: string -> seq<Relationship>,
                                 order: seq<Relationship>, mapped: seq<Trace>, reg: Registry, uuid: nat -> string): (r: RuleResult<Trace>)
    requires Valid(reg)
    requires HubsPresent(rows) ==> Enumerates(order, GetMappableBinaryRelationships(rows, relationshipsOf).ends)
    ensures r.buffer == []
    ensures !HubsPresent(rows) ==> r.output == [] && r.reg == reg
    ensures HubsPresent(rows) ==> r == MapCandidates(buffer, Candidates(rows, relationshipsOf, order), mapped, reg, uuid)
  {
    if !HubsPresent(rows) then RuleResult([], [], reg)
    else MapCandidates(buffer, Candidates(rows, relationshipsOf, order), mapped, reg, uuid)
  }

  /** Since every transform empties the buffer, the transform that follows
      another returns exactly the traces it makes itself. */
  lemma NoTraceOutlivesItsTransform(first: seq<Trace>, rows: seq<MappedRow>, relationshipsOf: string -> seq<Relationship>,
                                    order: seq<Relationship>, mapped: seq<Trace>, reg: Registry, uuid: nat -> string)
    requires Valid(reg) && HubsPresent(rows)
    requires Enumerates(order, GetMappableBinaryRelationships(rows, relationshipsOf).ends)
    requires FirstBroken(Candidates(rows, relationshipsOf, order), 0).None?
    ensures var before := RelationshipsToTraces(first, rows, relationshipsOf, order, mapped, reg, uuid);
      var after := RelationshipsToTraces(before.buffer, rows, relationshipsOf, order, mapped, before.reg, uuid);
      |after.output| == |Needed(Candidates(rows, relationshipsOf, order), mapped)|
  {
    var before := RelationshipsToTraces(first, rows, relationshipsOf, order, mapped, reg, uuid);
    assert before.buffer == [];
  }

  // Capella traces to Hub binary relationships

  /** A row with both a Capella and a Hub element. */
  datatype Linked = Linked(dst: Element, hub: Thing)

  /** The rows as linked pairs, or nothing when some row lacks either
      element, which makes the rule throw. */
  function {:induction false} Complete(rows: seq<MappedRow>): (r: Option<seq<Linked>>)
    ensures r.None? <==> exists i :: 0 <= i < |rows| && (rows[i].dst.None? || rows[i].hub.None?)
    ensures r.Some? ==> |r.value| == |rows| && forall i :: 0 <= i < |rows| ==>
      r.value[i] == Linked(rows[i].dst.value, rows[i].hub.value)
  {
    if rows == [] then Some([])
    else if rows[0].dst.None? || rows[0].hub.None? then None
    else
      match Complete(rows[1..])
      case None =>
        assert forall i :: 1 <= i < |rows| ==> rows[i] == rows[1..][i - 1];
        None
      case Some(tail) =>
        assert forall i :: 1 <= i < |rows| ==> rows[i] == rows[1..][i - 1];
        Some([Linked(rows[0].dst.value, rows[0].hub.value)] + tail)
  }

  /** `GetCapelleElementName`: a named element's name, otherwise its
      identifier. */
  function ElementName(e: Element): (r: string)
    ensures IsNamedElement(e.cls) ==> r == e.name
    ensures !IsNamedElement(e.cls) ==> r == e.id
  {
    if IsNamedElement(e.cls) then e.name else e.id
  }

  /** The name `CreateBinaryRelationship` gives a relationship: the names
      of its two Capella elements joined by an arrow. */
  function RelationshipName(source: Element, target: Element): (r: string)
    ensures |r| == |ElementName(source)| + 3 + |ElementName(target)|
    ensures r[..|ElementName(source)|] == ElementName(source)
    ensures r[|r| - |ElementName(target)|..] == ElementName(target)
  {
    ElementName(source) + " → " + ElementName(target)
  }

  /** `DoesRelationshipAlreadyExists`: a binary relationship of the open
      iteration or one mapped earlier already goes from `source` to
      `target`. */
  predicate RelationshipExists(source: Thing, target: Thing, iteration: seq<Relationship>, mapped: seq<Relationship>) {
    || (exists i :: 0 <= i < |iteration| && iteration[i].isBinary && iteration[i].targetIid == target.iid && iteration[i].sourceIid == source.iid)
    || (exists i :: 0 <= i < |mapped| && mapped[i].targetIid == target.iid && mapped[i].sourceIid == source.iid)
  }

  /** Mapping more relationships never makes an existing one disappear; a
      mapped relationship between the two things' iids makes it exist,
      binary or not, while one of the iteration counts only when binary. */
  lemma RelationshipExistsOnceMapped(source: Thing, target: Thing, iteration: seq<Relationship>,
                                     mapped: seq<Relationship>, more: seq<Relationship>)
    ensures RelationshipExists(source, target, iteration, mapped) ==> RelationshipExists(source, target, iteration, mapped + more)
    ensures (exists k :: 0 <= k < |more| && more[k].sourceIid == source.iid && more[k].targetIid == target.iid) ==>
      RelationshipExists(source, target, iteration, mapped + more)
    ensures (forall i :: 0 <= i < |iteration| ==> !iteration[i].isBinary) && mapped == [] ==>
      !RelationshipExists(source, target, iteration, mapped)
  {
    if RelationshipExists(source, target, iteration, mapped) && exists i :: 0 <= i < |mapped| && mapped[i].targetIid == target.iid && mapped[i].sourceIid == source.iid {
      var i :| 0 <= i < |mapped| && mapped[i].targetIid == target.iid && mapped[i].sourceIid == source.iid;
      assert (mapped + more)[i] == mapped[i];
    }
    if exists k :: 0 <= k < |more| && more[k].sourceIid == source.iid && more[k].targetIid == target.iid {
      var k :| 0 <= k < |more| && more[k].sourceIid == source.iid && more[k].targetIid == target.iid;
      assert (mapped + more)[|mapped| + k] == more[k];
    }
  }

  /** The first row, from the `x`-th on, whose Capella element has
      identifier `id`. */
  function {:induction false} TargetRowFrom(ls: seq<Linked>, id: string, x: nat): (r: Option<nat>)
    ensures r.Some? ==> x <= r.value < |ls| && ls[r.value].dst.id == id
    ensures r.Some? ==> forall y :: x <= y < r.value ==> ls[y].dst.id != id
    ensures r.None? <==> forall y :: x <= y < |ls| ==> ls[y].dst.id != id
    decreases |ls| - x
  {
    if x >= |ls| then None
    else if ls[x].dst.id == id then Some(x)
    else TargetRowFrom(ls, id, x + 1)
  }

  /** The row an outgoing trace of row `i`'s element leads to: the first
      row holding the trace's target, if any. */
  function Reach(ls: seq<Linked>, i: nat, k: nat): (r: Option<nat>)
    requires i < |ls| && k < |ls[i].dst.traces|
    ensures r.Some? ==> r.value < |ls| && ls[r.value].dst.id == ls[i].dst.traces[k]
  {
    TargetRowFrom(ls, ls[i].dst.traces[k], 0)
  }

  /** A position of the loops of `Map`: the `trace`-th outgoing trace of
      row `row`'s element, and the row `target` it leads to. */
  datatype Position = Position(row: nat, trace: nat, target: nat)

  /** Whether a position names a trace and the first input row holding its
      target. */
  predicate Reaches(ls: seq<Linked>, pos: Position) {
    pos.row < |ls| && pos.trace < |ls[pos.row].dst.traces| && Reach(ls, pos.row, pos.trace) == Some(pos.target)
  }

  /** Whether a position's two rows are input rows. */
  predicate InRange(ls: seq<Linked>, pos: Position) {
    pos.row < |ls| && pos.target < |ls|
  }

  /** The inner loop of `Map`: the positions of the traces of row `i`'s
      element, from the `k`-th on, that lead to an input row. */
  function {:induction false} RowPositions(ls: seq<Linked>, i: nat, k: nat): (r: seq<Position>)
    requires i < |ls|
    ensures forall n :: 0 <= n < |r| ==> r[n].row == i && k <= r[n].trace && Reaches(ls, r[n])
    ensures forall k1 :: k <= k1 < |ls[i].dst.traces| && Reach(ls, i, k1).Some? ==>
      Position(i, k1, Reach(ls, i, k1).value) in r
    decreases |ls[i].dst.traces| - k
  {
    if k >= |ls[i].dst.traces| then []
    else
      var rest := RowPositions(ls, i, k + 1);
      match Reach(ls, i, k)
      case None => rest
      case Some(t) =>
        assert forall n :: 1 <= n < |[Position(i, k, t)] + rest| ==> ([Position(i, k, t)] + rest)[n] == rest[n - 1];
        [Position(i, k, t)] + rest
  }

  /** The outer loop of `Map`: the positions of the traces of the elements
      of rows `i` on that lead to an input row. */
  function {:induction false} AllPositions(ls: seq<Linked>, i: nat): (r: seq<Position>)
    requires i <= |ls|
    ensures forall n :: 0 <= n < |r| ==> i <= r[n].row && Reaches(ls, r[n])
    ensures forall pos: Position :: i <= pos.row && Reaches(ls, pos) ==> pos in r
    decreases |ls| - i
  {
    if i == |ls| then []
    else
      var here := RowPositions(ls, i, 0);
      var rest := AllPositions(ls, i + 1);
      var r := here + rest;
      forall n | 0 <= n < |r|
        ensures i <= r[n].row && Reaches(ls, r[n])
      {
        if n < |here| {
          assert r[n] == here[n];
        } else {
          assert r[n] == rest[n - |here|];
        }
      }
      forall pos: Position | i <= pos.row && Reaches(ls, pos)
        ensures pos in r
      {
        if pos.row == i {
          assert Position(i, pos.trace, Reach(ls, i, pos.trace).value) in here;
        } else {
          assert pos in rest;
        }
      }
      r
  }

  /** Whether the Hub elements of a position's two rows are not joined by
      any binary relationship yet, which is when `Map` creates one. */
  predicate Unrelated(ls: seq<Linked>, pos: Position, iteration: seq<Relationship>, mapped: seq<Relationship>) {
    InRange(ls, pos) && !RelationshipExists(ls[pos.row].hub, ls[pos.target].hub, iteration, mapped)
  }

  /** The positions that get a relationship, in loop order. */
  function {:induction false} Unrelateds(ls: seq<Linked>, ps: seq<Position>, iteration: seq<Relationship>, mapped: seq<Relationship>): (r: seq<Position>)
    ensures forall n :: 0 <= n < |r| ==> r[n] in ps && Unrelated(ls, r[n], iteration, mapped)
    ensures forall k :: 0 <= k < |ps| && Unrelated(ls, ps[k], iteration, mapped) ==> ps[k] in r
  {
    if ps == [] then []
    else
      var rest := Unrelateds(ls, ps[1..], iteration, mapped);
      assert forall k :: 1 <= k < |ps| ==> ps[k] == ps[1..][k - 1];
      if Unrelated(ls, ps[0], iteration, mapped) then
        assert forall n :: 1 <= n < |[ps[0]] + rest| ==> ([ps[0]] + rest)[n] == rest[n - 1];
        [ps[0]] + rest
      else rest
  }

  /** Whether `rel` is what `CreateBinaryRelationship` makes of the trace at
      `pos`: a binary relationship from the source row's Hub element to the
      target row's, named "<source> → <target>" after the two Capella
      elements. */
  predicate RelationshipFor(ls: seq<Linked>, pos: Position, rel: Relationship)
    requires InRange(ls, pos)
  {
    && rel.isBinary
    && rel.sourceIid == ls[pos.row].hub.iid
    && rel.targetIid == ls[pos.target].hub.iid
    && rel.name == RelationshipName(ls[pos.row].dst, ls[pos.target].dst)
  }

  /** `CreateBinaryRelationship` for every position; the `n`-th
      relationship gets the identifier `uuid(start + n)`. */
  function CreateRelationships(ls: seq<Linked>, ps: seq<Position>, start: nat, uuid: nat -> string): (r: seq<Relationship>)
    requires forall n :: 0 <= n < |ps| ==> InRange(ls, ps[n])
    ensures |r| == |ps|
    ensures forall n :: 0 <= n < |ps| ==> RelationshipFor(ls, ps[n], r[n]) && r[n].iid == uuid(start + n)
  {
    seq(|ps|, n requires 0 <= n < |ps| => CreateBinaryRelationship(ls, ps[n], uuid(start + n)))
  }

  /** `CreateBinaryRelationship` for the trace at `pos`, with identifier `iid`. */
  function CreateBinaryRelationship(ls: seq<Linked>, pos: Position, iid: string): (rel: Relationship)
    requires InRange(ls, pos)
    ensures RelationshipFor(ls, pos, rel) && rel.iid == iid
  {
    Relationship(iid, RelationshipName(ls[pos.row].dst, ls[pos.target].dst), true,
                 ls[pos.row].hub.iid, ls[pos.target].hub.iid)
  }

  /** `CapellaTracesToBinaryRelationship.Transform`. `buffer` is the rule's
      result list on entry. A row without a Capella or a Hub element makes
      the transform throw and return an empty list. Otherwise the returned
      list is the buffer followed by one relationship per outgoing trace
      that leads to an input row whose Hub element is not yet related to
      the source row's, in loop order. The buffer is emptied whatever
      happens. */
  function TracesToRelationships(buffer: seq<Relationship>, rows: seq<MappedRow>, iteration: seq<Relationship>,
                                 mapped: seq<Relationship>, uuid: nat -> string): (r: RuleResult<Relationship>)
    ensures r.buffer == []
    ensures Complete(rows).None? ==> r.output == []
    ensures Complete(rows).Some? ==>
      var ls := Complete(rows).value;
      var needed := Unrelateds(ls, AllPositions(ls, 0), iteration, mapped);
      && |r.output| >= |buffer| && r.output[..|buffer|] == buffer
      && RelationshipsFor(ls, needed, r.output[|buffer|..])
  {
    match Complete(rows)
    case None => RuleResult([], [], Empty)
    case Some(ls) =>
      var needed := Unrelateds(ls, AllPositions(ls, 0), iteration, mapped);
      var created := CreateRelationships(ls, needed, |buffer|, uuid);
      var output := buffer + created;
      assert output[..|buffer|] == buffer && output[|buffer|..] == created;
      RuleResult([], output, Empty)
  }

  /** `rels` holds, in order, one relationship for each position of `ps`. */
  predicate RelationshipsFor(ls: seq<Linked>, ps: seq<Position>, rels: seq<Relationship>) {
    && |rels| == |ps|
    && forall n :: 0 <= n < |ps| ==> InRange(ls, ps[n]) && RelationshipFor(ls, ps[n], rels[n])
  }

  /** An outgoing trace leads to row `t` exactly when row `t` is the first
      input row holding the trace's target. */
  lemma ReachIsFirstHolder(ls: seq<Linked>, i: nat, k: nat, t: nat)
    requires i < |ls| && k < |ls[i].dst.traces| && t < |ls|
    ensures Reach(ls, i, k) == Some(t) <==>
      && ls[t].dst.id == ls[i].dst.traces[k]
      && forall x :: 0 <= x < t ==> ls[x].dst.id != ls[i].dst.traces[k]
  {
    var r := TargetRowFrom(ls, ls[i].dst.traces[k], 0);
    if r.Some? && r.value != t && ls[t].dst.id == ls[i].dst.traces[k] {
      assert t > r.value;
    }
  }

  /** The positions that get a relationship are exactly the positions
      that name a trace and the first input row holding its target, whose
      two rows' Hub elements are not yet related. */
  lemma NeededIffReachesUnrelated(ls: seq<Linked>, iteration: seq<Relationship>, mapped: seq<Relationship>, p: Position)
    ensures p in Unrelateds(ls, AllPositions(ls, 0), iteration, mapped) <==> Reaches(ls, p) && Unrelated(ls, p, iteration, mapped)
  {
    var all := AllPositions(ls, 0);
    var needed := Unrelateds(ls, all, iteration, mapped);
    if p in needed {
      var n :| 0 <= n < |needed| && needed[n] == p;
      var m :| 0 <= m < |all| && all[m] == p;
      assert Reaches(ls, all[m]);
    }
    if Reaches(ls, p) && Unrelated(ls, p, iteration, mapped) {
      var m :| 0 <= m < |all| && all[m] == p;
      assert Unrelated(ls, all[m], iteration, mapped);
    }
  }

  /** The outgoing trace `k` of row `i`'s element gets a relationship to
      row `t` exactly when row `t` is the first input row holding the
      trace's target and the two rows' Hub elements are not yet related. */
  lemma RelationshipIffUnrelatedTrace(ls: seq<Linked>, iteration: seq<Relationship>, mapped: seq<Relationship>, i: nat, k: nat, t: nat)
    requires i < |ls| && k < |ls[i].dst.traces| && t < |ls|
    ensures Position(i, k, t) in Unrelateds(ls, AllPositions(ls, 0), iteration, mapped) <==>
      && ls[t].dst.id == ls[i].dst.traces[k]
      && (forall x :: 0 <= x < t ==> ls[x].dst.id != ls[i].dst.traces[k])
      && !RelationshipExists(ls[i].hub, ls[t].hub, iteration, mapped)
  {
    NeededIffReachesUnrelated(ls, iteration, mapped, Position(i, k, t));
    ReachIsFirstHolder(ls, i, k, t);
  }
}
