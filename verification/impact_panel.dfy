/** `CapellaImpactViewPanelViewModel`: the list of saved mapping
    configurations offered to the user, and what pressing Save/Load does
    with the name typed in. A mapping configuration is a Hub
    `ExternalIdentifierMap`; the Hub session, the maps it holds and the
    current map are parameters. Of the "keep the temporary mapping?"
    question only whether it is asked is modelled, not the answer. */
module ImpactPanel {
  import opened Wrappers

  // Java's natural order on strings

  /** `a.compareTo(b) <= 0`: `a` is a prefix of `b`, or at the first
      position where they differ `a` has the smaller character. Characters
      are compared as code points, where Java compares UTF-16 units; the
      two orders differ only when a character outside the Basic
      Multilingual Plane meets one from U+E000 to U+FFFF. */
  predicate Below(a: string, b: string)
    decreases |a|
  {
    |a| == 0 || (|b| > 0 && (a[0] < b[0] || (a[0] == b[0] && Below(a[1..], b[1..]))))
  }

  lemma {:induction false} BelowTotal(a: string, b: string)
    ensures Below(a, b) || Below(b, a)
    decreases |a|
  {
    if |a| > 0 && |b| > 0 && a[0] == b[0] {
      BelowTotal(a[1..], b[1..]);
    }
  }

  predicate Sorted(s: seq<string>) {
    forall i :: 0 < i < |s| ==> Below(s[i - 1], s[i])
  }

  /** Inserts `x` into the sorted `s` before the first element it is below. */
  function {:induction false} Insert(x: string, s: seq<string>): (r: seq<string>)
    requires Sorted(s)
    ensures Sorted(r) && |r| == |s| + 1
    ensures multiset(r) == multiset(s) + multiset{x}
    ensures r[0] == x || (|s| > 0 && r[0] == s[0])
    decreases |s|
  {
    if s == [] || Below(x, s[0]) then [x] + s
    else
      BelowTotal(x, s[0]);
      var rest := Insert(x, s[1..]);
      assert s == [s[0]] + s[1..];
      [s[0]] + rest
  }

  /** `sorted()`: the same strings, in Java's natural order. */
  function {:induction false} Sort(s: seq<string>): (r: seq<string>)
    ensures Sorted(r) && |r| == |s|
    ensures multiset(r) == multiset(s)
    decreases |s|
  {
    if s == [] then []
    else
      assert s == [s[0]] + s[1..];
      Insert(s[0], Sort(s[1..]))
  }

  // Saved configurations

  /** The part of an `ExternalIdentifierMap` the panel reads: its name and
      its revision number (0 for a map not yet written to the Hub). */
  datatype IdentifierMap = IdentifierMap(name: string, revision: int)

  function Names(maps: seq<IdentifierMap>): (r: seq<string>)
    ensures |r| == |maps| && forall i :: 0 <= i < |maps| ==> r[i] == maps[i].name
  {
    seq(|maps|, i requires 0 <= i < |maps| => maps[i].name)
  }

  /** `GetSavedMappingconfigurationCollection`: nothing without an open Hub
      session; otherwise the empty name, standing for "no configuration",
      followed by the names of the adapter's maps in natural order. */
  function GetSavedMappingConfigurationCollection(sessionOpen: bool, available: seq<IdentifierMap>): (r: seq<string>)
    ensures !sessionOpen ==> r == []
    ensures sessionOpen ==> |r| == |available| + 1 && r[0] == ""
    ensures sessionOpen ==> Sorted(r[1..]) && multiset(r[1..]) == multiset(Names(available))
  {
    if !sessionOpen then [] else
      var sorted := Sort(Names(available));
      assert ([""] + sorted)[1..] == sorted;
      [""] + sorted
  }

  /** With one map and an open session the list has two entries, the empty
      name and the map's; with the session closed it is empty. */
  lemma SavedConfigurationsOfOneMap(m: IdentifierMap)
    ensures GetSavedMappingConfigurationCollection(false, [m]) == []
    ensures GetSavedMappingConfigurationCollection(true, [m]) == ["", m.name]
  {
    var r := GetSavedMappingConfigurationCollection(true, [m]);
    assert multiset(r[1..]) == multiset{m.name};
    assert r[1] in multiset(r[1..]);
  }

  // Save/Load

  /** What pressing Save/Load leaves: the result shown to the caller
      (whether the configuration is a new one), the map now current, whether
      the user was asked about keeping the temporary mapping, and whether the
      mapping was reloaded. */
  datatype SaveLoad = SaveLoad(isNew: bool, current: IdentifierMap, asked: bool, reloaded: bool)

  /** The position of the first map named `name`. */
  function FindMap(maps: seq<IdentifierMap>, name: string, k: nat): (r: Option<nat>)
    requires k <= |maps|
    ensures r.Some? ==> k <= r.value < |maps| && maps[r.value].name == name
    ensures r.None? <==> forall i :: k <= i < |maps| ==> maps[i].name != name
    decreases |maps| - k
  {
    if k == |maps| then None
    else if maps[k].name == name then Some(k)
    else FindMap(maps, name, k + 1)
  }

  /** `CheckForExistingTemporaryMapping` puts its question only when the
      current map is the temporary one and holds correspondences. */
  predicate WouldAsk(temporary: bool, correspondences: nat) {
    temporary && correspondences > 0
  }

  /** `OnSaveLoadMappingConfiguration` as written: an empty name changes
      nothing and answers false; otherwise the adapter's map with that name,
      or else a new one, becomes current and the mapping is reloaded, and the
      answer is whether the name differs from the current map's and the map
      now current was never written (revision below 1). The new map is
      built as the argument of `orElse`, so the question about the temporary
      mapping is put even when a map with the name exists. */
  function OnSaveLoadMappingConfigurationAsWritten(name: string, current: IdentifierMap, available: seq<IdentifierMap>,
                                                   temporary: bool, correspondences: nat): (r: SaveLoad)
    ensures name == "" ==> r == SaveLoad(false, current, false, false)
    ensures name != "" ==> r.reloaded && r.current.name == name
    ensures name != "" ==> r.asked == WouldAsk(temporary, correspondences)
    ensures name != "" && FindMap(available, name, 0).Some? ==> r.current == available[FindMap(available, name, 0).value]
    ensures name != "" && FindMap(available, name, 0).None? ==> r.current == IdentifierMap(name, 0)
    ensures r.isNew <==> name != "" && name != current.name && r.current.revision < 1
  {
    if name == "" then SaveLoad(false, current, false, false)
    else
      var isNew := name != current.name;
      var asked := WouldAsk(temporary, correspondences);
      var selected := match FindMap(available, name, 0)
        case Some(i) => available[i]
        case None => IdentifierMap(name, 0);
      SaveLoad(isNew && selected.revision < 1, selected, asked, true)
  }

  /** `OnSaveLoadMappingConfiguration` with the new map built only when no
      map has the name, as `orElseGet` would: the question about the
      temporary mapping is put only when a new map is made. */
  function OnSaveLoadMappingConfiguration(name: string, current: IdentifierMap, available: seq<IdentifierMap>,
                                         temporary: bool, correspondences: nat): (r: SaveLoad)
    ensures r.asked <==> name != "" && FindMap(available, name, 0).None? && WouldAsk(temporary, correspondences)
    ensures var w := OnSaveLoadMappingConfigurationAsWritten(name, current, available, temporary, correspondences);
      r.isNew == w.isNew && r.current == w.current && r.reloaded == w.reloaded
  {
    var w := OnSaveLoadMappingConfigurationAsWritten(name, current, available, temporary, correspondences);
    w.(asked := w.asked && FindMap(available, name, 0).None?)
  }

  /** Loading a configuration the Hub already holds, while the current
      temporary map has correspondences, still puts the question meant for
      creating one; the corrected version does not. */
  lemma LoadingExistingStillAsks(name: string, current: IdentifierMap, available: seq<IdentifierMap>, correspondences: nat)
    requires name != "" && correspondences > 0
    requires exists i :: 0 <= i < |available| && available[i].name == name
    ensures OnSaveLoadMappingConfigurationAsWritten(name, current, available, true, correspondences).asked
    ensures !OnSaveLoadMappingConfiguration(name, current, available, true, correspondences).asked
  {
  }

  /** Whether the first map named `name`, if there is one, was never
      written to the Hub. */
  predicate FirstUnwritten(available: seq<IdentifierMap>, name: string) {
    forall i :: 0 <= i < |available| && available[i].name == name ==>
      (available[i].revision < 1 || exists j :: 0 <= j < i && available[j].name == name)
  }

  /** The answer is true exactly for a name other than the current map's
      whose first map, if any, was never written to the Hub; the current
      map's own name is never new. */
  lemma SaveLoadAnswer(name: string, current: IdentifierMap, available: seq<IdentifierMap>, temporary: bool, correspondences: nat)
    ensures var r := OnSaveLoadMappingConfiguration(name, current, available, temporary, correspondences);
      && (r.isNew <==> name != "" && name != current.name && FirstUnwritten(available, name))
      && (name == current.name ==> !r.isNew)
  {
    var r := OnSaveLoadMappingConfiguration(name, current, available, temporary, correspondences);
    match FindMap(available, name, 0)
    case None =>
    case Some(f) =>
      FindMapFirst(available, name, 0);
      if r.isNew {
        forall i | 0 <= i < |available| && available[i].name == name
          ensures available[i].revision < 1 || exists j :: 0 <= j < i && available[j].name == name
        {
          if i != f {
            assert f < i;
          }
        }
      } else if name != "" && name != current.name {
        assert !(available[f].revision < 1 || exists j :: 0 <= j < f && available[j].name == name);
      }
  }

  /** No map before the one found has the name. */
  lemma {:induction false} FindMapFirst(maps: seq<IdentifierMap>, name: string, k: nat)
    requires k <= |maps| && FindMap(maps, name, k).Some?
    ensures forall j :: k <= j < FindMap(maps, name, k).value ==> maps[j].name != name
    decreases |maps| - k
  {
    if maps[k].name != name {
      FindMapFirst(maps, name, k + 1);
    }
  }
}
