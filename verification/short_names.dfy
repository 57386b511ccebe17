/** The stereotype short-name normaliser (`StereotypeUtils.GetShortName`):
    the current version drops every character that is not an ASCII letter, a
    digit or '-', then lower-cases; the older version drops everything but
    ASCII letters and digits and keeps the letter case. */
module ShortNames {
  import opened Text
  import opened Sequences

  /** Characters the current filter keeps. */
  predicate IsRetained(c: char) { IsLetter(c) || IsDigit(c) || c == '-' }

  /** Characters a current short name is made of. */
  predicate IsShortNameChar(c: char) { IsLower(c) || IsDigit(c) || c == '-' }

  /** Characters the older filter keeps. */
  predicate IsAlphanumeric(c: char) { IsLetter(c) || IsDigit(c) }

  function GetShortName(name: string): (r: string)
    ensures |r| <= |name|
    ensures forall i :: 0 <= i < |r| ==> IsShortNameChar(r[i])
  {
    if |name| == 0 then ""
    else (if IsRetained(name[0]) then [ToLower(name[0])] else []) + GetShortName(name[1..])
  }

  /** The short name is the lower-cased sequence of retained characters. */
  lemma {:induction false} GetShortNameIsLoweredFilter(name: string)
    ensures GetShortName(name) == Lower(Filter(name, IsRetained))
  {
    if |name| > 0 {
      GetShortNameIsLoweredFilter(name[1..]);
      if IsRetained(name[0]) {
        LowerAppend([name[0]], Filter(name[1..], IsRetained));
      }
    }
  }

  /** A string is its own short name exactly when it is made of short-name
      characters only. */
  lemma {:induction false} GetShortNameFixedPoint(s: string)
    ensures GetShortName(s) == s <==> forall i :: 0 <= i < |s| ==> IsShortNameChar(s[i])
  {
    if forall i :: 0 <= i < |s| ==> IsShortNameChar(s[i]) {
      KeepsShortNameChars(s);
    }
  }

  lemma {:induction false} KeepsShortNameChars(s: string)
    requires forall i :: 0 <= i < |s| ==> IsShortNameChar(s[i])
    ensures GetShortName(s) == s
  {
    if |s| > 0 {
      assert IsShortNameChar(s[0]);
      KeepsShortNameChars(s[1..]);
      assert [s[0]] + s[1..] == s;
    }
  }

  /** Normalising a short name again changes nothing. */
  lemma GetShortNameIdempotent(name: string)
    ensures GetShortName(GetShortName(name)) == GetShortName(name)
  {
    KeepsShortNameChars(GetShortName(name));
  }

  /** The short name keeps characters of the lower-cased input, in order. */
  lemma {:induction false} GetShortNameIsSubsequence(name: string)
    ensures IsSubsequence(GetShortName(name), Lower(name))
    ensures |GetShortName(name)| <= |name|
  {
    if |name| > 0 {
      GetShortNameIsSubsequence(name[1..]);
      var rest := GetShortName(name[1..]);
      var lowered := Lower(name);
      assert lowered[1..] == Lower(name[1..]);
      if IsRetained(name[0]) {
        var sub := [ToLower(name[0])] + rest;
        assert sub == GetShortName(name);
        assert sub[1..] == rest;
        assert sub[0] == lowered[0];
        assert IsSubsequence(sub, lowered);
      } else {
        assert GetShortName(name) == rest;
        SubsequenceOfTail(rest, lowered[0], lowered[1..]);
        assert [lowered[0]] + lowered[1..] == lowered;
      }
    }
  }

  /** The older, case-preserving normaliser. */
  function LegacyShortName(name: string): (r: string)
    ensures |r| <= |name|
    ensures forall i :: 0 <= i < |r| ==> IsAlphanumeric(r[i])
  {
    if |name| == 0 then ""
    else (if IsAlphanumeric(name[0]) then [name[0]] else []) + LegacyShortName(name[1..])
  }

  /** The older short name is the input's letters and digits, unchanged and in
      order: no letter changes case. */
  lemma {:induction false} LegacyShortNameIsFilter(name: string)
    ensures LegacyShortName(name) == Filter(name, IsAlphanumeric)
    ensures IsSubsequence(LegacyShortName(name), name)
  {
    if |name| > 0 {
      LegacyShortNameIsFilter(name[1..]);
    }
  }

  lemma {:induction false} LegacyShortNameIdempotent(name: string)
    ensures LegacyShortName(LegacyShortName(name)) == LegacyShortName(name)
  {
    LegacyShortNameIsFilter(name);
    LegacyShortNameIsFilter(LegacyShortName(name));
    FilterIdempotent(name, IsAlphanumeric);
  }
}
