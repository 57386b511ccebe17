/** Order-preserving collection helpers shared by the model: Java's
    `stream().filter`, `findFirst`, `anyMatch`, and the `removeIf` + `add`
    idiom the adapter uses to replace an entry by its identifier. */
module Sequences {
  import opened Wrappers

  /** `sub` is `s` with some elements dropped and the rest kept in order. */
  ghost predicate IsSubsequence<T>(sub: seq<T>, s: seq<T>)
    decreases |s|
  {
    if |sub| == 0 then true
    else if |s| == 0 then false
    else if sub[0] == s[0] then IsSubsequence(sub[1..], s[1..])
    else IsSubsequence(sub, s[1..])
  }

  lemma {:induction false} SubsequenceOfSelf<T>(s: seq<T>)
    ensures IsSubsequence(s, s)
    decreases |s|
  {
    if |s| > 0 {
      SubsequenceOfSelf(s[1..]);
    }
  }

  lemma {:induction false} SubsequenceOfTail<T>(sub: seq<T>, x: T, s: seq<T>)
    requires IsSubsequence(sub, s)
    ensures IsSubsequence(sub, [x] + s)
    decreases |sub| + |s| + 1
  {
    assert ([x] + s)[1..] == s;
    if |sub| > 0 && sub[0] == x {
      SubsequenceDropHead(sub, s);
    }
  }

  lemma {:induction false} SubsequenceDropHead<T>(sub: seq<T>, s: seq<T>)
    requires |sub| > 0 && IsSubsequence(sub, s)
    ensures IsSubsequence(sub[1..], s)
    decreases |sub| + |s|
  {
    assert [s[0]] + s[1..] == s;
    if sub[0] == s[0] {
      SubsequenceOfTail(sub[1..], s[0], s[1..]);
    } else {
      SubsequenceDropHead(sub, s[1..]);
      SubsequenceOfTail(sub[1..], s[0], s[1..]);
    }
  }

  /** Java's `stream().filter(p)`: the elements satisfying `p`, in order. */
  function Filter<T>(s: seq<T>, p: T -> bool): (r: seq<T>)
    ensures |r| <= |s|
    ensures forall i :: 0 <= i < |r| ==> r[i] in s && p(r[i])
    ensures forall i :: 0 <= i < |s| && p(s[i]) ==> s[i] in r
    ensures IsSubsequence(r, s)
  {
    if |s| == 0 then []
    else
      var rest := Filter(s[1..], p);
      SubsequenceOfTail(rest, s[0], s[1..]);
      assert [s[0]] + s[1..] == s;
      if p(s[0]) then [s[0]] + rest else rest
  }

  /** Filtering twice with the same predicate changes nothing the second time. */
  lemma {:induction false} FilterIdempotent<T>(s: seq<T>, p: T -> bool)
    ensures Filter(Filter(s, p), p) == Filter(s, p)
  {
    if |s| > 0 {
      FilterIdempotent(s[1..], p);
      if p(s[0]) {
        assert ([s[0]] + Filter(s[1..], p))[1..] == Filter(s[1..], p);
      }
    }
  }

  /** Filtering distributes over concatenation. */
  lemma {:induction false} FilterAppend<T>(a: seq<T>, b: seq<T>, p: T -> bool)
    ensures Filter(a + b, p) == Filter(a, p) + Filter(b, p)
  {
    if |a| == 0 {
      assert a + b == b;
    } else {
      assert (a + b)[1..] == a[1..] + b;
      FilterAppend(a[1..], b, p);
    }
  }

  /** Java's `stream().anyMatch(p)`. */
  predicate Any<T>(s: seq<T>, p: T -> bool) {
    exists i :: 0 <= i < |s| && p(s[i])
  }

  /** The position of the first element satisfying `p` (Java's `findFirst`). */
  function FirstIndex<T>(s: seq<T>, p: T -> bool): (r: Option<nat>)
    ensures r.Some? ==> r.value < |s| && p(s[r.value])
    ensures r.Some? ==> forall j :: 0 <= j < r.value ==> !p(s[j])
    ensures r.None? <==> !Any(s, p)
  {
    if |s| == 0 then None
    else if p(s[0]) then Some(0)
    else
      match FirstIndex(s[1..], p)
      case None => None
      case Some(k) => Some(k + 1)
  }

  /** The first element satisfying `p`, if any. */
  function First<T>(s: seq<T>, p: T -> bool): (r: Option<T>)
    ensures r.Some? ==> r.value in s && p(r.value)
    ensures r.None? <==> !Any(s, p)
    ensures forall j :: 0 <= j < |s| && p(s[j]) && (forall i :: 0 <= i < j ==> !p(s[i])) ==> r == Some(s[j])
  {
    match FirstIndex(s, p)
    case None => None
    case Some(k) => Some(s[k])
  }

  /** The number of elements satisfying `p` (Java's `filter(p).count()`). */
  function Count<T>(s: seq<T>, p: T -> bool): (n: nat)
    ensures n <= |s|
    ensures n == 0 <==> !Any(s, p)
  {
    if |s| == 0 then 0
    else
      var rest := Count(s[1..], p);
      assert forall i :: 1 <= i < |s| ==> s[i] == s[1..][i - 1];
      assert Any(s[1..], p) ==> Any(s, p) by {
        if Any(s[1..], p) {
          var i :| 0 <= i < |s[1..]| && p(s[1..][i]);
          assert p(s[i + 1]);
        }
      }
      (if p(s[0]) then 1 else 0) + rest
  }

  /** The adapter's replace-by-identifier idiom: `removeIf(key(y) == key(x))`
      followed by `add(x)`. */
  function ReplaceBy<T, K(==)>(s: seq<T>, x: T, key: T -> K): (r: seq<T>)
  {
    Filter(s, y => key(y) != key(x)) + [x]
  }

  /** After a replace, `x` is the one and only entry with its key, it sits
      last, and every entry with another key is kept in its order. */
  lemma ReplaceByUnique<T, K>(s: seq<T>, x: T, key: T -> K)
    ensures var r := ReplaceBy(s, x, key);
      && r[|r| - 1] == x
      && (forall i :: 0 <= i < |r| && key(r[i]) == key(x) ==> i == |r| - 1)
      && r[..|r| - 1] == Filter(s, y => key(y) != key(x))
  {
    var r := ReplaceBy(s, x, key);
    var kept := Filter(s, y => key(y) != key(x));
    assert r[..|r| - 1] == kept;
    forall i | 0 <= i < |r| - 1
      ensures key(r[i]) != key(x)
    {
      assert r[i] == kept[i];
    }
  }

  /** Filtering with a predicate no element satisfies gives nothing. */
  lemma {:induction false} FilterAll<T>(s: seq<T>, p: T -> bool)
    requires forall i :: 0 <= i < |s| ==> p(s[i])
    ensures Filter(s, p) == s
  {
    if |s| > 0 {
      FilterAll(s[1..], p);
    }
  }

  lemma FilterNone<T>(s: seq<T>, p: T -> bool)
    requires forall i :: 0 <= i < |s| ==> !p(s[i])
    ensures Filter(s, p) == []
  {
  }

  /** Whether some entry of `output` carries the (present) key `k`. */
  predicate Claims<T, K(==)>(output: seq<T>, key: T -> Option<K>, k: Option<K>) {
    k.Some? && exists j :: 0 <= j < |output| && key(output[j]) == k
  }

  /** The adapter's merge idiom `removeIf(output has x's key)` followed by
      `addAll(output)`: the entries whose key the output claims are
      dropped, the others keep their order, and the output follows. */
  function MergeBy<T, K(==)>(s: seq<T>, output: seq<T>, key: T -> Option<K>): (r: seq<T>)
    ensures |output| <= |r| && r[|r| - |output|..] == output
    ensures forall i :: 0 <= i < |r| - |output| ==> r[i] in s && !Claims(output, key, key(r[i]))
    ensures forall i :: 0 <= i < |s| && !Claims(output, key, key(s[i])) ==> s[i] in r[..|r| - |output|]
  {
    var kept := Filter(s, x => !Claims(output, key, key(x)));
    assert (kept + output)[..|kept|] == kept;
    kept + output
  }

  /** Merging the same output twice changes nothing the second time, as
      long as every output entry has a key. */
  lemma MergeByIdempotent<T, K>(s: seq<T>, output: seq<T>, key: T -> Option<K>)
    requires forall j :: 0 <= j < |output| ==> key(output[j]).Some?
    ensures MergeBy(MergeBy(s, output, key), output, key) == MergeBy(s, output, key)
  {
    var p := (x: T) => !Claims(output, key, key(x));
    var kept := Filter(s, p);
    FilterAppend(kept, output, p);
    FilterIdempotent(s, p);
    forall j | 0 <= j < |output|
      ensures !p(output[j])
    {
      assert Claims(output, key, key(output[j]));
    }
    FilterNone(output, p);
    assert Filter(kept + output, p) == kept;
  }

  /** `removeIf(key(y) == k)`: the entries with another key, in order. */
  function {:induction false} WithoutKey<T, K(==)>(s: seq<T>, key: T -> K, k: K): (r: seq<T>)
    ensures |r| <= |s|
    ensures forall i :: 0 <= i < |r| ==> key(r[i]) != k && r[i] in s
    ensures forall i :: 0 <= i < |s| && key(s[i]) != k ==> s[i] in r
  {
    if s == [] then []
    else
      var tail := s[1..];
      assert forall i :: 1 <= i < |s| ==> s[i] == tail[i - 1];
      var rest := WithoutKey(tail, key, k);
      if key(s[0]) == k then rest else [s[0]] + rest
  }

  /** An entry is kept exactly when it is there and its key is not `k`. */
  lemma InWithoutKey<T, K>(s: seq<T>, key: T -> K, k: K, x: T)
    ensures x in WithoutKey(s, key, k) <==> x in s && key(x) != k
  {
    var r := WithoutKey(s, key, k);
    if x in r {
      var i :| 0 <= i < |r| && r[i] == x;
    }
    if x in s && key(x) != k {
      var i :| 0 <= i < |s| && s[i] == x;
    }
  }

  /** Removing a key no entry has changes nothing. */
  lemma {:induction false} WithoutAbsentKey<T, K>(s: seq<T>, key: T -> K, k: K)
    requires forall i :: 0 <= i < |s| ==> key(s[i]) != k
    ensures WithoutKey(s, key, k) == s
  {
    if s != [] {
      WithoutAbsentKey(s[1..], key, k);
      assert s == [s[0]] + s[1..];
    }
  }

  /** Removing the key of the entry appended last drops just that entry when
      no earlier entry has its key. */
  lemma {:induction false} WithoutKeyOfLast<T, K>(s: seq<T>, x: T, key: T -> K)
    requires forall i :: 0 <= i < |s| ==> key(s[i]) != key(x)
    ensures WithoutKey(s + [x], key, key(x)) == s
  {
    if s == [] {
      assert s + [x] == [x];
      assert [x][1..] == [];
    } else {
      assert (s + [x])[1..] == s[1..] + [x];
      WithoutKeyOfLast(s[1..], x, key);
      assert s == [s[0]] + s[1..];
    }
  }
}
