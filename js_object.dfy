/** What the plotting scripts rely on from JavaScript itself: the order in
    which `Object.keys` lists the keys of an ordinary object. */
module JsObject {
  import opened Seqs

  predicate IsDigit(c: char) {
    '0' <= c <= '9'
  }

  predicate AllDigits(s: string) {
    forall i :: 0 <= i < |s| ==> IsDigit(s[i])
  }

  /** The value of a string of decimal digits. */
  function DigitsValue(s: string): nat
    requires AllDigits(s)
  {
    if s == [] then 0 else DigitsValue(s[..|s| - 1]) * 10 + (s[|s| - 1] as int - '0' as int)
  }

  /** A decimal numeral without leading zeros, as `String(n)` prints a natural number. */
  predicate Canonical(s: string) {
    |s| > 0 && AllDigits(s) && (s[0] != '0' || |s| == 1)
  }

  /** 2^32 - 2, the largest array index (section 6.1.7 of ECMA-262). */
  const MaxArrayIndex: nat := 4294967294

  /** A property key that is an array index: the canonical numeral of an
      integer between 0 and 2^32 - 2. A year key such as "2020" is one; an
      affiliation or working-group name normally is not. */
  predicate IsArrayIndex(k: string) {
    Canonical(k) && DigitsValue(k) <= MaxArrayIndex
  }

  predicate IsOtherKey(k: string) {
    !IsArrayIndex(k)
  }

  function IndexValue(k: string): nat
    requires IsArrayIndex(k)
  {
    DigitsValue(k)
  }

  /** All of `s` are array indices, each no smaller than the one before. */
  ghost predicate AscendingIndices(s: seq<string>) {
    && (forall i :: 0 <= i < |s| ==> IsArrayIndex(s[i]))
    && (forall i :: 0 < i < |s| ==> IndexValue(s[i - 1]) <= IndexValue(s[i]))
  }

  lemma {:induction false} AscendingPairwise(s: seq<string>)
    requires AscendingIndices(s)
    ensures forall i, j :: 0 <= i < j < |s| ==> IndexValue(s[i]) <= IndexValue(s[j])
  {
    if s != [] {
      var init := s[..|s| - 1];
      assert AscendingIndices(init);
      AscendingPairwise(init);
      forall i, j | 0 <= i < j < |s|
        ensures IndexValue(s[i]) <= IndexValue(s[j])
      {
        if j < |s| - 1 {
          assert s[i] == init[i] && s[j] == init[j];
        } else if i < j - 1 {
          assert s[i] == init[i] && s[j - 1] == init[j - 1];
        }
      }
    }
  }

  /** Inserts the array index `k` into an ascending run of array indices. */
  function InsertByIndex(sorted: seq<string>, k: string): (r: seq<string>)
    requires forall x :: x in sorted ==> IsArrayIndex(x)
    requires IsArrayIndex(k)
    ensures multiset(r) == multiset(sorted) + multiset{k}
  {
    if sorted == [] || IndexValue(k) <= IndexValue(sorted[0]) then [k] + sorted
    else
      assert sorted == [sorted[0]] + sorted[1..];
      [sorted[0]] + InsertByIndex(sorted[1..], k)
  }

  /** Insertion keeps a run ascending. */
  lemma {:induction false} InsertByIndexAscending(sorted: seq<string>, k: string)
    requires AscendingIndices(sorted) && IsArrayIndex(k)
    ensures AscendingIndices(InsertByIndex(sorted, k))
    ensures InsertByIndex(sorted, k)[0] == k || (sorted != [] && InsertByIndex(sorted, k)[0] == sorted[0])
  {
    if sorted != [] && IndexValue(k) > IndexValue(sorted[0]) {
      var tail := sorted[1..];
      assert AscendingIndices(tail) by {
        forall i | 0 < i < |tail|
          ensures IndexValue(tail[i - 1]) <= IndexValue(tail[i])
        {
          assert tail[i - 1] == sorted[i] && tail[i] == sorted[i + 1];
        }
      }
      InsertByIndexAscending(tail, k);
      var rest := InsertByIndex(tail, k);
      var r := [sorted[0]] + rest;
      assert r == InsertByIndex(sorted, k);
      assert IndexValue(sorted[0]) <= IndexValue(rest[0]) by {
        if rest[0] != k {
          assert rest[0] == sorted[1];
        }
      }
      forall i | 1 < i < |r|
        ensures IndexValue(r[i - 1]) <= IndexValue(r[i])
      {
        assert r[i - 1] == rest[i - 2] && r[i] == rest[i - 1];
      }
    }
  }

  /** The array indices among `keys`, in ascending numeric order. */
  function SortByIndex(keys: seq<string>): (r: seq<string>)
    requires forall k :: k in keys ==> IsArrayIndex(k)
    ensures multiset(r) == multiset(keys)
    ensures AscendingIndices(r)
  {
    if keys == [] then []
    else
      assert keys == keys[..|keys| - 1] + [keys[|keys| - 1]];
      var sorted := SortByIndex(keys[..|keys| - 1]);
      InsertByIndexAscending(sorted, keys[|keys| - 1]);
      InsertByIndex(sorted, keys[|keys| - 1])
  }

  /** `Object.keys` of an ordinary object whose keys were created in the
      order `inserted` (section 10.1.11.1 of ECMA-262, OrdinaryOwnPropertyKeys):
      the array-index keys in ascending numeric order, then every other key
      in creation order. */
  function ObjectKeys(inserted: seq<string>): seq<string>
  {
    SortByIndex(Filter(inserted, IsArrayIndex)) + Filter(inserted, IsOtherKey)
  }

  /** `Object.keys` lists every key of the object exactly as often as it was created. */
  lemma ObjectKeysPermutation(inserted: seq<string>)
    ensures multiset(ObjectKeys(inserted)) == multiset(inserted)
    ensures |ObjectKeys(inserted)| == |inserted|
    ensures Distinct(inserted) ==> Distinct(ObjectKeys(inserted))
    ensures forall k :: k in ObjectKeys(inserted) <==> k in inserted
  {
    FilterSplit(inserted, IsArrayIndex, IsOtherKey);
    var keys := ObjectKeys(inserted);
    assert |keys| == |multiset(keys)|;
    forall k
      ensures k in keys <==> k in inserted
    {
      assert k in keys <==> k in multiset(keys);
    }
    if Distinct(inserted) {
      DistinctPermutation(inserted, keys);
    }
  }

  /** In `Object.keys` of an object with distinct keys, array-index keys
      come before all other keys and strictly ascend, and the other keys keep
      the order in which they were created. */
  lemma ObjectKeysOrder(inserted: seq<string>)
    requires Distinct(inserted)
    ensures forall i, j :: 0 <= i < j < |ObjectKeys(inserted)| && IsArrayIndex(ObjectKeys(inserted)[j]) ==>
      IsArrayIndex(ObjectKeys(inserted)[i]) && IndexValue(ObjectKeys(inserted)[i]) < IndexValue(ObjectKeys(inserted)[j])
    ensures Filter(ObjectKeys(inserted), IsOtherKey) == Filter(inserted, IsOtherKey)
  {
    var indices := SortByIndex(Filter(inserted, IsArrayIndex));
    var others := Filter(inserted, IsOtherKey);
    var keys := ObjectKeys(inserted);
    ObjectKeysPermutation(inserted);
    AscendingPairwise(indices);
    forall i, j | 0 <= i < j < |keys| && IsArrayIndex(keys[j])
      ensures IsArrayIndex(keys[i]) && IndexValue(keys[i]) < IndexValue(keys[j])
    {
      assert keys[j] !in others;
      assert j < |indices| && keys[i] == indices[i] && keys[j] == indices[j];
      if IndexValue(keys[i]) == IndexValue(keys[j]) {
        CanonicalInjective(keys[i], keys[j]);
      }
    }
    FilterAppend(indices, others, IsOtherKey);
    FilterNone(indices, IsOtherKey);
    FilterAll(others, IsOtherKey);
  }

  /** When no key is an array index, `Object.keys` is creation order. */
  lemma ObjectKeysInsertionOrder(inserted: seq<string>)
    requires forall k :: k in inserted ==> !IsArrayIndex(k)
    ensures ObjectKeys(inserted) == inserted
  {
    FilterNone(inserted, IsArrayIndex);
    FilterAll(inserted, IsOtherKey);
  }

  lemma LeadingDigitPositive(s: string)
    requires |s| > 0 && AllDigits(s) && s[0] != '0'
    ensures DigitsValue(s) >= 1
  {
    if |s| > 1 {
      LeadingDigitPositive(s[..|s| - 1]);
    }
  }

  lemma DecimalSplit(p: nat, d: int, q: nat, e: int)
    requires 0 <= d < 10 && 0 <= e < 10 && p * 10 + d == q * 10 + e
    ensures p == q && d == e
  {
  }

  /** Two canonical numerals with the same value are the same string. */
  lemma {:induction false} CanonicalInjective(a: string, b: string)
    requires Canonical(a) && Canonical(b) && DigitsValue(a) == DigitsValue(b)
    ensures a == b
  {
    var a', b' := a[..|a| - 1], b[..|b| - 1];
    DecimalSplit(DigitsValue(a'), a[|a| - 1] as int - '0' as int, DigitsValue(b'), b[|b| - 1] as int - '0' as int);
    if |a| > 1 {
      LeadingDigitPositive(a');
    }
    if |b| > 1 {
      LeadingDigitPositive(b');
    }
    if |a| > 1 && |b| > 1 {
      CanonicalInjective(a', b');
      assert a == a' + [a[|a| - 1]] && b == b' + [b[|b| - 1]];
    }
  }
}
