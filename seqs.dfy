/** Sequence helpers shared by the plotting scripts: an order-preserving
    filter, the first-occurrence order in which a JavaScript object records
    its keys, and distinctness. */
module Seqs {

  /** No element occurs twice. */
  ghost predicate Distinct<T>(s: seq<T>) {
    forall i, j :: 0 <= i < j < |s| ==> s[i] != s[j]
  }

  /** The elements of `s` satisfying `p`, in their original order. */
  function Filter<T>(s: seq<T>, p: T -> bool): (r: seq<T>)
    ensures |r| <= |s|
    ensures forall x :: x in r ==> x in s && p(x)
  {
    if s == [] then []
    else Filter(s[..|s| - 1], p) + (if p(s[|s| - 1]) then [s[|s| - 1]] else [])
  }

  /** The positions of the elements of `s` that satisfy `p`, ascending. */
  function FilterIndices<T>(s: seq<T>, p: T -> bool): seq<nat>
  {
    if s == [] then []
    else FilterIndices(s[..|s| - 1], p) + (if p(s[|s| - 1]) then [|s| - 1] else [])
  }

  /** `Filter` keeps exactly the elements that satisfy `p`, each once and in
      the order of `s`: its k-th element is the element of `s` at the k-th
      ascending position whose element satisfies `p`. */
  lemma FilterOrder<T>(s: seq<T>, p: T -> bool)
    ensures |FilterIndices(s, p)| == |Filter(s, p)|
    ensures forall k :: 0 <= k < |FilterIndices(s, p)| ==>
      FilterIndices(s, p)[k] < |s| && Filter(s, p)[k] == s[FilterIndices(s, p)[k]]
    ensures forall k, l :: 0 <= k < l < |FilterIndices(s, p)| ==>
      FilterIndices(s, p)[k] < FilterIndices(s, p)[l]
    ensures forall i :: 0 <= i < |s| ==> (p(s[i]) <==> i in FilterIndices(s, p))
  {
    FilterPositions(s, p);
    FilterAscending(s, p);
    FilterMembership(s, p);
  }

  /** Position k of `FilterIndices` points at the k-th kept element. */
  lemma {:induction false} FilterPositions<T>(s: seq<T>, p: T -> bool)
    ensures |FilterIndices(s, p)| == |Filter(s, p)|
    ensures forall k :: 0 <= k < |FilterIndices(s, p)| ==>
      FilterIndices(s, p)[k] < |s| && Filter(s, p)[k] == s[FilterIndices(s, p)[k]]
  {
    if s != [] {
      var n := |s| - 1;
      var init := s[..n];
      FilterPositions(init, p);
      var ix := FilterIndices(init, p);
      forall k | 0 <= k < |ix|
        ensures ix[k] < n && Filter(init, p)[k] == s[ix[k]]
      {
        assert init[ix[k]] == s[ix[k]];
      }
    }
  }

  /** `FilterIndices` strictly ascends and stays below `|s|`. */
  lemma {:induction false} FilterAscending<T>(s: seq<T>, p: T -> bool)
    ensures forall k :: 0 <= k < |FilterIndices(s, p)| ==> FilterIndices(s, p)[k] < |s|
    ensures forall k, l :: 0 <= k < l < |FilterIndices(s, p)| ==>
      FilterIndices(s, p)[k] < FilterIndices(s, p)[l]
  {
    if s != [] {
      FilterAscending(s[..|s| - 1], p);
    }
  }

  /** A position is listed by `FilterIndices` exactly when its element passes. */
  lemma {:induction false} FilterMembership<T>(s: seq<T>, p: T -> bool)
    ensures forall i :: 0 <= i < |s| ==> (p(s[i]) <==> i in FilterIndices(s, p))
  {
    if s != [] {
      var n := |s| - 1;
      var init := s[..n];
      FilterAscending(init, p);
      FilterMembership(init, p);
      forall i | 0 <= i < n
        ensures p(s[i]) <==> i in FilterIndices(s, p)
      {
        assert init[i] == s[i];
      }
    }
  }

  /** The positions of `s` whose elements pass `p`. */
  ghost function Passing<T>(s: seq<T>, p: T -> bool): set<int> {
    set i | 0 <= i < |s| && p(s[i])
  }

  /** `Filter` keeps one element for each position whose element passes. */
  lemma {:induction false} FilterCount<T>(s: seq<T>, p: T -> bool)
    ensures |Filter(s, p)| == |Passing(s, p)|
  {
    if s != [] {
      var n := |s| - 1;
      var init := s[..n];
      FilterCount(init, p);
      var before := Passing(init, p);
      var after := Passing(s, p);
      var last: set<int> := if p(s[n]) then {n} else {};
      forall i
        ensures i in after <==> i in before + last
      {
        if 0 <= i < n {
          assert init[i] == s[i];
          assert i in after <==> p(s[i]);
          assert i in before <==> p(s[i]);
        } else if i != n {
          assert i !in after && i !in before;
        }
      }
      assert after == before + last;
      assert before !! last;
    }
  }

  /** An element the filter rejects everywhere leaves nothing behind. */
  lemma {:induction false} FilterNone<T>(s: seq<T>, p: T -> bool)
    requires forall x :: x in s ==> !p(x)
    ensures Filter(s, p) == []
  {
    if s != [] {
      FilterNone(s[..|s| - 1], p);
    }
  }

  /** A filter every element passes keeps the whole sequence. */
  lemma {:induction false} FilterAll<T>(s: seq<T>, p: T -> bool)
    requires forall x :: x in s ==> p(x)
    ensures Filter(s, p) == s
  {
    if s != [] {
      var init, last := s[..|s| - 1], s[|s| - 1];
      assert s == init + [last];
      FilterAll(init, p);
      assert Filter(s, p) == Filter(init, p) + [last];
    }
  }

  /** Filtering a concatenation filters each part. */
  lemma {:induction false} FilterAppend<T>(a: seq<T>, b: seq<T>, p: T -> bool)
    ensures Filter(a + b, p) == Filter(a, p) + Filter(b, p)
  {
    if b != [] {
      var init := b[..|b| - 1];
      FilterAppend(a, init, p);
      assert (a + b)[..|a + b| - 1] == a + init;
    } else {
      assert a + b == a;
    }
  }

  /** Filtering by its negation splits `s` into two parts that
      together hold every element of `s` exactly as often as `s` does. */
  lemma {:induction false} FilterSplit<T>(s: seq<T>, p: T -> bool, q: T -> bool)
    requires forall x :: q(x) == !p(x)
    ensures multiset(Filter(s, p)) + multiset(Filter(s, q)) == multiset(s)
  {
    if s != [] {
      var init := s[..|s| - 1];
      FilterSplit(init, p, q);
      assert s == init + [s[|s| - 1]];
    }
  }

  /** The distinct elements of `s`, each at the place of its first
      occurrence: the order in which assignments to a JavaScript object
      create its keys. */
  function FirstOccurrences<T(==)>(s: seq<T>): (r: seq<T>)
  {
    if s == [] then [] else AddKey(FirstOccurrences(s[..|s| - 1]), s[|s| - 1])
  }

  /** Assigning to key `k` of an object whose keys were created in the
      order `keys`: a new key is created last, an existing one stays put. */
  function AddKey<T(==)>(keys: seq<T>, k: T): (r: seq<T>)
    ensures k in r && (forall x :: x in keys ==> x in r) && forall x :: x in r ==> x in keys || x == k
    ensures Distinct(keys) ==> Distinct(r)
  {
    if k in keys then keys else keys + [k]
  }

  /** Recording one more occurrence creates its key at most. */
  lemma FirstOccurrencesSnoc<T>(s: seq<T>, x: T)
    ensures FirstOccurrences(s + [x]) == AddKey(FirstOccurrences(s), x)
  {
    assert (s + [x])[..|s|] == s;
  }

  /** Assigning to the keys `ks`, in order, of an object whose keys were
      created in the order `keys`. */
  function AddKeys<T(==)>(keys: seq<T>, ks: seq<T>): (r: seq<T>)
    ensures forall x :: x in r ==> x in keys || x in ks
    ensures (forall x :: x in keys ==> x in r) && forall x :: x in ks ==> x in r
  {
    if ks == [] then keys else AddKey(AddKeys(keys, ks[..|ks| - 1]), ks[|ks| - 1])
  }

  /** Assigning only to existing keys creates none. */
  lemma {:induction false} AddKeysPresent<T>(keys: seq<T>, ks: seq<T>)
    requires forall x :: x in ks ==> x in keys
    ensures AddKeys(keys, ks) == keys
  {
    if ks != [] {
      var init := ks[..|ks| - 1];
      assert forall x :: x in init ==> x in ks;
      AddKeysPresent(keys, init);
      assert ks[|ks| - 1] in ks;
    }
  }

  /** Repeating the same run of assignments creates no further key. */
  lemma AddKeysIdempotent<T>(keys: seq<T>, ks: seq<T>)
    ensures AddKeys(AddKeys(keys, ks), ks) == AddKeys(keys, ks)
  {
    AddKeysPresent(AddKeys(keys, ks), ks);
  }

  /** The position of the first occurrence of `x` in `s`. */
  function IndexOf<T(==)>(s: seq<T>, x: T): (i: nat)
    requires x in s
    ensures i < |s| && s[i] == x && x !in s[..i]
  {
    if s[0] == x then 0 else 1 + IndexOf(s[1..], x)
  }

  lemma IndexOfPrefix<T>(s: seq<T>, n: nat, x: T)
    requires n <= |s| && x in s[..n]
    ensures x in s && IndexOf(s, x) == IndexOf(s[..n], x)
  {
    if s[0] != x {
      assert s[1..][..n - 1] == s[..n][1..];
      IndexOfPrefix(s[1..], n - 1, x);
    }
  }

  /** `FirstOccurrences` holds every element of `s` once, and orders them by
      the position at which each first occurs in `s`. */
  lemma {:induction false} FirstOccurrencesSpec<T>(s: seq<T>)
    ensures Distinct(FirstOccurrences(s))
    ensures forall x :: x in FirstOccurrences(s) <==> x in s
    ensures forall k, l :: 0 <= k < l < |FirstOccurrences(s)| ==>
      IndexOf(s, FirstOccurrences(s)[k]) < IndexOf(s, FirstOccurrences(s)[l])
  {
    if s != [] {
      var init := s[..|s| - 1];
      var last := s[|s| - 1];
      var r := FirstOccurrences(init);
      FirstOccurrencesSpec(init);
      assert s == init + [last];
      forall x | x in init
        ensures x in s && IndexOf(s, x) == IndexOf(init, x) && IndexOf(init, x) < |init|
      {
        IndexOfPrefix(s, |s| - 1, x);
      }
      if last !in r {
        var r' := r + [last];
        forall k, l | 0 <= k < l < |r'|
          ensures IndexOf(s, r'[k]) < IndexOf(s, r'[l])
        {
          assert r'[k] == r[k] && r[k] in r;
          if l < |r| {
            assert r'[l] == r[l];
          }
        }
      }
    }
  }

  /** A sequence without repetitions has as many distinct elements as it is long. */
  lemma {:induction false} DistinctCardinality<T>(s: seq<T>)
    requires Distinct(s)
    ensures |set x | x in s| == |s|
  {
    if s != [] {
      var init := s[..|s| - 1];
      DistinctCardinality(init);
      assert (set x | x in s) == (set x | x in init) + {s[|s| - 1]};
      assert s[|s| - 1] !in init;
    }
  }

  /** In a sequence without repetitions every element occurs once. */
  lemma {:induction false} DistinctCounts<T>(s: seq<T>)
    requires Distinct(s)
    ensures forall x :: multiset(s)[x] <= 1
  {
    if s != [] {
      var init := s[..|s| - 1];
      DistinctCounts(init);
      assert s == init + [s[|s| - 1]];
      assert s[|s| - 1] !in multiset(init);
    }
  }

  /** A rearrangement of a sequence without repetitions has none either. */
  lemma DistinctPermutation<T>(a: seq<T>, b: seq<T>)
    requires multiset(a) == multiset(b) && Distinct(a)
    ensures Distinct(b)
  {
    DistinctCounts(a);
    forall i, j | 0 <= i < j < |b|
      ensures b[i] != b[j]
    {
      var x := b[j];
      assert b == b[..j] + [x] + b[j + 1..];
      assert multiset(b)[x] == multiset(b[..j])[x] + 1 + multiset(b[j + 1..])[x];
      assert x !in b[..j];
      assert b[..j][i] == b[i];
    }
  }
}
