/**
 Builders of fresh containers from a variadic argument list (a list, a hash
 map, a hash set) and an intersection test on two sets.

 The variadic argument array is read and never written by any of the
 operations, so it is a `seq`. The containers the operations build are local
 to each call and handed to the caller, so their contents are Dafny values:
 a `seq` for the array list, a `map` for the hash map, a `set` for the hash
 set. Element equality is Dafny equality (`T(==)`).
 */
module Collections {

  /** The one error the module raises: an odd number of key/value arguments. */
  datatype Error = IllegalArgument(count: nat)

  datatype Result<R> = Success(value: R) | Failure(error: Error)

  // ---------------------------------------------------------------------------
  // ofArrayList
  // ---------------------------------------------------------------------------

  /** The list holds exactly the arguments, in order, duplicates kept. */
  method OfArrayList<T>(elements: seq<T>) returns (list: seq<T>)
    ensures |list| == |elements|
    ensures forall i :: 0 <= i < |list| ==> list[i] == elements[i]
    ensures multiset(list) == multiset(elements)
  {
    // The backing storage is set in one bulk step, not element by element.
    list := elements;
  }

  // ---------------------------------------------------------------------------
  // ofHashSet
  // ---------------------------------------------------------------------------

  /** The set of values occurring in `s`. */
  function ElementSet<T>(s: seq<T>): set<T>
  {
    set x | x in s
  }

  /** No value occurs twice in `s`. */
  predicate Distinct<T(==)>(s: seq<T>)
  {
    forall i, j :: 0 <= i < j < |s| ==> s[i] != s[j]
  }

  /**
   Collapsing duplicates never grows the count, and keeps it exactly when
   there was nothing to collapse.
   */
  lemma {:induction false} ElementSetSize<T>(s: seq<T>)
    ensures |ElementSet(s)| <= |s|
    ensures |ElementSet(s)| == |s| <==> Distinct(s)
  {
    if s == [] {
      assert ElementSet(s) == {};
    } else {
      var p, x := s[..|s| - 1], s[|s| - 1];
      assert s == p + [x];
      assert ElementSet(s) == ElementSet(p) + {x};
      ElementSetSize(p);
      if x in p {
        var k :| 0 <= k < |p| && p[k] == x;
        assert s[k] == s[|s| - 1];
        assert ElementSet(s) == ElementSet(p);
        assert !Distinct(s);
      } else {
        assert x !in ElementSet(p);
        assert |ElementSet(s)| == |ElementSet(p)| + 1;
        if Distinct(s) {
          assert forall i, j :: 0 <= i < j < |p| ==> p[i] == s[i] && p[j] == s[j];
          assert Distinct(p);
        }
        if Distinct(p) {
          forall i, j | 0 <= i < j < |s| ensures s[i] != s[j] {
            if j == |s| - 1 {
              assert s[i] == p[i];
            } else {
              assert s[i] == p[i] && s[j] == p[j];
            }
          }
        }
      }
    }
  }

  /** Insertion order among the arguments does not affect the resulting set. */
  lemma {:induction false} ElementSetOrderFree<T>(s: seq<T>, t: seq<T>)
    requires multiset(s) == multiset(t)
    ensures ElementSet(s) == ElementSet(t)
  {
    forall x ensures x in ElementSet(s) <==> x in ElementSet(t) {
      // A value occurs in a sequence iff it occurs in its multiset.
      assert x in s <==> x in multiset(s);
      assert x in t <==> x in multiset(t);
    }
  }

  /**
   Adds every argument to a fresh set, one at a time: the result holds
   exactly the arguments, duplicates collapsed.
   */
  method OfHashSet<T(==)>(elements: seq<T>) returns (s: set<T>)
    ensures forall x :: x in s <==> x in elements
    ensures |s| <= |elements|
    ensures |s| == |elements| <==> Distinct(elements)
  {
    s := {};
    for i := 0 to |elements|
      invariant forall x :: x in s <==> x in elements[..i]
    {
      assert elements[..i + 1] == elements[..i] + [elements[i]];
      s := s + {elements[i]};
    }
    assert elements[..|elements|] == elements;
    assert s == ElementSet(elements);
    ElementSetSize(elements);
  }

  // ---------------------------------------------------------------------------
  // ofHashMap
  // ---------------------------------------------------------------------------

  /**
   The map obtained by putting the pairs (kv[0], kv[1]), (kv[2], kv[3]), ...
   into an empty map in argument order; a later put replaces an earlier one.
   */
  function FromPairs<T(==)>(kv: seq<T>): map<T, T>
    requires |kv| % 2 == 0
    decreases |kv|
  {
    if kv == [] then map[]
    else FromPairs(kv[..|kv| - 2])[kv[|kv| - 2] := kv[|kv| - 1]]
  }

  /** The elements standing at key positions (even indices) of `kv`. */
  function KeyPositions<T>(kv: seq<T>): set<T>
  {
    set i | 0 <= i < |kv| && i % 2 == 0 :: kv[i]
  }

  /** `i` is the last key position of `kv` holding `k`. */
  predicate LastKeyAt<T(==)>(kv: seq<T>, k: T, i: int)
  {
    && 0 <= i < |kv| - 1 && i % 2 == 0 && kv[i] == k
    && forall j :: i < j < |kv| && j % 2 == 0 ==> kv[j] != k
  }

  /** The keys of the built map are exactly the arguments at key positions. */
  lemma {:induction false} FromPairsKeys<T>(kv: seq<T>)
    requires |kv| % 2 == 0
    ensures FromPairs(kv).Keys == KeyPositions(kv)
  {
    if kv != [] {
      var n := |kv|;
      var p := kv[..n - 2];
      FromPairsKeys(p);
      forall x ensures x in KeyPositions(kv) <==> x in KeyPositions(p) + {kv[n - 2]} {
        if x in KeyPositions(kv) {
          var i :| 0 <= i < n && i % 2 == 0 && kv[i] == x;
          if i < n - 2 {
            assert p[i] == x;
          }
        }
        if x in KeyPositions(p) {
          var i :| 0 <= i < |p| && i % 2 == 0 && p[i] == x;
          assert kv[i] == x;
        }
      }
    }
  }

  /** The built map has at most one entry per pair. */
  lemma {:induction false} FromPairsSize<T>(kv: seq<T>)
    requires |kv| % 2 == 0
    ensures |FromPairs(kv)| <= |kv| / 2
  {
    if kv != [] {
      var n := |kv|;
      var m := FromPairs(kv[..n - 2]);
      FromPairsSize(kv[..n - 2]);
      assert FromPairs(kv).Keys == m.Keys + {kv[n - 2]};
      assert |m.Keys + {kv[n - 2]}| <= |m.Keys| + 1;
    }
  }

  /** Last write wins: a key's final value follows its last key position. */
  lemma {:induction false} FromPairsLastWriteWins<T>(kv: seq<T>, k: T, i: int)
    requires |kv| % 2 == 0
    requires LastKeyAt(kv, k, i)
    ensures k in FromPairs(kv) && FromPairs(kv)[k] == kv[i + 1]
  {
    var n := |kv|;
    if i < n - 2 {
      var p := kv[..n - 2];
      assert kv[n - 2] != k;
      assert LastKeyAt(p, k, i) by {
        forall j | i < j < |p| && j % 2 == 0 ensures p[j] != k {
          assert p[j] == kv[j];
        }
      }
      FromPairsLastWriteWins(p, k, i);
    }
  }

  /** Conversely, every entry of the built map comes from the last pair for its key. */
  lemma {:induction false} FromPairsEntryOrigin<T>(kv: seq<T>, k: T)
    requires |kv| % 2 == 0
    requires k in FromPairs(kv)
    ensures exists i :: LastKeyAt(kv, k, i) && FromPairs(kv)[k] == kv[i + 1]
  {
    var n := |kv|;
    if kv[n - 2] == k {
      assert LastKeyAt(kv, k, n - 2);
    } else {
      var p := kv[..n - 2];
      FromPairsEntryOrigin(p, k);
      var i :| LastKeyAt(p, k, i) && FromPairs(p)[k] == p[i + 1];
      assert kv[i] == p[i] && kv[i + 1] == p[i + 1];
      assert forall j :: i < j < n - 2 ==> kv[j] == p[j];
      assert LastKeyAt(kv, k, i);
    }
  }

  /**
   Rejects an odd argument count before building anything; otherwise puts
   each key/value pair into a fresh map in argument order.
   */
  method OfHashMap<T(==)>(kv: seq<T>) returns (r: Result<map<T, T>>)
    ensures r.Failure? <==> |kv| % 2 != 0
    ensures r.Failure? ==> r.error == IllegalArgument(|kv|)
    ensures r.Success? ==> r.value == FromPairs(kv)
  {
    if |kv| % 2 != 0 {
      return Failure(IllegalArgument(|kv|));
    }
    var m := map[];
    var i := 0;
    while i < |kv|
      invariant 0 <= i <= |kv| && i % 2 == 0
      invariant m == FromPairs(kv[..i])
    {
      assert kv[..i + 2][..i] == kv[..i];
      m := m[kv[i] := kv[i + 1]];
      i := i + 2;
    }
    assert kv[..i] == kv;
    return Success(m);
  }

  // ---------------------------------------------------------------------------
  // hasIntersection
  // ---------------------------------------------------------------------------

  /**
   True iff the sets share an element. Iterates over the smaller set (set1
   when the sizes are equal) and tests each element for membership in the
   other, stopping at the first hit. The ghost `probes` counts those
   membership tests.
   */
  method HasIntersection<E(==)>(set1: set<E>, set2: set<E>) returns (b: bool, ghost probes: nat)
    ensures b <==> set1 * set2 != {}
    ensures set1 == {} || set2 == {} ==> !b
    ensures probes <= |set1| && probes <= |set2|
  {
    var small, large := set1, set2;
    if |set1| > |set2| {
      small, large := set2, set1;
    }
    var rest := small;
    probes := 0;
    while rest != {}
      invariant rest <= small
      invariant (small - rest) * large == {}
      invariant probes + |rest| == |small|
      decreases |rest|
    {
      var e :| e in rest;
      probes := probes + 1;
      if e in large {
        assert e in set1 * set2;
        b := true;
        return;
      }
      rest := rest - {e};
    }
    assert small * large == {};
    b := false;
  }

  /** Which set is iterated is a choice of cost only: the answer is symmetric. */
  method HasIntersectionSymmetric<E(==)>(a: set<E>, b: set<E>) returns (ab: bool, ba: bool)
    ensures ab == ba
  {
    ghost var p: nat;
    ab, p := HasIntersection(a, b);
    ba, p := HasIntersection(b, a);
  }
}
