/** Python's `dict(pairs)`: a dictionary built from a sequence of
    (key, value) pairs, read in order, where a later pair for a key
    overwrites the value of an earlier one. A JSON object parsed into a
    dict, and the inverse catalog built from `(v, k)` pairs, are both this.
 */
module Dict {

  /** The keys that occur in the pairs. */
  function KeysOf<K, V>(pairs: seq<(K, V)>): set<K>
  {
    set i | 0 <= i < |pairs| :: pairs[i].0
  }

  /** The values that occur in the pairs. */
  function ValuesOf<K, V>(pairs: seq<(K, V)>): set<V>
  {
    set i | 0 <= i < |pairs| :: pairs[i].1
  }

  /** No later pair repeats the key of pair `i`. */
  predicate LastOccurrence<K(==), V>(pairs: seq<(K, V)>, i: int)
    requires 0 <= i < |pairs|
  {
    forall j :: i < j < |pairs| ==> pairs[j].0 != pairs[i].0
  }

  /** Every key occurs once, as in a dict or a JSON object. */
  predicate DistinctKeys<K(==), V>(pairs: seq<(K, V)>)
  {
    forall i, j :: 0 <= i < j < |pairs| ==> pairs[i].0 != pairs[j].0
  }

  /** Every value occurs once. */
  predicate DistinctValues<K, V(==)>(pairs: seq<(K, V)>)
  {
    forall i, j :: 0 <= i < j < |pairs| ==> pairs[i].1 != pairs[j].1
  }

  /** Each pair with key and value exchanged, in the same order: the keys
      of the result are the values of the pairs and the other way round. */
  function Swapped<K, V>(pairs: seq<(K, V)>): (r: seq<(V, K)>)
    ensures |r| == |pairs|
    ensures forall i :: 0 <= i < |pairs| ==> r[i].0 == pairs[i].1 && r[i].1 == pairs[i].0
    ensures KeysOf(r) == ValuesOf(pairs) && ValuesOf(r) == KeysOf(pairs)
  {
    var r := seq(|pairs|, i requires 0 <= i < |pairs| => (pairs[i].1, pairs[i].0));
    assert KeysOf(r) == ValuesOf(pairs) by {
      forall v | v in ValuesOf(pairs) ensures v in KeysOf(r) {
        var i :| 0 <= i < |pairs| && pairs[i].1 == v;
        assert r[i].0 == v;
      }
    }
    assert ValuesOf(r) == KeysOf(pairs) by {
      forall k | k in KeysOf(pairs) ensures k in ValuesOf(r) {
        var i :| 0 <= i < |pairs| && pairs[i].0 == k;
        assert r[i].1 == k;
      }
    }
    r
  }

  /** Swapping twice gives back the pairs. */
  lemma SwappedTwice<K, V>(pairs: seq<(K, V)>)
    ensures Swapped(Swapped(pairs)) == pairs
  {
  }

  /** The dictionary of the pairs: its keys are exactly the keys that occur,
      and each key maps to the value of its last pair. */
  function DictOf<K(==), V>(pairs: seq<(K, V)>): (r: map<K, V>)
    ensures r.Keys == KeysOf(pairs)
    ensures forall i :: 0 <= i < |pairs| && LastOccurrence(pairs, i) ==> r[pairs[i].0] == pairs[i].1
    decreases |pairs|
  {
    if |pairs| == 0 then map[]
    else
      var init := pairs[..|pairs| - 1];
      var last := pairs[|pairs| - 1];
      assert pairs == init + [last];
      DictOfSnoc(init, last, DictOf(init));
      DictOf(init)[last.0 := last.1]
  }

  /** Adding a last pair to the dictionary of the others gives the
      dictionary of all of them. */
  lemma DictOfSnoc<K, V>(init: seq<(K, V)>, last: (K, V), d: map<K, V>)
    requires d.Keys == KeysOf(init)
    requires forall i :: 0 <= i < |init| && LastOccurrence(init, i) ==> d[init[i].0] == init[i].1
    ensures var pairs := init + [last];
            && d[last.0 := last.1].Keys == KeysOf(pairs)
            && forall i :: 0 <= i < |pairs| && LastOccurrence(pairs, i) ==> d[last.0 := last.1][pairs[i].0] == pairs[i].1
  {
    var pairs := init + [last];
    var r := d[last.0 := last.1];
    assert forall i :: 0 <= i < |init| ==> pairs[i] == init[i];
    assert KeysOf(pairs) == KeysOf(init) + {last.0} by {
      forall k | k in KeysOf(pairs) ensures k in KeysOf(init) + {last.0} {
        var i :| 0 <= i < |pairs| && pairs[i].0 == k;
        if i < |init| {
          assert init[i].0 == k;
        }
      }
      forall k | k in KeysOf(init) ensures k in KeysOf(pairs) {
        var i :| 0 <= i < |init| && init[i].0 == k;
        assert pairs[i].0 == k;
      }
      assert pairs[|init|].0 == last.0;
    }
    forall i | 0 <= i < |pairs| && LastOccurrence(pairs, i)
      ensures r[pairs[i].0] == pairs[i].1
    {
      if i < |init| {
        assert pairs[|init|] == last;
        assert LastOccurrence(init, i);
      }
    }
  }

  /** Every pair is followed, possibly at itself, by a last pair with the
      same key. */
  lemma {:induction false} LastOccurrenceExists<K, V>(pairs: seq<(K, V)>, i: int) returns (j: int)
    requires 0 <= i < |pairs|
    ensures i <= j < |pairs| && pairs[j].0 == pairs[i].0 && LastOccurrence(pairs, j)
    decreases |pairs| - i
  {
    if LastOccurrence(pairs, i) {
      j := i;
    } else {
      var k :| i < k < |pairs| && pairs[k].0 == pairs[i].0;
      j := LastOccurrenceExists(pairs, k);
    }
  }

  /** With distinct keys, the dictionary maps every key to its one value. */
  lemma DictOfDistinct<K, V>(pairs: seq<(K, V)>)
    requires DistinctKeys(pairs)
    ensures forall i :: 0 <= i < |pairs| ==> DictOf(pairs)[pairs[i].0] == pairs[i].1
  {
  }

  /** Every entry of the dictionary is one of the pairs, namely the last
      pair with that key. */
  lemma DictOfEntry<K, V>(pairs: seq<(K, V)>, k: K) returns (i: int)
    requires k in KeysOf(pairs)
    ensures 0 <= i < |pairs| && pairs[i] == (k, DictOf(pairs)[k]) && LastOccurrence(pairs, i)
  {
    var i0 :| 0 <= i0 < |pairs| && pairs[i0].0 == k;
    i := LastOccurrenceExists(pairs, i0);
  }
}
