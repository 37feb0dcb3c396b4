/**
 * Maps kept as sequences of key/value pairs in iteration order: the entry set of a
 * java.util.Map, and the LinkedHashMap that msgpack's ValueFactory.MapBuilder fills.
 */
module AssocList {
  import opened Wrappers

  predicate HasKey<K(==, !new), V>(m: seq<(K, V)>, k: K) {
    exists i | 0 <= i < |m| :: m[i].0 == k
  }

  /** Map.get: the value of the first entry with key k. */
  function Lookup<K(==, !new), V>(m: seq<(K, V)>, k: K): (r: Option<V>)
    ensures r.Some? <==> HasKey(m, k)
  {
    if m == [] then None
    else if m[0].0 == k then Some(m[0].1)
    else Lookup(m[1..], k)
  }

  /** Every key occurs once, as in any java.util.Map. */
  predicate DistinctKeys<K(==, !new), V>(m: seq<(K, V)>) {
    forall i, j | 0 <= i < j < |m| :: m[i].0 != m[j].0
  }

  /** Map.put on an insertion-ordered map: replace the value in place, or append a new entry. */
  function Put<K(==, !new), V>(m: seq<(K, V)>, k: K, v: V): (r: seq<(K, V)>)
    ensures Lookup(r, k) == Some(v)
    ensures forall k' | k' != k :: Lookup(r, k') == Lookup(m, k')
    ensures !HasKey(m, k) ==> r == m + [(k, v)]
    ensures HasKey(m, k) ==> |r| == |m|
  {
    if m == [] then [(k, v)]
    else if m[0].0 == k then [(k, v)] + m[1..]
    else [m[0]] + Put(m[1..], k, v)
  }

  /** A put keeps the keys distinct. */
  lemma {:induction false} PutDistinct<K(!new), V>(m: seq<(K, V)>, k: K, v: V)
    requires DistinctKeys(m)
    ensures DistinctKeys(Put(m, k, v))
  {
    if m == [] {
    } else if m[0].0 == k {
      assert !HasKey(m[1..], k) by {
        forall i | 0 <= i < |m[1..]| ensures m[1..][i].0 != k {
          assert m[1..][i] == m[i + 1];
        }
      }
      ConsDistinct((k, v), m[1..]);
    } else {
      var rest := Put(m[1..], k, v);
      assert DistinctKeys(m[1..]);
      PutDistinct(m[1..], k, v);
      assert !HasKey(rest, m[0].0) by {
        forall i | 0 <= i < |rest| ensures rest[i].0 != m[0].0 {
          if rest[i].0 != k {
            assert Lookup(rest, rest[i].0).Some?;
            var j :| 0 <= j < |m[1..]| && m[1..][j].0 == rest[i].0;
            assert m[1..][j] == m[j + 1];
          }
        }
      }
      ConsDistinct(m[0], rest);
    }
  }

  /** A pair whose key the distinct-keyed rest lacks can go in front. */
  lemma ConsDistinct<K(!new), V>(p: (K, V), rest: seq<(K, V)>)
    requires DistinctKeys(rest) && !HasKey(rest, p.0)
    ensures DistinctKeys([p] + rest)
  {
    var r := [p] + rest;
    forall i, j | 0 <= i < j < |r| ensures r[i].0 != r[j].0 {
      assert r[j] == rest[j - 1];
      if i > 0 {
        assert r[i] == rest[i - 1];
      }
    }
  }

  /** Map.remove: drop the entries with key k. */
  function Remove<K(==, !new), V>(m: seq<(K, V)>, k: K): (r: seq<(K, V)>)
    ensures Lookup(r, k) == None
    ensures forall k' | k' != k :: Lookup(r, k') == Lookup(m, k')
    ensures |r| <= |m|
  {
    if m == [] then []
    else if m[0].0 == k then Remove(m[1..], k)
    else [m[0]] + Remove(m[1..], k)
  }

  /** Every entry after a put was there before, or is the one put. */
  lemma {:induction false} PutEntries<K(!new), V>(m: seq<(K, V)>, k: K, v: V)
    ensures forall i | 0 <= i < |Put(m, k, v)| :: Put(m, k, v)[i] in m || Put(m, k, v)[i] == (k, v)
  {
    if m != [] && m[0].0 != k {
      PutEntries(m[1..], k, v);
      var r := Put(m, k, v);
      forall i | 0 <= i < |r| ensures r[i] in m || r[i] == (k, v) {
        if i > 0 {
          assert r[i] == Put(m[1..], k, v)[i - 1];
        }
      }
    }
  }

  /** m after putting every pair of ps, in order: Map.putAll, or a forEach of puts. */
  function PutAll<K(==, !new), V>(m: seq<(K, V)>, ps: seq<(K, V)>): (r: seq<(K, V)>)
    ensures DistinctKeys(m) ==> DistinctKeys(r)
    ensures |r| <= |m| + |ps|
    ensures forall i | 0 <= i < |r| :: r[i] in m || r[i] in ps
  {
    if ps == [] then m
    else
      var prefix := PutAll(m, ps[..|ps| - 1]);
      assert forall i | 0 <= i < |prefix| :: prefix[i] in m || prefix[i] in ps by {
        forall i | 0 <= i < |prefix| ensures prefix[i] in m || prefix[i] in ps {
          if prefix[i] !in m {
            var j :| 0 <= j < |ps| - 1 && ps[..|ps| - 1][j] == prefix[i];
            assert ps[j] == prefix[i];
          }
        }
      }
      PutEntries(prefix, ps[|ps| - 1].0, ps[|ps| - 1].1);
      assert DistinctKeys(m) ==> DistinctKeys(Put(prefix, ps[|ps| - 1].0, ps[|ps| - 1].1)) by {
        if DistinctKeys(m) {
          PutDistinct(prefix, ps[|ps| - 1].0, ps[|ps| - 1].1);
        }
      }
      Put(prefix, ps[|ps| - 1].0, ps[|ps| - 1].1)
  }

  /** Putting one more pair after ps is one more put. */
  lemma PutAllStep<K(!new), V>(m: seq<(K, V)>, ps: seq<(K, V)>, n: nat)
    requires n < |ps|
    ensures PutAll(m, ps[..n + 1]) == Put(PutAll(m, ps[..n]), ps[n].0, ps[n].1)
  {
    assert ps[..n + 1][..n] == ps[..n];
  }

  /** The map a builder holds after putting every pair of ps in order. */
  function Build<K(==, !new), V>(ps: seq<(K, V)>): (r: seq<(K, V)>)
    ensures DistinctKeys(r)
    ensures |r| <= |ps|
  {
    PutAll([], ps)
  }

  /** Building one more pair is one more put. */
  lemma BuildStep<K(!new), V>(ps: seq<(K, V)>)
    requires ps != []
    ensures Build(ps) == Put(Build(ps[..|ps| - 1]), ps[|ps| - 1].0, ps[|ps| - 1].1)
  {
  }

  /** The value of the last pair with key k: what putting ps in order leaves for k. */
  function LastValue<K(==, !new), V>(ps: seq<(K, V)>, k: K): Option<V> {
    if ps == [] then None
    else if ps[|ps| - 1].0 == k then Some(ps[|ps| - 1].1)
    else LastValue(ps[..|ps| - 1], k)
  }

  /** A builder holds, for every key, the value of the last pair put with it. */
  lemma {:induction false} BuildIsLastValue<K(!new), V>(ps: seq<(K, V)>, k: K)
    ensures Lookup(Build(ps), k) == LastValue(ps, k)
  {
    if ps != [] {
      BuildStep(ps);
      BuildIsLastValue(ps[..|ps| - 1], k);
    }
  }

  /** The last value for the key of pair i is that of a pair at or after i, and no later pair has the key. */
  lemma {:induction false} LastValueAt<K(!new), V>(ps: seq<(K, V)>, i: nat)
    requires i < |ps|
    ensures exists j | i <= j < |ps| ::
      && ps[j].0 == ps[i].0 && LastValue(ps, ps[i].0) == Some(ps[j].1)
      && forall l | j < l < |ps| :: ps[l].0 != ps[i].0
  {
    var n := |ps| - 1;
    var k := ps[i].0;
    var prefix := ps[..n];
    if ps[n].0 != k {
      assert prefix[i] == ps[i];
      LastValueAt(prefix, i);
      var j :| i <= j < n && prefix[j].0 == k && LastValue(prefix, k) == Some(prefix[j].1)
        && forall l | j < l < n :: prefix[l].0 != k;
      assert prefix[j] == ps[j];
      forall l | j < l < |ps| ensures ps[l].0 != k {
        if l < n {
          assert prefix[l] == ps[l];
        }
      }
    }
  }

  /** Putting pairs whose keys are already distinct builds exactly those pairs, in order. */
  lemma {:induction false} BuildDistinct<K(!new), V>(ps: seq<(K, V)>)
    requires DistinctKeys(ps)
    ensures Build(ps) == ps
  {
    if ps != [] {
      var n := |ps| - 1;
      var prefix := ps[..n];
      assert DistinctKeys(prefix);
      BuildDistinct(prefix);
      assert !HasKey(prefix, ps[n].0) by {
        forall i | 0 <= i < n ensures prefix[i].0 != ps[n].0 {
          assert prefix[i] == ps[i];
        }
      }
      assert prefix + [ps[n]] == ps;
    }
  }
}
