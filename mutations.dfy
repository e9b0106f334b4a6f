/**
 * The value-level meaning of a JavaScript `Map` as `PoweredMap` uses it: a
 * finite map from keys to values together with the order in which the keys
 * were first inserted (the order in which `Map.prototype.values` yields them).
 * `set` and `delete` are the two mutations; a run of mutations is replayed
 * left to right.
 */
module Mutations {
  import opened Wrappers

  /** One call of `set(key, value)` or `delete(key)`. */
  datatype Mutation<K, V> = Put(key: K, value: V) | Remove(key: K)

  /** No key occurs twice. */
  predicate Distinct<K(==)>(s: seq<K>)
  {
    forall i, j :: 0 <= i < j < |s| ==> s[i] != s[j]
  }

  /** `order` lists exactly the keys of `m`, each once: the invariant of a JS `Map`. */
  predicate InSync<K(==), V>(m: map<K, V>, order: seq<K>)
  {
    Distinct(order) && (forall k :: k in order ==> k in m) && (forall k :: k in m ==> k in order)
  }

  /** The effect of one mutation on the key/value entries. */
  function Apply<K(==), V>(m: map<K, V>, mu: Mutation<K, V>): (r: map<K, V>)
    ensures mu.Put? ==> mu.key in r && r[mu.key] == mu.value
    ensures mu.Remove? ==> mu.key !in r
    ensures r.Keys == if mu.Put? then m.Keys + {mu.key} else m.Keys - {mu.key}
    ensures forall k :: k != mu.key && k in m ==> r[k] == m[k]
  {
    match mu
    case Put(k, v) => m[k := v]
    case Remove(k) => m - {k}
  }

  /** `s` with every occurrence of `k` taken out, the rest in their old order. */
  function Without<K(==)>(s: seq<K>, k: K): (r: seq<K>)
    ensures k !in r
    ensures forall x :: x in r ==> x in s
    ensures forall x :: x in s && x != k ==> x in r
    ensures Distinct(s) ==> Distinct(r)
    ensures k !in s ==> r == s
    ensures |r| <= |s|
  {
    if s == [] then []
    else
      DistinctTail(s);
      if s[0] == k then Without(s[1..], k) else [s[0]] + Without(s[1..], k)
  }

  /** The tail of a key list without repeats has none, and lacks the head. */
  lemma DistinctTail<K>(s: seq<K>)
    requires s != []
    ensures Distinct(s) ==> Distinct(s[1..]) && s[0] !in s[1..]
  {
    if Distinct(s) {
      forall a, b | 0 <= a < b < |s[1..]| ensures s[1..][a] != s[1..][b] {
        assert s[a + 1] != s[b + 1];
      }
      forall j | 0 <= j < |s[1..]| ensures s[1..][j] != s[0] {
        assert s[j + 1] != s[0];
      }
    }
  }

  /** In a key list without repeats, deleting `k` cuts out exactly its position. */
  lemma {:induction false} WithoutAt<K>(s: seq<K>, k: K, i: nat)
    requires Distinct(s) && i < |s| && s[i] == k
    ensures Without(s, k) == s[..i] + s[i + 1..]
  {
    DistinctTail(s);
    if i == 0 {
      assert Without(s, k) == Without(s[1..], k);
      assert s[..0] + s[1..] == s[1..];
    } else {
      assert s[0] != k by { assert s[0] != s[i]; }
      var tail := s[1..];
      WithoutAt(tail, k, i - 1);
      assert Without(s, k) == [s[0]] + Without(tail, k);
      assert tail[..i - 1] == s[1..i];
      assert tail[i..] == s[i + 1..];
      assert [s[0]] + s[1..i] == s[..i];
    }
  }

  /** The effect of one mutation on the insertion order of the keys. */
  function ApplyOrder<K(==), V>(order: seq<K>, mu: Mutation<K, V>): (r: seq<K>)
    ensures mu.Put? && mu.key in order ==> r == order
    ensures mu.Put? && mu.key !in order ==> r == order + [mu.key]
    ensures mu.Remove? ==> r == Without(order, mu.key)
  {
    match mu
    case Put(k, _) => if k in order then order else order + [k]
    case Remove(k) => Without(order, k)
  }

  /** Both parts of a mutation keep the key order in step with the entries. */
  lemma ApplyInSync<K, V>(m: map<K, V>, order: seq<K>, mu: Mutation<K, V>)
    requires InSync(m, order)
    ensures InSync(Apply(m, mu), ApplyOrder(order, mu))
  {
    var r := ApplyOrder(order, mu);
    if mu.Put? && mu.key !in order {
      forall i, j | 0 <= i < j < |r| ensures r[i] != r[j] {
        if j < |order| {
          assert order[i] != order[j];
        } else {
          assert r[i] == order[i];
        }
      }
    }
  }

  /** Entries after a run of mutations, applied left to right. */
  function Replay<K(==), V>(m: map<K, V>, mus: seq<Mutation<K, V>>): map<K, V>
    decreases |mus|
  {
    if mus == [] then m else Apply(Replay(m, mus[..|mus| - 1]), mus[|mus| - 1])
  }

  /** Key order after a run of mutations, applied left to right. */
  function ReplayOrder<K(==), V>(order: seq<K>, mus: seq<Mutation<K, V>>): seq<K>
    decreases |mus|
  {
    if mus == [] then order else ApplyOrder(ReplayOrder(order, mus[..|mus| - 1]), mus[|mus| - 1])
  }

  /** Every run of mutations keeps the key order in step with the entries. */
  lemma {:induction false} ReplayInSync<K, V>(m: map<K, V>, order: seq<K>, mus: seq<Mutation<K, V>>)
    requires InSync(m, order)
    ensures InSync(Replay(m, mus), ReplayOrder(order, mus))
    decreases |mus|
  {
    if mus != [] {
      var prefix := mus[..|mus| - 1];
      ReplayInSync(m, order, prefix);
      ApplyInSync(Replay(m, prefix), ReplayOrder(order, prefix), mus[|mus| - 1]);
    }
  }

  /** The last mutation of the run that names key `k`, if any. */
  function LastWrite<K(==), V>(mus: seq<Mutation<K, V>>, k: K): (r: Option<Mutation<K, V>>)
    ensures r.Some? ==> r.value.key == k && r.value in mus
    ensures r.None? ==> forall i :: 0 <= i < |mus| ==> mus[i].key != k
    decreases |mus|
  {
    if mus == [] then None
    else if mus[|mus| - 1].key == k then Some(mus[|mus| - 1])
    else LastWrite(mus[..|mus| - 1], k)
  }

  /** `LastWrite` picks the mutation at position `i` when no later one names its key. */
  lemma {:induction false} LastWriteAt<K, V>(mus: seq<Mutation<K, V>>, i: nat)
    requires i < |mus|
    requires forall j :: i < j < |mus| ==> mus[j].key != mus[i].key
    ensures LastWrite(mus, mus[i].key) == Some(mus[i])
    decreases |mus|
  {
    if i < |mus| - 1 {
      var prefix := mus[..|mus| - 1];
      assert prefix[i] == mus[i];
      LastWriteAt(prefix, i);
    }
  }

  /**
   * No lost updates: after a run of mutations a key holds the value of the
   * last `set` naming it, is absent when the last mutation naming it was a
   * `delete`, and is as it was when no mutation names it.
   */
  lemma {:induction false} ReplayLookup<K, V>(m: map<K, V>, mus: seq<Mutation<K, V>>, k: K)
    ensures match LastWrite(mus, k)
            case None => (k in Replay(m, mus) <==> k in m) && (k in m ==> Replay(m, mus)[k] == m[k])
            case Some(Put(_, v)) => k in Replay(m, mus) && Replay(m, mus)[k] == v
            case Some(Remove(_)) => k !in Replay(m, mus)
    decreases |mus|
  {
    if mus != [] && mus[|mus| - 1].key != k {
      ReplayLookup(m, mus[..|mus| - 1], k);
    }
  }

  /** The `set` calls that `new Map(entries)` performs, one per entry, in order. */
  function Puts<K, V>(entries: seq<(K, V)>): (r: seq<Mutation<K, V>>)
    ensures |r| == |entries|
    ensures forall i :: 0 <= i < |r| ==> r[i] == Put(entries[i].0, entries[i].1)
  {
    seq(|entries|, i requires 0 <= i < |entries| => Put(entries[i].0, entries[i].1))
  }

  /**
   * `new Map(entries)`: a key is present exactly when some entry carries it,
   * and it holds the value of the last such entry.
   */
  lemma FromEntriesLookup<K, V>(entries: seq<(K, V)>, k: K)
    ensures (forall i :: 0 <= i < |entries| ==> entries[i].0 != k) ==> k !in Replay(map[], Puts(entries))
    ensures forall i :: 0 <= i < |entries| && entries[i].0 == k &&
                        (forall j :: i < j < |entries| ==> entries[j].0 != k) ==>
                        k in Replay(map[], Puts(entries)) && Replay(map[], Puts(entries))[k] == entries[i].1
  {
    var mus := Puts(entries);
    ReplayLookup(map[], mus, k);
    forall i | 0 <= i < |entries| && entries[i].0 == k && (forall j :: i < j < |entries| ==> entries[j].0 != k)
      ensures k in Replay(map[], mus) && Replay(map[], mus)[k] == entries[i].1
    {
      LastWriteAt(mus, i);
    }
  }

  /** The keys of `entries`, in entry order, repeats included. */
  function Keys<K, V>(entries: seq<(K, V)>): (r: seq<K>)
    ensures |r| == |entries|
    ensures forall i :: 0 <= i < |r| ==> r[i] == entries[i].0
  {
    seq(|entries|, i requires 0 <= i < |entries| => entries[i].0)
  }

  /** The position of the first occurrence of `k` in `s`. */
  function IndexOf<K(==)>(s: seq<K>, k: K): (r: nat)
    requires k in s
    ensures r < |s| && s[r] == k
    ensures forall j :: 0 <= j < r ==> s[j] != k
  {
    if s[0] == k then 0 else 1 + IndexOf(s[1..], k)
  }

  /** Dropping the last element does not move a first occurrence that lies before it. */
  lemma IndexOfPrefix<K>(s: seq<K>, k: K)
    requires s != [] && k in s[..|s| - 1]
    ensures k in s && IndexOf(s, k) == IndexOf(s[..|s| - 1], k)
  {
    var front := s[..|s| - 1];
    var i := IndexOf(front, k);
    assert s[i] == k;
    forall t | 0 <= t < i ensures s[t] != k {
      assert s[t] == front[t];
    }
    var j := IndexOf(s, k);
    assert j <= i;
    assert j >= i;
  }

  /**
   * The key order of `new Map(entries)`: every key of the entries once, and
   * no other, listed in the order of the keys' first occurrences (a later
   * entry for a key already present overwrites its value but does not move it).
   */
  lemma {:induction false} FromEntriesOrder<K, V>(entries: seq<(K, V)>)
    ensures forall k :: k in ReplayOrder([], Puts(entries)) ==> k in Keys(entries)
    ensures forall k :: k in Keys(entries) ==> k in ReplayOrder([], Puts(entries))
    ensures Distinct(ReplayOrder([], Puts(entries)))
    ensures forall i, j :: 0 <= i < j < |ReplayOrder([], Puts(entries))| ==>
              ReplayOrder([], Puts(entries))[i] in Keys(entries) &&
              ReplayOrder([], Puts(entries))[j] in Keys(entries) &&
              IndexOf(Keys(entries), ReplayOrder([], Puts(entries))[i]) <
              IndexOf(Keys(entries), ReplayOrder([], Puts(entries))[j])
    decreases |entries|
  {
    var mus := Puts(entries);
    var r := ReplayOrder([], mus);
    var keys := Keys(entries);
    ReplayInSync(map[], [], mus);
    if entries != [] {
      var n := |entries|;
      var front := entries[..n - 1];
      assert Puts(front) == mus[..n - 1];
      assert Keys(front) == keys[..n - 1];
      FromEntriesOrder(front);
      var rp := ReplayOrder([], Puts(front));
      var last := entries[n - 1].0;
      assert r == ApplyOrder(rp, mus[n - 1]);
      forall k | k in rp ensures k in keys && IndexOf(keys, k) == IndexOf(keys[..n - 1], k) {
        IndexOfPrefix(keys, k);
      }
      if last in rp {
        assert r == rp;
      } else {
        assert r == rp + [last];
        assert last !in keys[..n - 1];
        assert IndexOf(keys, last) == n - 1;
        forall i, j | 0 <= i < j < |r|
          ensures r[i] in keys && r[j] in keys && IndexOf(keys, r[i]) < IndexOf(keys, r[j])
        {
          if j == |r| - 1 {
            assert r[i] == rp[i];
          } else {
            assert r[i] == rp[i] && r[j] == rp[j];
          }
        }
      }
      forall k | k in keys ensures k in r {
        var i :| 0 <= i < n && keys[i] == k;
        if i < n - 1 {
          assert keys[..n - 1][i] == k;
        }
      }
    }
  }

  /** A key list without repeats has as many elements as it has distinct keys. */
  lemma {:induction false} DistinctCardinality<K>(s: seq<K>)
    requires Distinct(s)
    ensures |set k | k in s| == |s|
  {
    if s != [] {
      DistinctTail(s);
      DistinctCardinality(s[1..]);
      assert (set k | k in s) == {s[0]} + (set k | k in s[1..]);
    }
  }

  /** A key order in step with a map is as long as the map is large. */
  lemma InSyncSize<K, V>(m: map<K, V>, order: seq<K>)
    requires InSync(m, order)
    ensures |order| == |m|
  {
    DistinctCardinality(order);
    assert (set k | k in order) == m.Keys;
  }
}
