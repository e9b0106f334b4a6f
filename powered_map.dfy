/**
 * `PoweredMap`: a key/value store around a private JavaScript `Map` that
 * calls a single optional update callback, with the map, after every `set`
 * and every `delete`. The callback is foreign code; the model records only
 * that it is called and with what, in a ghost notification log.
 */
module PoweredMaps {
  import opened Wrappers
  import opened Mutations

  /** The identity of an installed update callback. */
  type CallbackId = nat

  /**
   * One call of the update callback: who was called, and the map it was
   * handed, as its entries and the insertion order of its keys.
   */
  datatype Notification<K, V> = Notification(callback: CallbackId, snapshot: map<K, V>, order: seq<K>)

  /** The calls one mutation makes: one to the installed callback, none without one. */
  function Notify<K, V>(callback: Option<CallbackId>, snapshot: map<K, V>, order: seq<K>)
    : (r: seq<Notification<K, V>>)
    ensures callback.None? ==> r == []
    ensures callback.Some? ==> r == [Notification(callback.value, snapshot, order)]
  {
    match callback
    case None => []
    case Some(c) => [Notification(c, snapshot, order)]
  }

  /** The calls a run of mutations makes while `callback` stays installed. */
  function Notifications<K(==), V>(callback: Option<CallbackId>, m: map<K, V>, order: seq<K>,
                                   mus: seq<Mutation<K, V>>): seq<Notification<K, V>>
    decreases |mus|
  {
    if mus == [] then []
    else Notifications(callback, m, order, mus[..|mus| - 1]) + Notify(callback, Replay(m, mus), ReplayOrder(order, mus))
  }

  /**
   * With a callback installed, a run of n mutations calls it exactly n times,
   * the i-th time with the map as it stands right after the i-th mutation,
   * entries and key order; with none installed, nothing is called.
   */
  lemma {:induction false} NotificationsExact<K, V>(callback: Option<CallbackId>, m: map<K, V>, order: seq<K>,
                                                    mus: seq<Mutation<K, V>>)
    ensures callback.None? ==> Notifications(callback, m, order, mus) == []
    ensures callback.Some? ==> |Notifications(callback, m, order, mus)| == |mus|
    ensures callback.Some? ==>
              forall i :: 0 <= i < |mus| ==>
                Notifications(callback, m, order, mus)[i] ==
                Notification(callback.value, Replay(m, mus[..i + 1]), ReplayOrder(order, mus[..i + 1]))
    decreases |mus|
  {
    if mus != [] {
      var prefix := mus[..|mus| - 1];
      NotificationsExact(callback, m, order, prefix);
      if callback.Some? {
        forall i | 0 <= i < |mus|
          ensures Notifications(callback, m, order, mus)[i] ==
                  Notification(callback.value, Replay(m, mus[..i + 1]), ReplayOrder(order, mus[..i + 1]))
        {
          if i < |prefix| {
            assert prefix[..i + 1] == mus[..i + 1];
          } else {
            assert mus[..i + 1] == mus;
          }
        }
      }
    }
  }

  class PoweredMap<K(==), V> {
    /** The entries of the private `Map`. */
    var contents: map<K, V>
    /** The keys of the private `Map` in insertion order. */
    var order: seq<K>
    /** The installed update callback, if any. */
    var updateCallback: Option<CallbackId>
    /** Every call of the update callback so far, oldest first. */
    ghost var log: seq<Notification<K, V>>

    ghost predicate Valid()
      reads this
    {
      InSync(contents, order)
    }

    /**
     * `new PoweredMap(initValue, options)`: the map is built from the entries
     * as `new Map(initValue)` builds it (an absent `initValue` is the empty
     * list), the callback is `options.updateCallback` (absent when `options`
     * or the field is), and no callback is called.
     */
    constructor(initValue: seq<(K, V)>, updateCallback: Option<CallbackId>)
      ensures Valid()
      ensures contents == Replay(map[], Puts(initValue))
      ensures order == ReplayOrder([], Puts(initValue))
      ensures this.updateCallback == updateCallback
      ensures log == []
    {
      ReplayInSync(map[], [], Puts(initValue));
      contents := Replay(map[], Puts(initValue));
      order := ReplayOrder([], Puts(initValue));
      this.updateCallback := updateCallback;
      log := [];
    }

    /** `get(key)`: the value stored under `key`, `None` for a missing key. */
    method Get(key: K) returns (r: Option<V>)
      ensures r.Some? <==> key in contents
      ensures r.Some? ==> r.value == contents[key]
    {
      r := if key in contents then Some(contents[key]) else None;
    }

    /** `has(key)`: whether `key` is stored. */
    method Has(key: K) returns (r: bool)
      requires Valid()
      ensures r <==> key in contents
      ensures r <==> key in order
    {
      r := key in contents;
    }

    /** `values()`: the stored values, one per key, in key insertion order. */
    method Values() returns (vs: seq<V>)
      requires Valid()
      ensures |vs| == |order| == |contents|
      ensures forall i :: 0 <= i < |vs| ==> order[i] in contents && vs[i] == contents[order[i]]
    {
      InSyncSize(contents, order);
      var m, o := contents, order;
      vs := seq(|o|, i requires 0 <= i < |o| && o[i] in m => m[o[i]]);
    }

    /**
     * `set(key, value)`: writes the entry, keeping the key's place when it is
     * already stored and appending it otherwise, then calls the installed
     * callback, if any, once with the written map.
     */
    method Set(key: K, value: V)
      requires Valid()
      modifies this
      ensures Valid()
      ensures contents == Apply(old(contents), Put(key, value))
      ensures order == ApplyOrder(old(order), Put(key, value))
      ensures updateCallback == old(updateCallback)
      ensures log == old(log) + Notify(updateCallback, contents, order)
    {
      ApplyInSync(contents, order, Put(key, value));
      if key !in contents {
        order := order + [key];
      }
      contents := contents[key := value];
      if updateCallback.Some? {
        log := log + [Notification(updateCallback.value, contents, order)];
      }
    }

    /** `setUpdateCallback(callback)`: replaces the callback; `None` uninstalls it. */
    method SetUpdateCallback(callback: Option<CallbackId>)
      modifies this
      ensures updateCallback == callback
      ensures contents == old(contents) && order == old(order) && log == old(log)
    {
      updateCallback := callback;
    }

    /**
     * `delete(key)`: removes the entry if there is one, then calls the
     * installed callback, if any, once with the resulting map; a missing key
     * leaves the map as it was but still calls the callback.
     */
    method Delete(key: K)
      requires Valid()
      modifies this
      ensures Valid()
      ensures contents == Apply(old(contents), Remove(key))
      ensures order == ApplyOrder<K, V>(old(order), Remove(key))
      ensures key !in old(contents) ==> contents == old(contents) && order == old(order)
      ensures updateCallback == old(updateCallback)
      ensures log == old(log) + Notify(updateCallback, contents, order)
    {
      ApplyInSync<K, V>(contents, order, Remove(key));
      order := Without(order, key);
      contents := contents - {key};
      if updateCallback.Some? {
        log := log + [Notification(updateCallback.value, contents, order)];
      }
    }
  }

  /**
   * A caller that performs a run of `set` and `delete` calls on one
   * `PoweredMap`: the entries, the key order and the callback calls it leaves
   * behind are exactly those the replay of the run describes.
   */
  method RunAll<K(==), V>(pm: PoweredMap<K, V>, mus: seq<Mutation<K, V>>)
    requires pm.Valid()
    modifies pm
    ensures pm.Valid()
    ensures pm.contents == Replay(old(pm.contents), mus)
    ensures pm.order == ReplayOrder(old(pm.order), mus)
    ensures pm.updateCallback == old(pm.updateCallback)
    ensures pm.log == old(pm.log) + Notifications(pm.updateCallback, old(pm.contents), old(pm.order), mus)
  {
    ghost var m0, o0, log0 := pm.contents, pm.order, pm.log;
    for i := 0 to |mus|
      invariant pm.Valid()
      invariant pm.contents == Replay(m0, mus[..i])
      invariant pm.order == ReplayOrder(o0, mus[..i])
      invariant pm.updateCallback == old(pm.updateCallback)
      invariant pm.log == log0 + Notifications(pm.updateCallback, m0, o0, mus[..i])
    {
      ghost var pre, post := mus[..i], mus[..i + 1];
      assert post[..|post| - 1] == pre;
      ghost var log1 := pm.log;
      if mus[i].Put? {
        pm.Set(mus[i].key, mus[i].value);
      } else {
        pm.Delete(mus[i].key);
      }
      assert Replay(m0, post) == Apply(Replay(m0, pre), mus[i]);
      assert ReplayOrder(o0, post) == ApplyOrder(ReplayOrder(o0, pre), mus[i]);
      assert pm.log == log1 + Notify(pm.updateCallback, pm.contents, pm.order);
      assert Notifications(pm.updateCallback, m0, o0, post) ==
             Notifications(pm.updateCallback, m0, o0, pre) +
             Notify(pm.updateCallback, Replay(m0, post), ReplayOrder(o0, post));
    }
    assert mus[..|mus|] == mus;
  }

  /**
   * A caller's view, from the contracts alone: writes are read back, a
   * missing key is reported missing, each mutation calls only the callback
   * installed at the time, and replacing the callback changes nothing else.
   */
  method ClientScenario(a: string, b: string, x: int, y: int)
    requires a != b
  {
    var pm := new PoweredMap<string, int>([], None);
    pm.Set(a, x);
    assert pm.log == [];
    var got := pm.Get(a);
    assert got == Some(x);
    pm.SetUpdateCallback(Some(1));
    pm.Set(b, y);
    ghost var afterSet, orderAfterSet := pm.contents, pm.order;
    assert afterSet == map[a := x, b := y];
    assert pm.log == [Notification(1, afterSet, orderAfterSet)];
    pm.SetUpdateCallback(Some(2));
    pm.Delete(b);
    ghost var afterDelete, orderAfterDelete := pm.contents, pm.order;
    assert afterDelete == map[a := x];
    var has := pm.Has(b);
    assert !has;
    ghost var twoCalls := [Notification(1, afterSet, orderAfterSet), Notification(2, afterDelete, orderAfterDelete)];
    assert pm.log == twoCalls;
    pm.Delete(b);
    assert pm.contents == afterDelete && pm.order == orderAfterDelete;
    assert pm.log == twoCalls + [Notification(2, afterDelete, orderAfterDelete)];
  }

  /** A caller's view of the key order: insertion order, a rewrite keeps a key's place. */
  method OrderScenario(a: string, b: string, x: int, y: int)
    requires a != b
  {
    var pm := new PoweredMap<string, int>([], None);
    assert pm.order == [];
    pm.Set(a, x);
    pm.Set(b, y);
    assert pm.order == [a, b];
    pm.Set(a, y);
    assert pm.order == [a, b];
    var vs := pm.Values();
    assert vs == [y, y];
    WithoutAt(pm.order, a, 0);
    pm.Delete(a);
    assert pm.order == [b];
  }
}
