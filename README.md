# PoweredMap, modelled in Dafny

`PoweredMap` (`poweredmap.js`) is a key/value map around a private
JavaScript `Map`. It also holds one optional update callback. Both mutations
(`set` and `delete`) first write the map, then call the callback, if one is
installed, with the updated map. The reads (`get`, `has`, `values`) have no
side effects. `setUpdateCallback` replaces the listener.

The project has three files:

- `wrappers.dfy`: `Option`. It stands for JavaScript's `undefined`: a missing map entry, or no callback.
- `mutations.dfy` (module `Mutations`): what the private `Map` means as a value.
  - The entries are a `map<K, V>`. The keys also have an insertion order, a `seq<K>`; that is the order `values()` yields them in.
  - `Apply` and `ApplyOrder` give the effect of one `set` or `delete`. `Replay` and `ReplayOrder` give the effect of a run of them, left to right.
  - `InSync` is the invariant linking the two parts: the order lists every key exactly once.
  - `LastWrite` is an independent reference definition: the last mutation of a run that names a given key. `ReplayLookup` proves `Replay` agrees with it.
- `powered_map.dfy` (module `PoweredMaps`): the class `PoweredMap`.
  - The fields are `contents`, `order` and `updateCallback`, plus a ghost `log` of every callback call.
  - Each log entry records which callback was called and the map it was handed: its entries and the insertion order of its keys.
  - Each method is proved against the functions of `Mutations`.
  - `Notifications` and `NotificationsExact` describe the calls that a run of mutations makes.
  - `RunAll` is a caller that performs a run of `set`/`delete` calls on one `PoweredMap`. It proves that the class really produces what `Replay`, `ReplayOrder` and `Notifications` describe.
  - `ClientScenario` and `OrderScenario` are callers written against the contracts alone. They show that writes read back, that only the current callback is notified, and how the key order evolves.

A callback is identified by a `CallbackId` (a natural number). The model records
when the callback is called and with what, but not what it does.

The model covers `poweredmap.js` only. `values()` there returns the `Map`'s
live iterator. The model follows its ordering (insertion order) and returns the
values as a sequence taken at the time of the call.

## Model

| member | source | states |
|---|---|---|
| `PoweredMaps.PoweredMap.constructor` | poweredmap.js:5-8 | The map is `new Map(initValue)`: a `set` per entry, in order, starting from empty. The callback is the one passed in, possibly none. The log starts empty, so construction notifies nobody. |
| `PoweredMaps.PoweredMap.Get` | poweredmap.js:10-12 | Returns `Some(v)` exactly when the key is stored, and `v` is its stored value. A missing key gives `None`. |
| `PoweredMaps.PoweredMap.Values` | poweredmap.js:14-16 | Returns one value per stored key, as many as the map has entries. The i-th value is the one stored under the i-th key in insertion order. |
| `PoweredMaps.PoweredMap.Set` | poweredmap.js:18-23 | The entries become `Apply(old, Put(key, value))`. A new key goes at the end of the key order; an existing key keeps its place. The callback is unchanged. The log gains exactly one entry if a callback is installed (that callback, with the written entries and key order) and none otherwise. The key-order invariant is kept. |
| `PoweredMaps.PoweredMap.SetUpdateCallback` | poweredmap.js:25-27 | Only the callback changes, to the given one (or to none). Entries, key order and log are untouched. |
| `PoweredMaps.PoweredMap.Has` | poweredmap.js:29-31 | True exactly when the key is stored, and so exactly when it appears in the key order. |
| `PoweredMaps.PoweredMap.Delete` | poweredmap.js:33-38 | The entries become `Apply(old, Remove(key))`, and the key leaves the key order. Deleting a missing key leaves entries and order as they were. The callback still fires exactly once if installed, with the resulting entries and key order, and not at all otherwise. The invariant is kept. |
| `PoweredMaps.NotificationsExact` | poweredmap.js:18-38 | A run of n mutations under an installed callback calls it exactly n times. The i-th call carries the entries and key order as they are right after the i-th mutation. With no callback, a run calls nothing. |
| `Mutations.Apply` | poweredmap.js:18-34 | After `Put(k, v)` the key holds `v`; after `Remove(k)` the key is absent. The key set becomes the old keys plus `k`, or minus `k`. Every other key keeps its value. |
| `Mutations.Without` | poweredmap.js:33-34 | Removing a key from the order leaves it absent and keeps every other key. It keeps the order free of repeats, never lengthens it, and is the identity when the key is absent. |
| `Mutations.WithoutAt` | poweredmap.js:33-34 | In an order without repeats, removing the key at position i cuts out exactly that position. The other keys keep their relative order. |
| `Mutations.ApplyInSync` | poweredmap.js:18-38 | One `set` or `delete` keeps the key order listing exactly the stored keys, each once. |
| `Mutations.ReplayInSync` | poweredmap.js:5-38 | Any run of mutations keeps that invariant. |
| `Mutations.LastWrite` | poweredmap.js:18-34 | The result is a mutation of the run that names the key. It is none only when no mutation of the run names the key. |
| `Mutations.ReplayLookup` | poweredmap.js:18-34 | No lost updates. After a run, a key holds the value of the last `set` naming it. It is absent if the last mutation naming it was a `delete`. It is as it was if no mutation names it. |
| `Mutations.FromEntriesLookup` | poweredmap.js:6 | In `new Map(entries)`, a key is absent when no entry carries it. Otherwise it holds the value of the last entry carrying it. |
| `Mutations.FromEntriesOrder` | poweredmap.js:6 | The key order of `new Map(entries)` lists every key of the entries once and no other key. Keys are in the order of their first occurrence: a later entry for a key does not move it. |
| `PoweredMaps.RunAll` | poweredmap.js:18-38 | A run of `set`/`delete` calls on one `PoweredMap` leaves the entries `Replay` describes and the key order `ReplayOrder` describes. The callback is unchanged and the invariant is kept. The log gains exactly the calls `Notifications` describes. |

## Left out

- `index.js` is not part of this model. It is the Express HTTP listener and the socket.io rebroadcast, with their logging: transport plumbing with no state of this core. Its line 20 logs an undefined `message`.
- What the callback does is not modelled: it is arbitrary foreign code. In the source it gets the live `Map` object, so it could read or change the map during the call. The model treats the callback as returning without touching the map. Each log entry is a copy of the entries and key order at the time of the call, not a shared reference to the map.
- `values()` returns a live iterator in the source. The model returns the values at the time of the call. Iterating while mutating is not modelled.
- `Map` key equality is SameValueZero (for example, `NaN` equals `NaN`). The model uses Dafny equality on `K`.
- JavaScript quirks are not modelled: storing `undefined` as a value, `options?.updateCallback` on a missing `options` (modelled as no callback), and a callback that is truthy but not a function (which would throw when called).
- Concurrency: the source runs on one thread, so calls are modelled as sequential.
