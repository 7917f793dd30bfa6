# Circular singly-linked list

This project models `List<T>` from `mod.ts`. `List<T>` is a circular singly-linked list. It stores only a cursor, which is the tail node, and a size counter. The head is never stored: it is always `cursor.next`. `push` inserts a value at the head and leaves the tail where it is. `pop` removes the head, and `peek` reads it. `clear` empties the list. The protected `rotate` advances the cursor one step. The constructor pushes and then rotates each entry, so a list reads back in the order its entries were given. The iterator walks the ring from the head and stops when it comes back to the head. `keys`, `values`, `entities` and `forEach` are built on top of the iterator.

The model is imperative, like the source:

- `CircularList.Node` is a heap object with mutable `value` and `next`.
- `CircularList.List` keeps the source's two private fields, `size` and `cursor`. It also keeps three ghost fields. `nodes` holds the ring's nodes read from the head, `contents` holds their values, and `Repr` holds the objects the list owns (itself and its nodes). `List.Valid()` ties the real fields to the ghost ones through the predicate `Ring`. That predicate says:
  - every node links to the next one;
  - the last node links back to the first;
  - no node occurs twice;
  - the values are `contents`, in order.
- `size` equals the number of nodes. The cursor is absent exactly when the list is empty. Otherwise the cursor is the last node.
- The constructor's optional `entries` argument is an `Option<seq<T>>`. An absent argument and an empty sequence both give an empty list.
- `CircularList.ListIterator` keeps the iterator's own state: `first`, `current` and `iterated`. It also has a ghost count of the values yielded so far.
- Every traversal (`Values`, `Keys`, `Entities`, `ForEach`) drains a fresh iterator with a loop. It returns the sequence the walk yields.
- `ListClient` holds callers that use only the contracts. These are the push-then-pop round trip and scenarios that exercise the behaviours `mod_test.ts` checks. `EntitiesScenario` and `PushOrderScenario` use that file's data (three pushes of `v1`, `v2`, `v3`). The other scenarios use smaller lists than its ten `VALUES`.

The iterator's `Valid()` reads the ring's nodes. `Push` and `Pop` declare `modifies Repr`, which includes those nodes. So after either call an open iterator can no longer be shown valid, and it cannot be advanced. This is how the model rules out mutation during a traversal. `Rotate` and `Clear` modify only the list object. An open walk therefore stays valid across them and keeps yielding the values it started with. The source behaves the same way: its walk keeps its own `first` and `current` (mod.ts:91-108).

The test suite names the case `Entries` (mod_test.ts:129), but the method is `entities` (mod.ts:124), and the model follows the code.

## Model

| member | source | states |
|---|---|---|
| CircularList.Node.constructor | mod.ts:20-21 | a new node holds the pushed value and is not yet linked (`next` is null until `push` wires it in) |
| CircularList.FollowAlongRing | mod.ts:1 | in a valid ring, following `next` k times from the i-th node reaches the (i+k)-th node, for i + k below the size |
| CircularList.RingClosesAfterSize | mod.ts:91-108 | from the tail, exactly `|nodes|` steps of `next` come back to the tail, and no shorter positive number of steps does; so a walk that stops on returning to its start visits exactly `size` nodes |
| CircularList.RotatedBySplits | mod.ts:68-74 | k rotations (k up to the length) turn the values `s` into `s[k..] + s[..k]` |
| CircularList.RotationCycles | mod.ts:68-74 | one rotation keeps the length and the multiset of values; rotating `size` times restores the original order |
| CircularList.PushThenRotateAppends | mod.ts:9-12 | pushing `v` and then rotating turns the values `s` into `s + [v]`, which is why construction keeps the entries' order |
| CircularList.PushThenRotateExtends | mod.ts:9-12 | once the first `i` entries are in place, pushing and rotating entry `i` puts the first `i + 1` entries in place |
| CircularList.List.CursorClosesRing | mod.ts:45 | in a valid non-empty list the head is `cursor.next`, the cursor holds the last value, and the cursor lies on a cycle of exactly `size` distinct nodes |
| CircularList.List.constructor | mod.ts:7-14 | the list built from entries reads back exactly those entries in order; with no entries it is empty; the result is valid, so its size is the number of entries |
| CircularList.List.Push | mod.ts:16-33 | values become `[v] + old values`; size grows by one; on a non-empty list the cursor node is unchanged; the new head is a fresh node and the other nodes keep their order; the ring invariant is kept |
| CircularList.List.Pop | mod.ts:35-57 | on an empty list it returns `None` and changes nothing; otherwise it returns the old head value, and values lose exactly their first element, size drops by one, and the cursor stays unless the list had one element; the ring invariant is kept |
| CircularList.List.Peek | mod.ts:59-61 | returns `None` on an empty list, otherwise the first value; it changes nothing |
| CircularList.List.Clear | mod.ts:63-66 | afterwards size is 0, the cursor is absent and there are no values, whatever the prior state |
| CircularList.List.Rotate | mod.ts:68-74 | values `[x] + rest` become `rest + [x]`, and an empty list is unchanged; size is unchanged and no node is touched |
| CircularList.List.Size | mod.ts:76-78 | the size is the number of values, and it is 0 exactly when the cursor is absent |
| CircularList.List.Iterator | mod.ts:80-93 | returns a fresh, valid walk over the current ring, positioned at the head with nothing yielded yet |
| CircularList.List.Values | mod.ts:120-122 | draining a fresh iterator yields exactly the list's values, from the head, in ring order |
| CircularList.List.Keys | mod.ts:116-118 | yields the same sequence as `values` |
| CircularList.List.Entities | mod.ts:124-135 | yields one pair `(v, v)` per value `v`, in the same order as `values` |
| CircularList.List.ForEach | mod.ts:137-144 | calls the callback once per value in ring order, with the value as both value and key |
| CircularList.ListIterator.Exhausted | mod.ts:82-88 | the walk over an empty list is finished from the start |
| CircularList.ListIterator.Start | mod.ts:91-93 | a walk over a non-empty ring starts at its head, not yet finished |
| CircularList.ListIterator.Next | mod.ts:98-112 | yields the value at the current position and advances one node; once it has come back to `first`, every later call reports the end; the ring is not changed |
| ListClient.PushThenPop | mod_test.ts:40-48 | `pop` right after `push(v)` returns `v` and restores the previous values and size |

## Left out

- The JavaScript iterator protocol is not modelled. This covers `[Symbol.iterator]() { return this }`, the `{ value, done }` result objects, and the `[undefined, undefined]` pair that `entities` returns with `done: true`. A walk is `ListIterator.Next` returning `Option<T>`, and a traversal is the sequence it yields.
- On an empty list, the source's iterator is a separate object that is always done. The model uses one iterator class for both cases; its `Exhausted` constructor gives the always-done walk.
- CircularList.List.ForEach: the callback is a pure function, so instead of side effects the method returns what the callback computed on each call. `thisArg`, the `call` dispatch and the third (`map`) argument are not modelled.
- `push` and `rotate` return `this` for chaining; the model's methods return nothing.
- `rotate` is protected in the source. Dafny has no protected members, so `Rotate` is an ordinary method.
- `size` is a JavaScript number in the source. The model uses a natural number with no upper bound.
- Mutating the list while a traversal is open is left undefined by the source. The model forbids `push` and `pop` during a walk: both declare `modifies Repr`, so afterwards an open walk can no longer be advanced. `rotate` and `clear` leave an open walk valid.
- `pop` and `peek` return `T | undefined` in the source (mod.ts:35, mod.ts:59). When `T` admits `undefined`, the source cannot tell an empty list from a stored `undefined`. The model returns `Option<T>`, which always tells them apart.
- Freeing popped or cleared nodes is not modelled.
- The test harness (`mod_test.ts`) is not modelled as code. Its assertions appear as `ListClient.PushThenPop` and the `ListClient` scenario methods.
- The packaging script (`scripts/build_npm.ts`) is not part of this model.
