# Array-buffer tracker

A Dafny model of the bookkeeping V8's heap keeps for the backing stores of
`JSArrayBuffer` objects. A backing store is memory allocated outside the
garbage-collected heap. Each page of the heap has a `LocalArrayBufferTracker`.
It maps every array buffer on that page (the `Key`, the object's address) to
its backing-store record (the `Value`, a `(pointer, length)` pair). The static
`ArrayBufferTracker` routes registration, unregistration, sweeping and
compaction passes to the tracker of the right page.

The model is functional. A tracker is an immutable `map<Key, Value>`. Every
operation returns the new tracker. The passes that release memory return
the multiset of records whose backing stores they free, instead of calling
the allocator. These are the page tracker's `FreeDead` and `Process`, and
the facade's `FreeDead` and `ProcessBuffers`. `MapValues.Values` counts a
map's values once per key. With it, each of these passes states
conservation: `Values(before) == Values(after) + freed`. So no record is
lost and none is freed twice.

The source is a header that mostly declares. Only the tracker's constructor
(which just stores the heap pointer), `IsEmpty` and `IsTracked` have bodies
there. The other operations are modelled from their names, types and
comments:

- The mark bit (`marked: Key -> bool`) is a parameter.
- So is the per-buffer callback of `Process` (`Key -> (CallbackResult, Key)`).
- So is the forwarding address used by `ProcessBuffers` (`Key -> Option<Key>`).
- So is the page lookup of the static facade (`pageOf: Key -> PageId`).

Where the header says nothing about a case, the model makes it a
precondition and does not invent behaviour:

- `Add` requires a key that is not yet tracked.
- `Remove` requires a key that is tracked.
- `Process` requires that no two surviving entries end up under the same key
  (`NoCollisions`).

Files:

- `options.dfy`: `Option`.
- `map_values.dfy`: the multiset of a map's values, and the lemmas showing it
  does not depend on visiting order.
- `local_tracker.dfy`: the per-page tracker.
- `array_buffer_tracker.dfy`: the static facade, over a heap modelled as a map
  from page to tracker. A page gets its tracker when its first buffer is
  registered.
- `scenarios.dfy`: two small scenarios whose end states the contracts determine.

`Process` fixes the set of keys to visit before it changes anything. It takes
every decision against the original map and builds the new map from those
decisions. So an entry moved by `kUpdateEntry` is never visited again. Its
outcome is described by the predicate `Rekeys`:

- A kept entry stays under its key.
- An updated entry moves to its new key with its record unchanged.
- Nothing else is in the result.

`RekeysUnique` shows that at most one map satisfies `Rekeys`. So the result
does not depend on the order in which the loop picks keys. The source's TODO
about replacing `std::map` with an unordered map relies on the same fact.

## Model

| member | source | states |
|---|---|---|
| LocalArrayBufferTracker.New | src/heap/array-buffer-tracker.h:60 | a freshly constructed tracker tracks no buffer |
| LocalArrayBufferTracker.IsTracked | src/heap/array-buffer-tracker.h:79-81 | a buffer is tracked exactly when it is a key of the tracking map |
| LocalArrayBufferTracker.IsEmpty | src/heap/array-buffer-tracker.h:77 | the tracker is empty exactly when no buffer is tracked |
| LocalArrayBufferTracker.Add | src/heap/array-buffer-tracker.h:63 | after adding, the key is tracked with the given record; every other key's lookup is unchanged; the record is added once to the tracked values |
| LocalArrayBufferTracker.Remove | src/heap/array-buffer-tracker.h:64 | returns the record stored for the key, which is then no longer tracked; every other key's lookup is unchanged; the record leaves the tracked values and is handed back rather than freed |
| LocalArrayBufferTracker.AddThenRemove | src/heap/array-buffer-tracker.h:63-64 | removing a key just added gives back the original tracker and the added record |
| LocalArrayBufferTracker.RemoveThenAdd | src/heap/array-buffer-tracker.h:63-64 | adding back the record just removed restores the tracker |
| LocalArrayBufferTracker.FreeDead | src/heap/array-buffer-tracker.h:66-67 | exactly the marked buffers stay tracked, with their records unaltered; the freed records are exactly those of the unmarked entries; every record is either still tracked or freed, once |
| LocalArrayBufferTracker.Process | src/heap/array-buffer-tracker.h:69-75 | kKeepEntry leaves an entry under its key; kUpdateEntry moves it to the new key with the same record; nothing else survives; the freed records are exactly those of the kRemoveEntry entries; every record is either still tracked or freed, once |
| LocalArrayBufferTracker.RekeysUnique | src/heap/array-buffer-tracker.h:84-86 | the outcome of a pass is determined by the per-entry decisions alone, whatever order the entries are visited in |
| LocalArrayBufferTracker.FreeDeadIsMarkingProcess | src/heap/array-buffer-tracker.h:58-75 | freeing dead buffers is the Process pass whose callback keeps marked and removes unmarked buffers: same survivors, same frees |
| ArrayBufferTracker.IsTracked | src/heap/array-buffer-tracker.h:46-47 | a buffer reported tracked has a record in some tracker; when every buffer sits in its own page's tracker, a record anywhere means it is reported tracked |
| ArrayBufferTracker.RegisterNew | src/heap/array-buffer-tracker.h:31-32 | the buffer becomes tracked with its record in its page's tracker, which is created if the page had none; other pages are unchanged; every other buffer keeps its tracked status, and on the buffer's page its record; buffers stay on their own pages |
| ArrayBufferTracker.Unregister | src/heap/array-buffer-tracker.h:31-33 | returns the buffer's record and stops tracking it without freeing; other pages are unchanged; every other buffer keeps its tracked status, and on the buffer's page its record; buffers stay on their own pages |
| ArrayBufferTracker.RegisterThenUnregister | src/heap/array-buffer-tracker.h:31-33 | registering then unregistering a buffer gives back its record unchanged and leaves every buffer's tracked status as before |
| ArrayBufferTracker.FreeDead | src/heap/array-buffer-tracker.h:38-40 | only the given page changes: its unmarked buffers are untracked and their records freed, its marked buffers keep their records; every record of the page is either still tracked or freed, once; a page without a tracker frees nothing |
| ArrayBufferTracker.ModeCallbackOutcome | src/heap/array-buffer-tracker.h:23-26 | a pass with the callback built from a mode moves forwarded buffers to their forwarding addresses; it keeps the others under kUpdateForwardedKeepOthers and frees them under kUpdateForwardedRemoveOthers |
| ArrayBufferTracker.ProcessTracker | src/heap/array-buffer-tracker.h:42-44 | processing one tracker in a mode gives the outcome that mode describes, and every record is either still tracked or freed, once |
| ArrayBufferTracker.ProcessBuffers | src/heap/array-buffer-tracker.h:42-44 | only the given page changes; under both modes, forwarded buffers' records are held in the given page's tracker under their forwarding addresses; other buffers are kept, or removed and freed, as the mode says; every record of the page is either still tracked or freed, once; a page without a tracker is left alone |
| ArrayBufferTracker.ModesDifferOnlyOnUnforwarded | src/heap/array-buffer-tracker.h:23-26 | the result under kUpdateForwardedKeepOthers is the result under kUpdateForwardedRemoveOthers plus the unforwarded buffers, whose keys it does not share; the latter mode frees exactly their records in addition |
| Scenarios.SweepOneOfTwo | src/heap/array-buffer-tracker.h:66-67 | with two tracked buffers of which only the second is marked, sweeping untracks the first, frees exactly its record, and keeps the second with its record |
| Scenarios.CompactOne | src/heap/array-buffer-tracker.h:69-75 | a buffer moved by kUpdateEntry is tracked only at its new address, with the same record, and nothing is freed |

## Left out

- Locking. The page mutex exists for concurrent GC workers; every operation here is a single sequential step.
- The tracker's `heap_` pointer. It has no role in the tracking map.
- Finding an object's page. It is the `pageOf` parameter.
- `FreeDeadInNewSpace`. It iterates over the new-space pages of the heap, whose structure is not part of this model.
- The destructor of `LocalArrayBufferTracker`. The header does not state what it does.
- The calls that actually free backing stores, and any accounting of freed bytes. Frees are the returned multiset of records.
- The iteration order of `std::map`. No operation depends on it, and `RekeysUnique` shows the outcome of a pass does not either.
- Null keys and null backing-store pointers. Keys and pointers are natural numbers, and no value is singled out.
- The width of buffer addresses. A `Value`'s pointer and length are both bounded to 64 bits, as a `void*` and a `size_t` are on a 64-bit target; the `Key`, the buffer's address, is an unbounded natural number, because no operation computes with it, it only compares keys.
- ArrayBufferTracker.IsTracked: takes the heap and the page lookup as explicit arguments, where the header's static function takes only the buffer. It reports a buffer found anywhere in the heap only while every buffer sits in its own page's tracker.
- ArrayBufferTracker.RegisterNew: requires the buffer to be untracked in its own page's tracker. This is "untracked anywhere" only while every buffer sits in its own page's tracker.
- LocalArrayBufferTracker.Process: a buffer moved by kUpdateEntry stays in the same tracker under its new key. The header does not say which tracker receives a re-keyed entry; keeping it in the same one is a modelling choice. Moving it into the tracker of another page is not modelled.
- ArrayBufferTracker.ProcessBuffers: does not claim that buffers stay in their own page's tracker afterwards. A forwarded buffer keeps its record in the tracker of the page it was moved from, under its new address. When that address lies on another page, `WellPlaced` no longer holds, the facade's `IsTracked` reports neither the old nor the new address as tracked, `Unregister` cannot be called for the buffer, and `RegisterNew` would accept it a second time on its new page.
- ArrayBufferTracker.Unregister: returns the record that the page tracker's `Remove` yields, where the header's static `Unregister` returns nothing. The extra result adds information and removes none.
