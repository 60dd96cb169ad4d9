/**
 * The per-page tracker of array-buffer backing stores: a finite map from the
 * identity of a JSArrayBuffer on one page to the record of the externally
 * allocated memory it owns.
 *
 * The tracker is immutable here: every operation returns the new tracker,
 * and the operations that release memory also return the multiset of
 * records whose backing stores they free, in place of calls to the
 * allocator.
 */
module LocalArrayBufferTracker {
  import opened Options
  import opened MapValues

  /** Identity of a JSArrayBuffer: its current address on the heap. */
  type Key = nat

  /** The values an unsigned `size_t` of 64 bits can hold. */
  newtype SizeT = x: int | 0 <= x < 0x1_0000_0000_0000_0000

  /** The values a 64-bit `void*` can hold. */
  newtype Pointer = x: int | 0 <= x < 0x1_0000_0000_0000_0000

  /** The `(pointer, length)` pair recorded for one backing store. */
  datatype Value = Value(backingStore: Pointer, byteLength: SizeT)

  /** What a `Process` pass does with one entry. */
  datatype CallbackResult = KeepEntry | UpdateEntry | RemoveEntry

  /**
   * The per-entry decision of a `Process` pass: the action for the buffer,
   * and the buffer's new identity, which only `UpdateEntry` looks at.
   */
  type Callback = Key -> (CallbackResult, Key)

  /** The tracking map of one page. */
  datatype Tracker = Tracker(buffers: map<Key, Value>)

  /** A freshly constructed tracker tracks nothing. */
  function New(): (t: Tracker)
    ensures IsEmpty(t)
  {
    Tracker(map[])
  }

  /** Lookup in the tracking map: the record stored for `key`, if any. */
  function Find(t: Tracker, key: Key): (r: Option<Value>)
    ensures r.Some? <==> key in t.buffers
    ensures r.Some? ==> r.value == t.buffers[key]
  {
    if key in t.buffers then Some(t.buffers[key]) else None
  }

  /** Whether a record exists for `key`: the lookup does not come back empty. */
  function IsTracked(t: Tracker, key: Key): (r: bool)
    ensures r <==> key in t.buffers
  {
    Find(t, key) != None
  }

  /** Whether the tracking map has no entries. */
  function IsEmpty(t: Tracker): (r: bool)
    ensures r <==> forall k :: !IsTracked(t, k)
  {
    if |t.buffers| == 0 then true
    else
      var k := AnyKey(t.buffers);
      assert IsTracked(t, k);
      false
  }

  /**
   * Starts tracking `value` for `key`. A buffer is tracked at most once,
   * so `key` must not be tracked yet.
   */
  function Add(t: Tracker, key: Key, value: Value): (r: Tracker)
    requires !IsTracked(t, key)
    ensures Find(r, key) == Some(value)
    ensures forall k :: k != key ==> Find(r, k) == Find(t, k)
    ensures Values(r.buffers) == Values(t.buffers) + multiset{value}
  {
    ValuesAdd(t.buffers, key, value);
    Tracker(t.buffers[key := value])
  }

  /**
   * Stops tracking `key` and hands its record back to the caller without
   * freeing it. `key` must be tracked.
   */
  function Remove(t: Tracker, key: Key): (r: (Tracker, Value))
    requires IsTracked(t, key)
    ensures Find(t, key) == Some(r.1)
    ensures !IsTracked(r.0, key)
    ensures forall k :: k != key ==> Find(r.0, k) == Find(t, k)
    ensures Values(t.buffers) == Values(r.0.buffers) + multiset{r.1}
  {
    ValuesRemove(t.buffers, key);
    (Tracker(t.buffers - {key}), t.buffers[key])
  }

  /** Removing what was just added gives back the tracker and the record. */
  lemma AddThenRemove(t: Tracker, key: Key, value: Value)
    requires !IsTracked(t, key)
    ensures Remove(Add(t, key, value), key) == (t, value)
  {
    assert t.buffers[key := value] - {key} == t.buffers;
  }

  /** Adding back what was just removed restores the tracker. */
  lemma RemoveThenAdd(t: Tracker, key: Key)
    requires IsTracked(t, key)
    ensures Add(Remove(t, key).0, key, Remove(t, key).1) == t
  {
    assert (t.buffers - {key})[key := t.buffers[key]] == t.buffers;
  }

  /** The entries of `m` whose buffers are not marked live. */
  function Dead(m: map<Key, Value>, marked: Key -> bool): map<Key, Value>
  {
    map k | k in m && !marked(k) :: m[k]
  }

  /** The entries of `m` for keys outside `todo`: those a pass has visited. */
  function Visited(m: map<Key, Value>, todo: set<Key>): map<Key, Value>
  {
    map k | k in m && k !in todo :: m[k]
  }

  /** Once nothing is left to visit, every entry has been visited. */
  lemma VisitedAll(m: map<Key, Value>)
    ensures Visited(m, {}) == m
  {
  }

  /** Visiting one more key accounts for exactly its record. */
  lemma VisitOne(m: map<Key, Value>, todo: set<Key>, k: Key)
    requires k in todo && k in m
    ensures Visited(m, todo - {k}) - {k} == Visited(m, todo)
    ensures Values(Visited(m, todo - {k})) == Values(Visited(m, todo)) + multiset{m[k]}
  {
    assert Visited(m, todo - {k}) - {k} == Visited(m, todo);
    ValuesRemove(Visited(m, todo - {k}), k);
  }

  /**
   * The state of a `FreeDead` pass over `m` with the keys `todo` still to
   * visit: `live` holds the unvisited entries and the marked ones unchanged,
   * and `freed` the records of the unmarked ones visited so far.
   */
  ghost predicate FreeDeadState(m: map<Key, Value>, marked: Key -> bool, todo: set<Key>,
                                live: map<Key, Value>, freed: multiset<Value>)
  {
    && todo <= m.Keys
    && (forall k :: k in live <==> k in m && (k in todo || marked(k)))
    && (forall k :: k in live ==> live[k] == m[k])
    && freed == Values(Dead(Visited(m, todo), marked))
    && Values(m) == Values(live) + freed
  }

  /** Visiting `k` keeps the state of the pass. */
  lemma FreeDeadVisit(m: map<Key, Value>, marked: Key -> bool, todo: set<Key>,
                      live: map<Key, Value>, freed: multiset<Value>, k: Key)
    requires FreeDeadState(m, marked, todo, live, freed) && k in todo
    ensures marked(k) ==> FreeDeadState(m, marked, todo - {k}, live, freed)
    ensures !marked(k) ==> FreeDeadState(m, marked, todo - {k}, live - {k}, freed + multiset{m[k]})
  {
    DeadStep(m, marked, todo, k);
    if !marked(k) {
      ValuesRemove(live, k);
      MoveOne(Values(m), Values(live), Values(live - {k}), freed, m[k]);
      assert forall j :: j in live - {k} <==> j in m && (j in todo - {k} || marked(j));
    }
  }

  /** Moving one occurrence from the kept part to the freed part keeps the total. */
  lemma MoveOne(total: multiset<Value>, kept: multiset<Value>, kept': multiset<Value>,
                freed: multiset<Value>, v: Value)
    requires total == kept + freed && kept == kept' + multiset{v}
    ensures total == kept' + (freed + multiset{v})
  {
  }

  /** Visiting `k` adds its record to the dead ones exactly when it is unmarked. */
  lemma DeadStep(m: map<Key, Value>, marked: Key -> bool, todo: set<Key>, k: Key)
    requires k in todo && k in m
    ensures !marked(k) ==>
      Values(Dead(Visited(m, todo - {k}), marked)) == Values(Dead(Visited(m, todo), marked)) + multiset{m[k]}
    ensures marked(k) ==> Dead(Visited(m, todo - {k}), marked) == Dead(Visited(m, todo), marked)
  {
    var after, before := Dead(Visited(m, todo - {k}), marked), Dead(Visited(m, todo), marked);
    if !marked(k) {
      assert after - {k} == before;
      ValuesRemove(after, k);
    } else {
      assert after == before;
    }
  }

  /**
   * Frees the backing stores of all buffers that are not marked, and drops
   * their entries; `marked` is the mark bit of the page's objects, which
   * must be valid when this runs. Entries of marked buffers stay as they
   * are, and every record is either still tracked or freed exactly once.
   */
  method FreeDead(t: Tracker, marked: Key -> bool) returns (r: Tracker, freed: multiset<Value>)
    ensures forall k :: IsTracked(r, k) <==> IsTracked(t, k) && marked(k)
    ensures forall k :: IsTracked(r, k) ==> Find(r, k) == Find(t, k)
    ensures freed == Values(Dead(t.buffers, marked))
    ensures Values(t.buffers) == Values(r.buffers) + freed
  {
    var m := t.buffers;
    var live := m;
    var todo := m.Keys;
    freed := multiset{};
    while todo != {}
      invariant FreeDeadState(m, marked, todo, live, freed)
      decreases todo
    {
      var k :| k in todo;
      FreeDeadVisit(m, marked, todo, live, freed, k);
      if !marked(k) {
        freed := freed + multiset{m[k]};
        live := live - {k};
      }
      todo := todo - {k};
    }
    VisitedAll(m);
    r := Tracker(live);
  }

  /** Whether `cb` leaves the entry under `k` in the map, kept or re-keyed. */
  predicate Survives(cb: Callback, k: Key)
  {
    cb(k).0 != RemoveEntry
  }

  /** The key under which the entry of `k` ends up when it survives. */
  function Target(cb: Callback, k: Key): Key
  {
    if cb(k).0 == UpdateEntry then cb(k).1 else k
  }

  /**
   * No two surviving entries of `m` end up under the same key: a buffer is
   * tracked at most once, also after a pass.
   */
  ghost predicate NoCollisions(m: map<Key, Value>, cb: Callback)
  {
    forall k1, k2 :: k1 in m && k2 in m && k1 != k2 && Survives(cb, k1) && Survives(cb, k2) ==>
      Target(cb, k1) != Target(cb, k2)
  }

  /**
   * `r` is what a `Process` pass with `cb` leaves of `m`: a kept entry stays
   * under its key, an updated entry moves to its new key with its record
   * unchanged, and nothing else is in `r`; in particular no record is ever
   * altered, since the callback supplies keys and never values.
   */
  ghost predicate Rekeys(m: map<Key, Value>, cb: Callback, r: map<Key, Value>)
  {
    && (forall k :: k in m && cb(k).0 == KeepEntry ==> k in r && r[k] == m[k])
    && (forall k :: k in m && cb(k).0 == UpdateEntry ==> cb(k).1 in r && r[cb(k).1] == m[k])
    && (forall k' :: k' in r ==>
          exists k :: k in m && Survives(cb, k) && Target(cb, k) == k' && r[k'] == m[k])
  }

  /** The entries of `m` that `cb` removes. */
  function Dropped(m: map<Key, Value>, cb: Callback): map<Key, Value>
  {
    map k | k in m && cb(k).0 == RemoveEntry :: m[k]
  }

  /** Visiting one more key adds its record to the dropped ones exactly when `cb` removes it. */
  lemma DroppedStep(m: map<Key, Value>, cb: Callback, todo: set<Key>, k: Key)
    requires k in todo && k in m
    ensures !Survives(cb, k) ==>
      Values(Dropped(Visited(m, todo - {k}), cb)) == Values(Dropped(Visited(m, todo), cb)) + multiset{m[k]}
    ensures Survives(cb, k) ==> Dropped(Visited(m, todo - {k}), cb) == Dropped(Visited(m, todo), cb)
  {
    var after, before := Dropped(Visited(m, todo - {k}), cb), Dropped(Visited(m, todo), cb);
    if !Survives(cb, k) {
      assert after - {k} == before;
      ValuesRemove(after, k);
    } else {
      assert after == before;
    }
  }

  /**
   * The state of a `Process` pass over `m` with the keys `todo` still to
   * visit: `next` is what the pass makes of the visited entries, and
   * `freed` holds the records of the visited entries it removed.
   */
  ghost predicate ProcessState(m: map<Key, Value>, cb: Callback, todo: set<Key>,
                               next: map<Key, Value>, freed: multiset<Value>)
  {
    && todo <= m.Keys
    && Rekeys(Visited(m, todo), cb, next)
    && freed == Values(Dropped(Visited(m, todo), cb))
    && Values(Visited(m, todo)) == Values(next) + freed
  }

  /** Visiting a surviving `k` keeps the state of the pass. */
  lemma ProcessMove(m: map<Key, Value>, cb: Callback, todo: set<Key>,
                    next: map<Key, Value>, freed: multiset<Value>, k: Key)
    requires NoCollisions(m, cb)
    requires ProcessState(m, cb, todo, next, freed) && k in todo && Survives(cb, k)
    ensures k in m && Target(cb, k) !in next
    ensures ProcessState(m, cb, todo - {k}, next[Target(cb, k) := m[k]], freed)
  {
    VisitOne(m, todo, k);
    DroppedStep(m, cb, todo, k);
    RekeysMove(m, cb, todo, k, next);
    ValuesAdd(next, Target(cb, k), m[k]);
    AddToKept(Values(Visited(m, todo)), Values(next), Values(next[Target(cb, k) := m[k]]), freed, m[k]);
  }

  /** Visiting a removed `k` keeps the state of the pass. */
  lemma ProcessDrop(m: map<Key, Value>, cb: Callback, todo: set<Key>,
                    next: map<Key, Value>, freed: multiset<Value>, k: Key)
    requires ProcessState(m, cb, todo, next, freed) && k in todo && !Survives(cb, k)
    ensures k in m
    ensures ProcessState(m, cb, todo - {k}, next, freed + multiset{m[k]})
  {
    VisitOne(m, todo, k);
    DroppedStep(m, cb, todo, k);
    RekeysSkip(m, cb, todo, k, next);
    AddToFreed(Values(Visited(m, todo)), Values(next), freed, m[k]);
  }

  /** One more occurrence on both sides, counted as kept. */
  lemma AddToKept(total: multiset<Value>, kept: multiset<Value>, kept': multiset<Value>,
                  freed: multiset<Value>, v: Value)
    requires total == kept + freed && kept' == kept + multiset{v}
    ensures total + multiset{v} == kept' + freed
  {
  }

  /** One more occurrence on both sides, counted as freed. */
  lemma AddToFreed(total: multiset<Value>, kept: multiset<Value>, freed: multiset<Value>, v: Value)
    requires total == kept + freed
    ensures total + multiset{v} == kept + (freed + multiset{v})
  {
  }

  /**
   * Processes every entry once with `cb`. The keys to visit are fixed before
   * anything changes and every decision is taken against the original map,
   * so an entry moved by `UpdateEntry` is not visited again and a removed
   * entry is not freed twice. Removed entries have their backing stores
   * freed; every other record survives, kept or re-keyed.
   */
  method Process(t: Tracker, cb: Callback) returns (r: Tracker, freed: multiset<Value>)
    requires NoCollisions(t.buffers, cb)
    ensures Rekeys(t.buffers, cb, r.buffers)
    ensures freed == Values(Dropped(t.buffers, cb))
    ensures Values(t.buffers) == Values(r.buffers) + freed
  {
    var m := t.buffers;
    var next: map<Key, Value> := map[];
    var todo := m.Keys;
    freed := multiset{};
    while todo != {}
      invariant ProcessState(m, cb, todo, next, freed)
      decreases todo
    {
      var k :| k in todo;
      if Survives(cb, k) {
        // kept under its own key, or re-keyed to the new identity
        ProcessMove(m, cb, todo, next, freed, k);
        next := next[Target(cb, k) := m[k]];
      } else {
        ProcessDrop(m, cb, todo, next, freed, k);
        freed := freed + multiset{m[k]};
      }
      todo := todo - {k};
    }
    VisitedAll(m);
    r := Tracker(next);
  }

  /** Visiting an entry that `cb` removes leaves the re-keyed map as it is. */
  lemma RekeysSkip(m: map<Key, Value>, cb: Callback, todo: set<Key>, k: Key, next: map<Key, Value>)
    requires k in todo && todo <= m.Keys && !Survives(cb, k)
    requires Rekeys(Visited(m, todo), cb, next)
    ensures Rekeys(Visited(m, todo - {k}), cb, next)
  {
    var before, after := Visited(m, todo), Visited(m, todo - {k});
    forall k' | k' in next
      ensures exists j :: j in after && Survives(cb, j) && Target(cb, j) == k' && next[k'] == after[j]
    {
      var j :| j in before && Survives(cb, j) && Target(cb, j) == k' && next[k'] == before[j];
      assert j in after;
    }
  }

  /**
   * Visiting a surviving entry puts its record under its target key, which
   * no entry visited before occupies.
   */
  lemma RekeysMove(m: map<Key, Value>, cb: Callback, todo: set<Key>, k: Key, next: map<Key, Value>)
    requires k in todo && todo <= m.Keys && Survives(cb, k)
    requires NoCollisions(m, cb)
    requires Rekeys(Visited(m, todo), cb, next)
    ensures Target(cb, k) !in next
    ensures Rekeys(Visited(m, todo - {k}), cb, next[Target(cb, k) := m[k]])
  {
    var before, after := Visited(m, todo), Visited(m, todo - {k});
    var t := Target(cb, k);
    assert t !in next;
    var next' := next[t := m[k]];
    forall j | j in after && cb(j).0 == KeepEntry
      ensures j in next' && next'[j] == after[j]
    {
      if j != k {
        assert Target(cb, j) != t;
      }
    }
    forall j | j in after && cb(j).0 == UpdateEntry
      ensures cb(j).1 in next' && next'[cb(j).1] == after[j]
    {
      if j != k {
        assert Target(cb, j) != t;
      }
    }
    forall k' | k' in next'
      ensures exists j :: j in after && Survives(cb, j) && Target(cb, j) == k' && next'[k'] == after[j]
    {
      if k' == t {
        assert k in after;
      } else {
        var j :| j in before && Survives(cb, j) && Target(cb, j) == k' && next[k'] == before[j];
        assert j in after;
      }
    }
  }

  /**
   * The outcome of a pass does not depend on the order in which entries are
   * visited: one map at most is related to `m` by `Rekeys`.
   */
  lemma RekeysUnique(m: map<Key, Value>, cb: Callback, r1: map<Key, Value>, r2: map<Key, Value>)
    requires NoCollisions(m, cb)
    requires Rekeys(m, cb, r1) && Rekeys(m, cb, r2)
    ensures r1 == r2
  {
    RekeysIncluded(m, cb, r1, r2);
    RekeysIncluded(m, cb, r2, r1);
  }

  /** Every entry of one outcome of a pass is an entry of any other. */
  lemma RekeysIncluded(m: map<Key, Value>, cb: Callback, r1: map<Key, Value>, r2: map<Key, Value>)
    requires NoCollisions(m, cb)
    requires Rekeys(m, cb, r1) && Rekeys(m, cb, r2)
    ensures forall k' :: k' in r1 ==> k' in r2 && r2[k'] == r1[k']
  {
    forall k' | k' in r1
      ensures k' in r2 && r2[k'] == r1[k']
    {
      var k :| k in m && Survives(cb, k) && Target(cb, k) == k' && r1[k'] == m[k];
    }
  }

  /** The callback of a marking pass: keep what is marked, remove the rest. */
  function MarkingCallback(marked: Key -> bool): Callback
  {
    (k: Key) => if marked(k) then (KeepEntry, k) else (RemoveEntry, k)
  }

  /**
   * `FreeDead` is the `Process` pass whose callback consults the mark bit:
   * the entries it keeps are exactly those that pass re-keys in place, and it
   * frees the same records.
   */
  lemma FreeDeadIsMarkingProcess(m: map<Key, Value>, marked: Key -> bool, r: map<Key, Value>)
    requires forall k :: k in r <==> k in m && marked(k)
    requires forall k :: k in r ==> r[k] == m[k]
    ensures NoCollisions(m, MarkingCallback(marked))
    ensures Rekeys(m, MarkingCallback(marked), r)
    ensures Dead(m, marked) == Dropped(m, MarkingCallback(marked))
  {
    var cb := MarkingCallback(marked);
    forall k' | k' in r
      ensures exists k :: k in m && Survives(cb, k) && Target(cb, k) == k' && r[k'] == m[k]
    {
      assert Target(cb, k') == k';
    }
  }

}
