/**
 * The static facade through which the heap uses the per-page trackers. It
 * holds no state of its own: the heap is an explicit argument, modelled as
 * the map from each page to its tracker, and a page gets its tracker the
 * first time a buffer on it is registered.
 *
 * Finding the page of an object is done by the heap and is a parameter
 * here (`pageOf`); so are the mark bit and the forwarding address, which
 * the garbage collector provides.
 */
module ArrayBufferTracker {
  import opened Options
  import opened MapValues
  import Local = LocalArrayBufferTracker

  /** What `ProcessBuffers` does with the buffers that were not forwarded. */
  datatype ProcessingMode = UpdateForwardedRemoveOthers | UpdateForwardedKeepOthers

  /** Identity of a page of the heap. */
  type PageId = nat

  /** The trackers of the heap's pages; a page that has none is absent. */
  datatype Heap = Heap(trackers: map<PageId, Local.Tracker>)

  /**
   * Every tracked buffer sits in the tracker of the page that holds it, so
   * no buffer is tracked by two trackers.
   */
  ghost predicate WellPlaced(h: Heap, pageOf: Local.Key -> PageId)
  {
    forall p, k :: p in h.trackers && Local.IsTracked(h.trackers[p], k) ==> pageOf(k) == p
  }

  /**
   * Whether `key` is tracked: the tracker of its page has a record for it.
   * When every buffer sits on its own page, this is whether any tracker of
   * the heap has a record for it.
   */
  function IsTracked(h: Heap, pageOf: Local.Key -> PageId, key: Local.Key): (r: bool)
    ensures r ==> exists p :: p in h.trackers && Local.IsTracked(h.trackers[p], key)
    ensures WellPlaced(h, pageOf) && (exists p :: p in h.trackers && Local.IsTracked(h.trackers[p], key)) ==> r
  {
    var p := pageOf(key);
    p in h.trackers && Local.IsTracked(h.trackers[p], key)
  }

  /** The tracker of page `p`, a fresh one if it has none yet. */
  function TrackerOf(h: Heap, p: PageId): Local.Tracker
  {
    if p in h.trackers then h.trackers[p] else Local.New()
  }

  /**
   * Starts tracking the backing store `value` of the buffer `key` in the
   * tracker of its page. The buffer must not be tracked yet.
   */
  function RegisterNew(h: Heap, pageOf: Local.Key -> PageId, key: Local.Key, value: Local.Value): (r: Heap)
    requires !IsTracked(h, pageOf, key)
    ensures IsTracked(r, pageOf, key)
    ensures Local.Find(r.trackers[pageOf(key)], key) == Some(value)
    ensures r.trackers.Keys == h.trackers.Keys + {pageOf(key)}
    ensures forall p :: p in h.trackers && p != pageOf(key) ==> r.trackers[p] == h.trackers[p]
    ensures forall k :: k != key ==> IsTracked(r, pageOf, k) == IsTracked(h, pageOf, k)
    ensures forall k :: k != key ==>
      Local.Find(r.trackers[pageOf(key)], k) == Local.Find(TrackerOf(h, pageOf(key)), k)
    ensures WellPlaced(h, pageOf) ==> WellPlaced(r, pageOf)
  {
    var p := pageOf(key);
    var t := Local.Add(TrackerOf(h, p), key, value);
    PlacedOnPage(h, pageOf, p, t);
    Heap(h.trackers[p := t])
  }

  /**
   * Stops tracking the buffer `key` and hands its backing store back to the
   * caller, who now owns it: nothing is freed. The buffer must be tracked.
   * The header's static `Unregister` returns nothing; here it also returns
   * the record that the page tracker's `Remove` yields, so that callers can
   * state what they took over.
   */
  function Unregister(h: Heap, pageOf: Local.Key -> PageId, key: Local.Key): (r: (Heap, Local.Value))
    requires IsTracked(h, pageOf, key)
    ensures Local.Find(h.trackers[pageOf(key)], key) == Some(r.1)
    ensures !IsTracked(r.0, pageOf, key)
    ensures r.0.trackers.Keys == h.trackers.Keys
    ensures forall p :: p in h.trackers && p != pageOf(key) ==> r.0.trackers[p] == h.trackers[p]
    ensures forall k :: k != key ==> IsTracked(r.0, pageOf, k) == IsTracked(h, pageOf, k)
    ensures forall k :: k != key ==> Local.Find(r.0.trackers[pageOf(key)], k) == Local.Find(h.trackers[pageOf(key)], k)
    ensures WellPlaced(h, pageOf) ==> WellPlaced(r.0, pageOf)
  {
    var p := pageOf(key);
    var (t, value) := Local.Remove(h.trackers[p], key);
    PlacedOnPage(h, pageOf, p, t);
    (Heap(h.trackers[p := t]), value)
  }

  /** Replacing the tracker of page `p` by one that holds only buffers on `p` keeps every buffer on its own page. */
  lemma PlacedOnPage(h: Heap, pageOf: Local.Key -> PageId, p: PageId, t: Local.Tracker)
    requires forall k :: Local.IsTracked(t, k) ==> pageOf(k) == p || (p in h.trackers && Local.IsTracked(h.trackers[p], k))
    ensures WellPlaced(h, pageOf) ==> WellPlaced(Heap(h.trackers[p := t]), pageOf)
  {
  }

  /**
   * Registering a buffer and unregistering it again gives its backing store
   * back unchanged and leaves every buffer tracked exactly as before.
   */
  lemma RegisterThenUnregister(h: Heap, pageOf: Local.Key -> PageId, key: Local.Key, value: Local.Value)
    requires !IsTracked(h, pageOf, key)
    ensures Unregister(RegisterNew(h, pageOf, key, value), pageOf, key).1 == value
    ensures forall k :: IsTracked(Unregister(RegisterNew(h, pageOf, key, value), pageOf, key).0, pageOf, k)
                        == IsTracked(h, pageOf, k)
  {
  }

  /**
   * Frees the backing stores of the buffers on `page` that are not marked;
   * the page's marking information must be valid. A page without a tracker
   * has nothing to free, and no other page is touched.
   */
  method FreeDead(h: Heap, page: PageId, marked: Local.Key -> bool) returns (r: Heap, freed: multiset<Local.Value>)
    ensures r.trackers.Keys == h.trackers.Keys
    ensures forall p :: p in h.trackers && p != page ==> r.trackers[p] == h.trackers[p]
    ensures page !in h.trackers ==> freed == multiset{}
    ensures page in h.trackers ==>
      forall k :: Local.IsTracked(r.trackers[page], k) <==> Local.IsTracked(h.trackers[page], k) && marked(k)
    ensures page in h.trackers ==>
      forall k :: Local.IsTracked(r.trackers[page], k) ==> Local.Find(r.trackers[page], k) == Local.Find(h.trackers[page], k)
    ensures page in h.trackers ==> freed == Values(Local.Dead(h.trackers[page].buffers, marked))
    ensures page in h.trackers ==> Values(h.trackers[page].buffers) == Values(r.trackers[page].buffers) + freed
  {
    if page in h.trackers {
      var after, f := Local.FreeDead(h.trackers[page], marked);
      r, freed := Heap(h.trackers[page := after]), f;
      ReplaceTracker(h, page, after);
    } else {
      r, freed := h, multiset{};
    }
  }

  /** Installing `t` as the tracker of `page` changes that page only. */
  lemma ReplaceTracker(h: Heap, page: PageId, t: Local.Tracker)
    ensures Heap(h.trackers[page := t]).trackers[page] == t
    ensures page in h.trackers ==> Heap(h.trackers[page := t]).trackers.Keys == h.trackers.Keys
    ensures forall p :: p in h.trackers && p != page ==> Heap(h.trackers[page := t]).trackers[p] == h.trackers[p]
  {
  }

  /**
   * The callback `ProcessBuffers` passes to the page's tracker: a forwarded
   * buffer is re-keyed to its forwarding address, and any other buffer is
   * kept or removed as `mode` says.
   */
  function ModeCallback(mode: ProcessingMode, forward: Local.Key -> Option<Local.Key>): Local.Callback
  {
    (k: Local.Key) =>
      match forward(k)
      case Some(target) => (Local.UpdateEntry, target)
      case None => (if mode == UpdateForwardedKeepOthers then Local.KeepEntry else Local.RemoveEntry, k)
  }

  /** The entries of `m` whose buffers were not forwarded. */
  function Unforwarded(m: map<Local.Key, Local.Value>, forward: Local.Key -> Option<Local.Key>): map<Local.Key, Local.Value>
  {
    map k | k in m && forward(k) == None :: m[k]
  }

  /**
   * `r` and `freed` are what `ProcessBuffers` in `mode` makes of `m`: every
   * forwarded buffer is tracked under its forwarding address with its
   * record, whatever the mode; the others are all kept as they are under
   * `UpdateForwardedKeepOthers`, which frees nothing, and all freed under
   * `UpdateForwardedRemoveOthers`; and nothing else is tracked.
   */
  ghost predicate ProcessedByMode(m: map<Local.Key, Local.Value>, mode: ProcessingMode,
                                  forward: Local.Key -> Option<Local.Key>,
                                  r: map<Local.Key, Local.Value>, freed: multiset<Local.Value>)
  {
    && (forall k :: k in m && forward(k).Some? ==> forward(k).value in r && r[forward(k).value] == m[k])
    && (mode == UpdateForwardedKeepOthers ==>
          && (forall k :: k in m && forward(k) == None ==> k in r && r[k] == m[k])
          && freed == multiset{})
    && (mode == UpdateForwardedRemoveOthers ==> freed == Values(Unforwarded(m, forward)))
    && (forall k' :: k' in r ==>
          exists k :: k in m && r[k'] == m[k] &&
            (forward(k) == Some(k') || (mode == UpdateForwardedKeepOthers && forward(k) == None && k == k')))
  }

  /** What the callback of `mode` decides for the buffer `k`. */
  lemma ModeCallbackAt(mode: ProcessingMode, forward: Local.Key -> Option<Local.Key>, k: Local.Key)
    ensures forward(k).Some? ==> ModeCallback(mode, forward)(k) == (Local.UpdateEntry, forward(k).value)
    ensures forward(k) == None && mode == UpdateForwardedKeepOthers ==>
      ModeCallback(mode, forward)(k) == (Local.KeepEntry, k)
    ensures forward(k) == None && mode == UpdateForwardedRemoveOthers ==>
      ModeCallback(mode, forward)(k) == (Local.RemoveEntry, k)
    ensures Local.Survives(ModeCallback(mode, forward), k) <==>
      forward(k).Some? || mode == UpdateForwardedKeepOthers
    ensures Local.Target(ModeCallback(mode, forward), k) == if forward(k).Some? then forward(k).value else k
  {
  }

  /** The callback of `mode` removes exactly the buffers that mode drops. */
  lemma ModeCallbackDrops(m: map<Local.Key, Local.Value>, mode: ProcessingMode, forward: Local.Key -> Option<Local.Key>)
    ensures mode == UpdateForwardedKeepOthers ==> Local.Dropped(m, ModeCallback(mode, forward)) == map[]
    ensures mode == UpdateForwardedRemoveOthers ==> Local.Dropped(m, ModeCallback(mode, forward)) == Unforwarded(m, forward)
  {
    forall k | k in m
      ensures (ModeCallback(mode, forward)(k).0 == Local.RemoveEntry) <==>
                (mode == UpdateForwardedRemoveOthers && forward(k) == None)
    {
      ModeCallbackAt(mode, forward, k);
    }
  }

  /** A `Process` pass with the callback of `mode` does what `mode` says. */
  lemma ModeCallbackOutcome(m: map<Local.Key, Local.Value>, mode: ProcessingMode,
                            forward: Local.Key -> Option<Local.Key>,
                            r: map<Local.Key, Local.Value>, freed: multiset<Local.Value>)
    requires Local.Rekeys(m, ModeCallback(mode, forward), r)
    requires freed == Values(Local.Dropped(m, ModeCallback(mode, forward)))
    ensures ProcessedByMode(m, mode, forward, r, freed)
  {
    var cb := ModeCallback(mode, forward);
    ModeCallbackDrops(m, mode, forward);
    forall k | k in m && forward(k).Some?
      ensures forward(k).value in r && r[forward(k).value] == m[k]
    {
      ModeCallbackAt(mode, forward, k);
    }
    forall k | k in m && forward(k) == None && mode == UpdateForwardedKeepOthers
      ensures k in r && r[k] == m[k]
    {
      ModeCallbackAt(mode, forward, k);
    }
    forall k' | k' in r
      ensures exists k :: k in m && r[k'] == m[k] &&
                (forward(k) == Some(k') || (mode == UpdateForwardedKeepOthers && forward(k) == None && k == k'))
    {
      var k :| k in m && Local.Survives(cb, k) && Local.Target(cb, k) == k' && r[k'] == m[k];
      ModeCallbackAt(mode, forward, k);
    }
  }

  /** Runs the `Process` pass of `mode` over one tracker. */
  method ProcessTracker(t: Local.Tracker, mode: ProcessingMode, forward: Local.Key -> Option<Local.Key>)
    returns (r: Local.Tracker, freed: multiset<Local.Value>)
    requires Local.NoCollisions(t.buffers, ModeCallback(mode, forward))
    ensures ProcessedByMode(t.buffers, mode, forward, r.buffers, freed)
    ensures Values(t.buffers) == Values(r.buffers) + freed
  {
    r, freed := Local.Process(t, ModeCallback(mode, forward));
    ModeCallbackOutcome(t.buffers, mode, forward, r.buffers, freed);
  }

  /**
   * Processes the buffers on `page` for a compaction or promotion pass. A
   * page without a tracker is left alone, and no other page is touched. No
   * two buffers may end up under the same key.
   */
  method ProcessBuffers(h: Heap, page: PageId, mode: ProcessingMode, forward: Local.Key -> Option<Local.Key>)
    returns (r: Heap, freed: multiset<Local.Value>)
    requires page in h.trackers ==> Local.NoCollisions(h.trackers[page].buffers, ModeCallback(mode, forward))
    ensures r.trackers.Keys == h.trackers.Keys
    ensures forall p :: p in h.trackers && p != page ==> r.trackers[p] == h.trackers[p]
    ensures page !in h.trackers ==> freed == multiset{}
    ensures page in h.trackers ==>
      ProcessedByMode(h.trackers[page].buffers, mode, forward, r.trackers[page].buffers, freed)
    ensures page in h.trackers ==> Values(h.trackers[page].buffers) == Values(r.trackers[page].buffers) + freed
  {
    if page in h.trackers {
      var before := h.trackers[page];
      var after, f := ProcessTracker(before, mode, forward);
      r, freed := Heap(h.trackers[page := after]), f;
      ReplaceTracker(h, page, after);
    } else {
      r, freed := h, multiset{};
    }
  }

  /**
   * The two modes differ only on the buffers that were not forwarded: what
   * `UpdateForwardedKeepOthers` leaves is what `UpdateForwardedRemoveOthers`
   * leaves plus those buffers, and the latter frees exactly their records
   * on top of what the former frees.
   */
  lemma ModesDifferOnlyOnUnforwarded(m: map<Local.Key, Local.Value>, forward: Local.Key -> Option<Local.Key>,
                                     keep: map<Local.Key, Local.Value>, keepFreed: multiset<Local.Value>,
                                     remove: map<Local.Key, Local.Value>, removeFreed: multiset<Local.Value>)
    requires Local.NoCollisions(m, ModeCallback(UpdateForwardedKeepOthers, forward))
    requires ProcessedByMode(m, UpdateForwardedKeepOthers, forward, keep, keepFreed)
    requires ProcessedByMode(m, UpdateForwardedRemoveOthers, forward, remove, removeFreed)
    ensures remove.Keys !! Unforwarded(m, forward).Keys
    ensures keep == remove + Unforwarded(m, forward)
    ensures removeFreed == keepFreed + Values(Unforwarded(m, forward))
  {
    RemovedAwayFromUnforwarded(m, forward, remove, removeFreed);
    KeepAddsUnforwarded(m, forward, keep, keepFreed, remove, removeFreed);
  }

  /**
   * Under `UpdateForwardedKeepOthers` without collisions, no buffer is
   * forwarded to the key of a buffer that was not forwarded.
   */
  lemma ForwardedToForwarded(m: map<Local.Key, Local.Value>, forward: Local.Key -> Option<Local.Key>,
                             k: Local.Key, k': Local.Key)
    requires Local.NoCollisions(m, ModeCallback(UpdateForwardedKeepOthers, forward))
    requires k in m && k' in m && forward(k) == Some(k')
    ensures forward(k') != None
  {
    ModeCallbackAt(UpdateForwardedKeepOthers, forward, k);
    ModeCallbackAt(UpdateForwardedKeepOthers, forward, k');
  }

  /** What `UpdateForwardedRemoveOthers` leaves shares no key with the buffers not forwarded. */
  lemma RemovedAwayFromUnforwarded(m: map<Local.Key, Local.Value>, forward: Local.Key -> Option<Local.Key>,
                                   remove: map<Local.Key, Local.Value>, removeFreed: multiset<Local.Value>)
    requires Local.NoCollisions(m, ModeCallback(UpdateForwardedKeepOthers, forward))
    requires ProcessedByMode(m, UpdateForwardedRemoveOthers, forward, remove, removeFreed)
    ensures remove.Keys !! Unforwarded(m, forward).Keys
  {
    forall k' | k' in remove && k' in m
      ensures forward(k') != None
    {
      var k :| k in m && remove[k'] == m[k] && forward(k) == Some(k');
      ForwardedToForwarded(m, forward, k, k');
    }
  }

  /** What `UpdateForwardedKeepOthers` leaves is the other mode's result plus the buffers not forwarded. */
  lemma KeepAddsUnforwarded(m: map<Local.Key, Local.Value>, forward: Local.Key -> Option<Local.Key>,
                            keep: map<Local.Key, Local.Value>, keepFreed: multiset<Local.Value>,
                            remove: map<Local.Key, Local.Value>, removeFreed: multiset<Local.Value>)
    requires ProcessedByMode(m, UpdateForwardedKeepOthers, forward, keep, keepFreed)
    requires ProcessedByMode(m, UpdateForwardedRemoveOthers, forward, remove, removeFreed)
    ensures keep == remove + Unforwarded(m, forward)
  {
    KeepWithinRemovePlusUnforwarded(m, forward, keep, keepFreed, remove, removeFreed);
    RemovePlusUnforwardedWithinKeep(m, forward, keep, keepFreed, remove, removeFreed);
  }

  /** Every key left by `UpdateForwardedKeepOthers` is left by the other mode or belongs to a buffer not forwarded. */
  lemma KeepWithinRemovePlusUnforwarded(m: map<Local.Key, Local.Value>, forward: Local.Key -> Option<Local.Key>,
                                        keep: map<Local.Key, Local.Value>, keepFreed: multiset<Local.Value>,
                                        remove: map<Local.Key, Local.Value>, removeFreed: multiset<Local.Value>)
    requires ProcessedByMode(m, UpdateForwardedKeepOthers, forward, keep, keepFreed)
    requires ProcessedByMode(m, UpdateForwardedRemoveOthers, forward, remove, removeFreed)
    ensures forall k' :: k' in keep ==> k' in remove || k' in Unforwarded(m, forward)
  {
    forall k' | k' in keep
      ensures k' in remove || k' in Unforwarded(m, forward)
    {
      var k :| k in m && keep[k'] == m[k] && (forward(k) == Some(k') || (forward(k) == None && k == k'));
    }
  }

  /** `UpdateForwardedKeepOthers` leaves every entry the other mode leaves, and every buffer not forwarded. */
  lemma RemovePlusUnforwardedWithinKeep(m: map<Local.Key, Local.Value>, forward: Local.Key -> Option<Local.Key>,
                                        keep: map<Local.Key, Local.Value>, keepFreed: multiset<Local.Value>,
                                        remove: map<Local.Key, Local.Value>, removeFreed: multiset<Local.Value>)
    requires ProcessedByMode(m, UpdateForwardedKeepOthers, forward, keep, keepFreed)
    requires ProcessedByMode(m, UpdateForwardedRemoveOthers, forward, remove, removeFreed)
    ensures forall k' :: k' in Unforwarded(m, forward) ==> k' in keep && keep[k'] == m[k']
    ensures forall k' :: k' in remove ==> k' in keep && keep[k'] == remove[k']
  {
    forall k' | k' in remove
      ensures k' in keep && keep[k'] == remove[k']
    {
      var k :| k in m && remove[k'] == m[k] && forward(k) == Some(k');
    }
  }

}
