/**
 * Two small scenarios of the per-page tracker, each ending in a state that the
 * contracts of the operations pin down completely.
 */
module Scenarios {
  import opened Options
  import opened MapValues
  import opened LocalArrayBufferTracker

  /** Buffers 1 and 2 added to a fresh tracker. */
  function TwoBuffers(): (t: Tracker)
    ensures t.buffers == map[1 := Value(10, 16), 2 := Value(20, 32)]
  {
    Add(Add(New(), 1, Value(10, 16)), 2, Value(20, 32))
  }

  /**
   * Buffer 1 owns 16 bytes at 10 and buffer 2 owns 32 bytes at 20; only
   * buffer 2 is marked. Sweeping frees the store of buffer 1 and leaves
   * buffer 2 tracked with its record.
   */
  method SweepOneOfTwo() returns (t: Tracker, freed: multiset<Value>)
    ensures !IsTracked(t, 1)
    ensures Find(t, 2) == Some(Value(20, 32))
    ensures freed == multiset{Value(10, 16)}
  {
    var first := Value(10, 16);
    var start := TwoBuffers();
    var marked := (k: Key) => k != 1;
    DeadOfTwo(start.buffers, marked);
    t, freed := FreeDead(start, marked);
  }

  /** Of buffers 1 and 2, with only 2 marked, the record of 1 is dead. */
  lemma DeadOfTwo(m: map<Key, Value>, marked: Key -> bool)
    requires m == map[1 := Value(10, 16), 2 := Value(20, 32)]
    requires !marked(1) && marked(2)
    ensures Values(Dead(m, marked)) == multiset{Value(10, 16)}
  {
    assert Dead(m, marked) == map[][1 := Value(10, 16)];
    ValuesAdd(map[], 1, Value(10, 16));
  }

  /**
   * Buffer 3 owns 8 bytes at 10 and is moved to address 7 by compaction.
   * Afterwards only the new address is tracked, with the same record, and
   * nothing is freed.
   */
  method CompactOne() returns (t: Tracker, freed: multiset<Value>)
    ensures !IsTracked(t, 3)
    ensures Find(t, 7) == Some(Value(10, 8))
    ensures freed == multiset{}
  {
    var start := Add(New(), 3, Value(10, 8));
    var cb: Callback := k => (UpdateEntry, 7);
    t, freed := Process(start, cb);
    assert Dropped(start.buffers, cb) == map[];
  }

}
