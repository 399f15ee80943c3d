/** The debug log: a byte ring that answers for the last bytes of everything written since the last reset. */
module DebugLog {
  import opened Machine

  const RING_BYTES: u32 := 8192
  const U32_MAX: u32 := 0xFFFF_FFFF

  /** The last `n` bytes of a log. */
  function Last(log: seq<byte>, n: nat): (tail: seq<byte>)
    requires n <= |log|
    ensures |tail| == n
  {
    log[|log| - n..]
  }

  /** How many bytes of a log a reader with this capacity gets: one byte is for the NUL. */
  function Readable(log: seq<byte>, capacity: nat): (n: nat)
    requires capacity > 0
    ensures n <= |log|
  {
    Min(Min(|log|, RING_BYTES), capacity - 1)
  }

  /** A ring position below twice the ring size, brought back into the ring. */
  function Wrap(x: nat): (r: nat)
    requires x < 16384
    ensures r < 8192 && (r == x || r == x - 8192)
  {
    if x < 8192 then x else x - 8192
  }

  /** Byte `k` of the last `used` log bytes is where the head says it is. */
  ghost predicate Holds(ring: seq<byte>, head: nat, used: nat, log: seq<byte>, k: nat)
    requires |ring| == 8192 && head < 8192 && used <= 8192 && used <= |log| && k < used
  {
    ring[Wrap(head + 8192 - used + k)] == log[|log| - used + k]
  }

  ghost predicate HoldsAll(ring: seq<byte>, head: nat, used: nat, log: seq<byte>)
    requires |ring| == 8192 && head < 8192 && used <= 8192 && used <= |log|
  {
    forall k :: 0 <= k < used ==> Holds(ring, head, used, log, k)
  }

  /** Storing one byte at the head and moving it keeps the ring in step with the log. */
  lemma StoreNext(ring: seq<byte>, head: nat, used: nat, log: seq<byte>, v: byte)
    requires |ring| == 8192 && head < 8192 && used <= 8192 && used <= |log| && HoldsAll(ring, head, used, log)
    ensures HoldsAll(ring[head := v], Wrap(head + 1), Min(used + 1, 8192), log + [v])
  {
    var used' := Min(used + 1, 8192);
    var ring', head', log' := ring[head := v], Wrap(head + 1), log + [v];
    forall k | 0 <= k < used' ensures Holds(ring', head', used', log', k) {
      if k < used' - 1 {
        assert Holds(ring, head, used, log, if used == 8192 then k + 1 else k);
      }
    }
  }

  /** The last `count` bytes of the log can be read from the ring position that far behind the head. */
  lemma ReadBack(ring: seq<byte>, head: nat, used: nat, log: seq<byte>, count: nat, i: nat)
    requires |ring| == 8192 && head < 8192 && used <= 8192 && used <= |log| && HoldsAll(ring, head, used, log)
    requires i < count <= used
    ensures Wrap(head + 8192 - count) + i < 16384
    ensures ring[Wrap(Wrap(head + 8192 - count) + i)] == Last(log, count)[i]
  {
    assert Holds(ring, head, used, log, used - count + i);
  }

  /** Putting the NUL behind the bytes copied. */
  lemma Terminated(before: seq<byte>, copied: seq<byte>, count: nat)
    requires count < |copied| == |before| && copied[count..] == before[count..]
    ensures copied[count := 0] == copied[..count] + [0] + before[count + 1..]
  {
    assert before[count..][1..] == before[count + 1..] && copied[count..][1..] == copied[count + 1..];
  }

  class Log {
    const ring: array<byte>
    var head: u32
    var used: u32
    var total: u32
    var sioActive: bool
    var sioFailures: u32
    ghost var log: seq<byte>   // everything written since the last reset

    ghost predicate Valid()
      reads this, ring
    {
      && ring.Length == 8192 && head < 8192
      && used == Min(|log|, 8192) && total == Min(|log|, U32_MAX)
      && HoldsAll(ring[..], head, used, log)
    }

    constructor ()
      ensures Valid() && log == [] && fresh(ring)
    {
      ring := new byte[8192];
      head, used, total, sioActive, sioFailures := 0, 0, 0, false, 0;
      log := [];
    }

    /** The body of the ring-writing loop. */
    method StoreByte(v: byte)
      requires Valid()
      modifies ring, `head, `used, `total, `log
      ensures Valid() && log == old(log) + [v]
    {
      StoreNext(ring[..], head, used, log, v);
      ring[head] := v;
      head := (head + 1) % 8192;
      if used < RING_BYTES {
        used := used + 1;
      }
      if total != U32_MAX {
        total := total + 1;
      }
      log := log + [v];
    }

    method RingWrite(data: seq<byte>)
      requires Valid()
      modifies ring, `head, `used, `total, `log
      ensures Valid() && log == old(log) + data
    {
      var i := 0;
      while i < |data|
        invariant i <= |data| && Valid() && log == old(log) + data[..i]
      {
        StoreByte(data[i]);
        i := i + 1;
      }
    }

    method WriteRaw(data: CharPtr, serialResult: int) returns (result: int)
      requires Valid()
      modifies ring, this
      ensures Valid() && log == if data.Null? then old(log) else old(log) + data.bytes
      ensures result == if data.Null? then -1 else Min(|data.bytes|, INT_MAX)
      ensures sioActive == (old(sioActive) && (data.Null? || serialResult >= 0))
      ensures sioFailures ==
              if sioActive == old(sioActive) then old(sioFailures) else Min(old(sioFailures) + 1, U32_MAX)
    {
      if data.Null? {
        return -1;
      }
      RingWrite(data.bytes);
      if sioActive {
        if serialResult < 0 {
          sioActive := false;
          if sioFailures != U32_MAX {
            sioFailures := sioFailures + 1;
          }
        }
      }
      if |data.bytes| > INT_MAX {
        return INT_MAX;
      }
      return |data.bytes|;
    }

    method Reset()
      requires Valid()
      modifies ring, this
      ensures Valid() && log == [] && !sioActive && sioFailures == 0
      ensures forall k :: 0 <= k < ring.Length ==> ring[k] == 0
    {
      head, used, total, sioActive, sioFailures := 0, 0, 0, false, 0;
      log := [];
      var i := 0;
      while i < ring.Length
        invariant i <= ring.Length && forall k :: 0 <= k < i ==> ring[k] == 0
        modifies ring
      {
        ring[i] := 0;
        i := i + 1;
      }
    }

    /** `sioReady` is whether the serial port could be set up; without it only the ring is written. */
    method Init(sioReady: bool) returns (result: int)
      requires Valid()
      modifies ring, this
      ensures Valid() && log == [] && result == 0
      ensures sioActive == sioReady && sioFailures == if sioReady then 0 else 1
    {
      Reset();
      if sioReady {
        sioActive := true;
      } else {
        sioFailures := 1;
      }
      result := 0;
    }

    /** The ring position of the oldest byte to copy. */
    method OldestOf(count: u32) returns (start: u32)
      requires head < 8192 && count <= used <= 8192
      ensures start == Wrap(head + 8192 - count)
    {
      start := (head + RING_BYTES - used) % 8192;
      if count < used {
        start := (head + RING_BYTES - count) % 8192;
      }
    }

    method CopyOut(destination: array<byte>, start: u32, count: u32)
      requires Valid() && destination != ring && count <= used && count <= destination.Length
      requires start == Wrap(head + 8192 - count)
      modifies destination
      ensures destination[..count] == Last(log, count) && destination[count..] == old(destination[count..])
    {
      ghost var bytes, tail := ring[..], Last(log, count);
      var i := 0;
      while i < count
        invariant i <= count && ring[..] == bytes
        invariant forall k :: 0 <= k < i ==> destination[k] == tail[k]
        invariant forall k :: count <= k < destination.Length ==> destination[k] == old(destination[k])
      {
        ReadBack(bytes, head, used, log, count, i);
        destination[i] := ring[(start + i) % 8192];
        i := i + 1;
      }
    }

    method CopyRecent(destination: array?<byte>, capacity: u32) returns (count: u32)
      requires Valid() && destination != ring
      requires destination != null ==> capacity <= destination.Length
      modifies destination
      ensures Valid()
      ensures destination == null || capacity == 0 ==> count == 0
      ensures destination != null && capacity == 0 ==> destination[..] == old(destination[..])
      ensures destination != null && capacity > 0 ==>
                && count == Readable(log, capacity) && destination[..count] == Last(log, count)
                && destination[..] == Last(log, count) + [0] + old(destination[count + 1..])
    {
      if destination == null || capacity == 0 {
        return 0;
      }
      count := used;
      if count >= capacity {
        count := capacity - 1;
      }
      var start := OldestOf(count);
      ghost var before := destination[..];
      CopyOut(destination, start, count);
      Terminated(before, destination[..], count);
      destination[count] := 0;
    }
  }

  /** What a reader gets, written out: the last bytes, as many as the ring and the reader have room for. */
  lemma RecentMeans(log: seq<byte>, capacity: nat)
    requires capacity > 0
    ensures var n := Readable(log, capacity);
            && (n == |log| || n == 8192 || n == capacity - 1) && n <= |log| && n <= 8192 && n <= capacity - 1
            && Last(log, n) == log[|log| - n..]
  {
  }

  /** What a reader gets depends only on the recent past: older output can be anything. */
  lemma RecentOnly(old_output: seq<byte>, recent: seq<byte>, capacity: nat)
    requires capacity > 0 && (|recent| >= RING_BYTES || |recent| >= capacity - 1)
    ensures Readable(old_output + recent, capacity) == Readable(recent, capacity)
    ensures Last(old_output + recent, Readable(old_output + recent, capacity))
         == Last(recent, Readable(recent, capacity))
  {
  }
}
