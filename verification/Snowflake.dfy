/**
 The generator of aggregate ids: timestamp, machine and sequence number packed into one 64-bit long.
 A clock is the sequence of its readings, which never goes back.
 */
module Snowflake {
  import opened Bits
  import opened Division
  import opened Options

  const EPOCH: int := 1609459200000
  const SEQUENCE_BITS: nat := 12
  const MACHINE_BITS: nat := 10

  const SEQUENCES: nat := 0x1000
  const MACHINES: nat := 0x400
  const TIMESTAMPS: nat := 0x200_0000_0000
  const LONG_LIMIT: int := 0x8000_0000_0000_0000

  /** The field widths in powers of two. */
  lemma Widths()
    ensures Pow2(SEQUENCE_BITS) == SEQUENCES && Pow2(SEQUENCE_BITS + MACHINE_BITS) == SEQUENCES * MACHINES
  {
    assert Pow2(4) == 16;
    assert Pow2(8) == 256;
    assert Pow2(12) == 4096;
    assert Pow2(16) == 65536;
    assert Pow2(20) == 1048576;
  }

  /** Bitwise or of a long in two's complement with a non-negative one. */
  function Or(a: int, b: nat): (r: int)
    decreases b
  {
    if b == 0 then a else (if a % 2 == 1 || b % 2 == 1 then 1 else 0) + 2 * Or(a / 2, b / 2)
  }

  /** Or with bits below those of the other operand is addition. */
  lemma {:induction false} OrIsSum(q: int, b: nat, k: nat)
    requires b < Pow2(k)
    ensures Or(Pow2(k) * q, b) == Pow2(k) * q + b
  {
    if b != 0 {
      assert Pow2(k) * q == 2 * (Pow2(k - 1) * q);
      OrIsSum(q, b / 2, k - 1);
    }
  }

  /** (timestamp - epoch) << 22 | machine << 12 | sequence. */
  function Pack(t: nat, machine: nat, sequence: nat): (id: int) {
    Or(Or((t - EPOCH) * Pow2(SEQUENCE_BITS + MACHINE_BITS), machine * Pow2(SEQUENCE_BITS)), sequence)
  }

  ghost predicate FieldsFit(t: nat, machine: nat, sequence: nat) {
    t < TIMESTAMPS && machine < MACHINES && sequence < SEQUENCES
  }

  /** The packed value in arithmetic; it never overflows a long. */
  lemma PackIs(t: nat, machine: nat, sequence: nat)
    requires FieldsFit(t, machine, sequence)
    ensures Pack(t, machine, sequence) == ((t - EPOCH) * MACHINES + machine) * SEQUENCES + sequence
    ensures -LONG_LIMIT <= Pack(t, machine, sequence) < LONG_LIMIT
  {
    Widths();
    hide Pow2, Or;
    OrIsSum(t - EPOCH, machine * SEQUENCES, SEQUENCE_BITS + MACHINE_BITS);
    OrIsSum((t - EPOCH) * MACHINES + machine, sequence, SEQUENCE_BITS);
  }

  /** Ids count from the first millisecond of 2021, UTC. */
  lemma FirstId(machine: nat)
    requires machine < MACHINES
    ensures Pack(1_609_459_200_000, machine, 0) == machine * 4096
  {
    PackIs(1_609_459_200_000, machine, 0);
  }

  function Timestamp(id: int): (t: int) {
    id / SEQUENCES / MACHINES + EPOCH
  }

  function Machine(id: int): (m: int) {
    id / SEQUENCES % MACHINES
  }

  function Sequence(id: int): (s: int) {
    id % SEQUENCES
  }

  /** The three fields are recoverable from the packed value. */
  lemma Unpacks(t: nat, machine: nat, sequence: nat)
    requires FieldsFit(t, machine, sequence)
    ensures var id := Pack(t, machine, sequence);
      Timestamp(id) == t && Machine(id) == machine && Sequence(id) == sequence
  {
    PackIs(t, machine, sequence);
    hide Pack;
    var high := (t - EPOCH) * MACHINES + machine;
    RemainderIsUnique(Pack(t, machine, sequence), SEQUENCES, high, sequence);
    RemainderIsUnique(high, MACHINES, t - EPOCH, machine);
  }

  ghost predicate Later(t: nat, s: nat, u: nat, r: nat) {
    t < u || (t == u && s < r)
  }

  /** Ids of one machine are ordered as timestamp, then sequence number. */
  lemma PackOrder(t: nat, s: nat, u: nat, r: nat, machine: nat)
    requires FieldsFit(t, machine, s) && FieldsFit(u, machine, r)
    ensures Pack(t, machine, s) < Pack(u, machine, r) <==> Later(t, s, u, r)
  {
    PackIs(t, machine, s);
    PackIs(u, machine, r);
    hide Pack;
  }

  ghost predicate GoodClock(readings: seq<nat>) {
    && (forall i :: 0 <= i < |readings| ==> readings[i] < TIMESTAMPS)
    && (forall i, j :: 0 <= i < j < |readings| ==> readings[i] <= readings[j])
  }

  lemma ReadingFits(readings: seq<nat>, i: nat)
    requires GoodClock(readings) && i < |readings|
    ensures readings[i] < TIMESTAMPS
  {
  }

  /** The sequence number after `s`: one more, wrapped to its width. */
  lemma NextSequence(s: nat)
    requires s < SEQUENCES
    ensures var n := Low(s + 1, SEQUENCE_BITS); n == if s + 1 == SEQUENCES then 0 else s + 1
  {
    LowIsRemainder(s + 1, SEQUENCE_BITS);
    Widths();
    WrapAround(s, SEQUENCES);
  }

  class Generator {
    const machine: nat
    var sequence: nat
    var lastTimestamp: int

    ghost predicate Valid()
      reads this
    {
      machine < MACHINES && sequence < SEQUENCES && -1 <= lastTimestamp < TIMESTAMPS
    }

    constructor (m: nat)
      requires m < MACHINES
      ensures Valid() && machine == m && lastTimestamp == -1 && sequence == 0
    {
      machine, sequence, lastTimestamp := m, 0, -1;
    }

    /** Reads the clock until it is past the last timestamp; none when the observed readings end before. */
    method WaitForNextMillis(readings: seq<nat>, from: nat) returns (r: Option<nat>, cursor: nat)
      requires from <= |readings|
      ensures from <= cursor <= |readings|
      ensures r.Some? ==> from < cursor && r.value == readings[cursor - 1] && r.value > lastTimestamp
      ensures r.None? ==> cursor == |readings|
      ensures forall i :: from <= i < (if r.Some? then cursor - 1 else cursor) ==> readings[i] <= lastTimestamp
    {
      cursor := from;
      while cursor < |readings|
        invariant from <= cursor <= |readings|
        invariant forall i :: from <= i < cursor ==> readings[i] <= lastTimestamp
      {
        cursor := cursor + 1;
        if readings[cursor - 1] > lastTimestamp {
          return Some(readings[cursor - 1]), cursor;
        }
      }
      r := None;
    }

    /** generateID, reading the clock from position `from` on. */
    method GenerateID(readings: seq<nat>, from: nat) returns (r: Option<int>, cursor: nat)
      requires Valid() && GoodClock(readings) && from < |readings|
      requires lastTimestamp <= readings[from]
      modifies this
      ensures from < cursor <= |readings| && (r.None? ==> cursor == |readings| && old(lastTimestamp) != -1)
      ensures r.Some? ==> Valid() && 0 <= lastTimestamp == readings[cursor - 1]
      ensures r.Some? ==> r.value == Pack(lastTimestamp, machine, sequence)
      ensures r.Some? ==> sequence == if lastTimestamp == old(lastTimestamp) then old(sequence) + 1 else 0
      ensures r.Some? && old(lastTimestamp) != -1 ==> Later(old(lastTimestamp), old(sequence), lastTimestamp, sequence)
    {
      hide Pack, Low, Pow2, GoodClock;
      var timestamp := readings[from];
      cursor := from + 1;
      ReadingFits(readings, from);
      if timestamp == lastTimestamp {
        NextSequence(sequence);
        sequence := Low(sequence + 1, SEQUENCE_BITS);
        if sequence == 0 {
          var next;
          next, cursor := WaitForNextMillis(readings, cursor);
          if next.None? {
            return None, cursor;
          }
          timestamp := next.value;
          ReadingFits(readings, cursor - 1);
        }
      } else {
        sequence := 0;
      }
      lastTimestamp := timestamp;
      r := Some(Pack(timestamp, machine, sequence));
    }

    /** All the ids that one generator gives out while the clock is read: they strictly increase. */
    method Run(readings: seq<nat>) returns (ids: seq<int>)
      requires Valid() && GoodClock(readings) && lastTimestamp == -1
      modifies this
      ensures forall i, j :: 0 <= i < j < |ids| ==> ids[i] < ids[j]
      ensures forall i :: 0 <= i < |ids| ==> Machine(ids[i]) == machine && Timestamp(ids[i]) in readings
      ensures readings != [] ==> ids != []
    {
      ids := [];
      var cursor := 0;
      hide Pack, Timestamp, Machine, Low, Pow2;
      while cursor < |readings|
        invariant cursor <= |readings| && (ids == [] <==> cursor == 0)
        invariant cursor < |readings| ==> Valid()
        invariant ids == [] ==> lastTimestamp == -1
        invariant cursor < |readings| && ids != [] ==> lastTimestamp == readings[cursor - 1]
        invariant cursor < |readings| && ids != [] ==> ids[|ids| - 1] == Pack(lastTimestamp, machine, sequence)
        invariant forall i, j :: 0 <= i < j < |ids| ==> ids[i] < ids[j]
        invariant forall i :: 0 <= i < |ids| ==> Machine(ids[i]) == machine && Timestamp(ids[i]) in readings
      {
        ghost var t, s := lastTimestamp, sequence;
        var id;
        id, cursor := GenerateID(readings, cursor);
        if id.Some? {
          Unpacks(lastTimestamp, machine, sequence);
          if ids != [] {
            PackOrder(t, s, lastTimestamp, sequence, machine);
          }
          ids := ids + [id.value];
        }
      }
    }
  }
}
