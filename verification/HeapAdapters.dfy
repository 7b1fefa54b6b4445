/**
 The rv32 heap adapters.  Three pieces of code assign a timestamp to every
 memory access of an instruction: the constraints count forwards, the executor
 advances the memory's clock, and the trace filler counts backwards.  The three
 adapters differ in two settings only, so one model serves them all.
 */
module HeapAdapters {
  import opened Arith

  const REGISTER_AS: nat := 1
  const MEMORY_AS: nat := 2

  datatype Kind = VecHeap | IsEqualMod | Branch

  /** The constants of one adapter instance. */
  datatype Config = Config(kind: Kind, numReads: nat, blocksPerRead: nat, blocksPerWrite: nat,
                           readSize: nat, writeSize: nat) {
    /** `vec_heap` alone reads the destination pointer from a register. */
    predicate ReadsRd()
    {
      kind == VecHeap
    }

    function Writes(): nat
    {
      match kind case VecHeap => blocksPerWrite case IsEqualMod => 1 case Branch => 0
    }
  }

  /** Pointers and register values of one instruction. */
  datatype Row = Row(rsPtr: seq<nat>, rdPtr: nat, rsVal: seq<nat>, rdVal: nat)

  ghost predicate RowOf(c: Config, row: Row)
  {
    |row.rsPtr| == |row.rsVal| == c.numReads
  }

  /** One auxiliary column of the row, and with it one memory access. */
  datatype Slot = Rs(i: nat) | Rd | Read(i: nat, j: nat) | Write(k: nat)

  datatype Access = Access(space: nat, pointer: nat, isWrite: bool)

  datatype Event = Event(slot: Slot, access: Access, time: nat)

  // ---- The schedule --------------------------------------------------------------

  function RsSlots(n: nat): (s: seq<Slot>)
    ensures |s| == n
  {
    seq(n, i requires 0 <= i < n => Rs(i))
  }

  function BlockSlots(i: nat, n: nat): (s: seq<Slot>)
    ensures |s| == n
  {
    seq(n, j requires 0 <= j < n => Read(i, j))
  }

  function ReadSlots(n: nat, blocks: nat): (s: seq<Slot>)
    ensures |s| == n * blocks
  {
    if n == 0 then [] else
      assert n * blocks == (n - 1) * blocks + blocks;
      ReadSlots(n - 1, blocks) + BlockSlots(n - 1, blocks)
  }

  function WriteSlots(n: nat): (s: seq<Slot>)
    ensures |s| == n
  {
    seq(n, k requires 0 <= k < n => Write(k))
  }

  function RdSlots(c: Config): seq<Slot>
  {
    if c.ReadsRd() then [Rd] else []
  }

  function Slots(c: Config): (s: seq<Slot>)
    ensures |s| == c.numReads + |RdSlots(c)| + c.numReads * c.blocksPerRead + c.Writes()
  {
    RsSlots(c.numReads) + RdSlots(c) + ReadSlots(c.numReads, c.blocksPerRead) + WriteSlots(c.Writes())
  }

  ghost predicate SlotOk(c: Config, s: Slot)
  {
    match s
    case Rs(i) => i < c.numReads
    case Rd => c.ReadsRd()
    case Read(i, j) => i < c.numReads && j < c.blocksPerRead
    case Write(k) => k < c.Writes()
  }

  /** The offset of each access from the start of the instruction, in closed form. */
  function Position(c: Config, s: Slot): int
  {
    var heap := c.numReads + |RdSlots(c)|;
    match s
    case Rs(i) => i
    case Rd => c.numReads
    case Read(i, j) => heap + i * c.blocksPerRead + j
    case Write(k) => heap + c.numReads * c.blocksPerRead + k
  }

  lemma {:induction false} ReadSlotAt(n: nat, blocks: nat, i: nat, j: nat)
    requires i < n && j < blocks
    ensures 0 <= i * blocks && i * blocks + j < n * blocks
    ensures ReadSlots(n, blocks)[i * blocks + j] == Read(i, j)
  {
    assert n * blocks == (n - 1) * blocks + blocks;
    if i < n - 1 {
      ReadSlotAt(n - 1, blocks, i, j);
    } else {
      assert i * blocks == |ReadSlots(n - 1, blocks)|;
    }
  }

  /** Every slot occurs in the schedule, at its closed-form position. */
  lemma SlotAtPosition(c: Config, s: Slot)
    requires SlotOk(c, s)
    ensures 0 <= Position(c, s) < |Slots(c)| && Slots(c)[Position(c, s)] == s
  {
    match s
    case Read(i, j) => ReadSlotAt(c.numReads, c.blocksPerRead, i, j);
    case _ =>
  }

  function AccessOf(c: Config, row: Row, s: Slot): Access
  {
    match s
    case Rs(i) => Access(REGISTER_AS, if i < |row.rsPtr| then row.rsPtr[i] else 0, false)
    case Rd => Access(REGISTER_AS, row.rdPtr, false)
    case Read(i, j) => Access(MEMORY_AS, (if i < |row.rsVal| then row.rsVal[i] else 0) + j * c.readSize, false)
    case Write(k) =>
      if c.kind == VecHeap then Access(MEMORY_AS, row.rdVal + k * c.writeSize, true)
      else Access(REGISTER_AS, row.rdPtr, true)
  }

  /** Consecutive slots with consecutive times from `t`. */
  ghost function Timed(c: Config, row: Row, slots: seq<Slot>, t: nat): (e: seq<Event>)
    ensures |e| == |slots|
  {
    seq(|slots|, n requires 0 <= n < |slots| => Event(slots[n], AccessOf(c, row, slots[n]), t + n))
  }

  lemma TimedAppend(c: Config, row: Row, a: seq<Slot>, s: Slot, t: nat)
    ensures Timed(c, row, a + [s], t) == Timed(c, row, a, t) + [Event(s, AccessOf(c, row, s), t + |a|)]
  {
  }

  lemma ReadSlotsSuffix(n: nat, blocks: nat, j: nat)
    requires j < blocks
    ensures (ReadSlots(n, blocks) + BlockSlots(n, j)) + [Read(n, j)] == ReadSlots(n, blocks) + BlockSlots(n, j + 1)
  {
  }

  // ---- The three schedules, spelled out ------------------------------------------------------

  /** Event `k` happens `k` ticks after the start; address space 1 holds the registers, 2 the heap. */
  ghost predicate Happens(events: seq<Event>, start: nat, k: int, space: nat, pointer: nat, isWrite: bool)
  {
    0 <= k < |events| && events[k].access == Access(space, pointer, isWrite) && events[k].time == start + k
  }

  ghost predicate RegistersRead(c: Config, row: Row, start: nat, events: seq<Event>)
    requires RowOf(c, row)
  {
    forall i :: 0 <= i < c.numReads ==> Happens(events, start, i, 1, row.rsPtr[i], false)
  }

  /** Block `j` of read `i`, where the heap reads begin after `first` accesses. */
  ghost predicate BlockRead(c: Config, row: Row, start: nat, events: seq<Event>, first: nat, i: nat, j: nat)
    requires RowOf(c, row) && i < c.numReads
  {
    Happens(events, start, first + i * c.blocksPerRead + j, 2, row.rsVal[i] + j * c.readSize, false)
  }

  ghost predicate HeapRead(c: Config, row: Row, start: nat, events: seq<Event>, first: nat)
    requires RowOf(c, row)
  {
    forall i: nat, j: nat :: i < c.numReads && j < c.blocksPerRead ==> BlockRead(c, row, start, events, first, i, j)
  }

  ghost predicate BlockWritten(c: Config, row: Row, start: nat, events: seq<Event>, first: int, k: nat)
  {
    Happens(events, start, first + k, 2, row.rdVal + k * c.writeSize, true)
  }

  ghost predicate HeapWritten(c: Config, row: Row, start: nat, events: seq<Event>, first: int)
  {
    forall k: nat :: k < c.blocksPerWrite ==> BlockWritten(c, row, start, events, first, k)
  }

  /** What one instruction accesses, adapter by adapter, in the order of its constraints. */
  ghost predicate Scheduled(c: Config, row: Row, start: nat, events: seq<Event>)
    requires RowOf(c, row)
  {
    var n, blocks := c.numReads, c.numReads * c.blocksPerRead;
    && RegistersRead(c, row, start, events)
    && match c.kind
       case VecHeap =>
         && |events| == n + 1 + blocks + c.blocksPerWrite
         && Happens(events, start, n, 1, row.rdPtr, false)
         && HeapRead(c, row, start, events, n + 1)
         && HeapWritten(c, row, start, events, n + 1 + blocks)
       case IsEqualMod =>
         && |events| == n + blocks + 1
         && HeapRead(c, row, start, events, n)
         && Happens(events, start, n + blocks, 1, row.rdPtr, true)
       case Branch =>
         && |events| == n + blocks
         && HeapRead(c, row, start, events, n)
         && forall e :: e in events ==> !e.access.isWrite
  }

  lemma TimedAt(c: Config, row: Row, start: nat, s: Slot)
    requires SlotOk(c, s)
    ensures var a := AccessOf(c, row, s);
      Happens(Timed(c, row, Slots(c), start), start, Position(c, s), a.space, a.pointer, a.isWrite)
  {
    SlotAtPosition(c, s);
  }

  lemma {:induction false} NoWriteInReads(n: nat, blocks: nat, s: Slot)
    requires s in ReadSlots(n, blocks)
    ensures s.Read?
  {
    if n > 0 && s !in BlockSlots(n - 1, blocks) { NoWriteInReads(n - 1, blocks, s); }
  }

  lemma NoWrites(c: Config, row: Row, start: nat, e: Event)
    requires c.kind == Branch && e in Timed(c, row, Slots(c), start)
    ensures !e.access.isWrite
  {
    assert e.slot in Slots(c) && e.access == AccessOf(c, row, e.slot);
    if e.slot in ReadSlots(c.numReads, c.blocksPerRead) { NoWriteInReads(c.numReads, c.blocksPerRead, e.slot); }
  }

  lemma ReadsAreScheduled(c: Config, row: Row, start: nat, events: seq<Event>, first: nat)
    requires RowOf(c, row) && events == Timed(c, row, Slots(c), start) && first == c.numReads + |RdSlots(c)|
    ensures RegistersRead(c, row, start, events) && HeapRead(c, row, start, events, first)
  {
    forall i | 0 <= i < c.numReads ensures Happens(events, start, i, 1, row.rsPtr[i], false) {
      TimedAt(c, row, start, Rs(i));
    }
    forall i: nat, j: nat | i < c.numReads && j < c.blocksPerRead
      ensures BlockRead(c, row, start, events, first, i, j)
    {
      TimedAt(c, row, start, Read(i, j));
    }
  }

  lemma WritesAreScheduled(c: Config, row: Row, start: nat, events: seq<Event>, first: int)
    requires c.kind == VecHeap && events == Timed(c, row, Slots(c), start)
    requires first == c.numReads + 1 + c.numReads * c.blocksPerRead
    ensures HeapWritten(c, row, start, events, first)
  {
    forall k: nat | k < c.blocksPerWrite ensures BlockWritten(c, row, start, events, first, k) {
      TimedAt(c, row, start, Write(k));
    }
  }

  /** The schedule that all parts follow is the one spelled out. */
  lemma SlotsAreScheduled(c: Config, row: Row, start: nat)
    requires RowOf(c, row)
    ensures Scheduled(c, row, start, Timed(c, row, Slots(c), start))
  {
    var events, n, blocks := Timed(c, row, Slots(c), start), c.numReads, c.numReads * c.blocksPerRead;
    ReadsAreScheduled(c, row, start, events, n + |RdSlots(c)|);
    match c.kind {
      case VecHeap =>
        TimedAt(c, row, start, Rd);
        WritesAreScheduled(c, row, start, events, n + 1 + blocks);
      case IsEqualMod =>
        TimedAt(c, row, start, Write(0));
      case Branch =>
        forall e | e in events ensures !e.access.isWrite { NoWrites(c, row, start, e); }
    }
  }

  // ---- The constraints: one counter forwards ------------------------------------------

  ghost predicate Sent(c: Config, row: Row, events: seq<Event>, slots: seq<Slot>, timestamp: nat, delta: nat)
  {
    delta == |slots| && events == Timed(c, row, slots, timestamp)
  }

  method AirRegisters(c: Config, row: Row, timestamp: nat) returns (events: seq<Event>, delta: nat)
    requires RowOf(c, row)
    ensures Sent(c, row, events, RsSlots(c.numReads) + RdSlots(c), timestamp, delta)
  {
    events, delta := [], 0;
    ghost var done: seq<Slot> := [];
    for i := 0 to c.numReads
      invariant done == RsSlots(i) && Sent(c, row, events, done, timestamp, delta)
    {
      TimedAppend(c, row, done, Rs(i), timestamp);
      events := events + [Event(Rs(i), Access(REGISTER_AS, row.rsPtr[i], false), timestamp + delta)];
      delta, done := delta + 1, done + [Rs(i)];
    }
    if c.ReadsRd() {
      TimedAppend(c, row, done, Rd, timestamp);
      events := events + [Event(Rd, Access(REGISTER_AS, row.rdPtr, false), timestamp + delta)];
      delta, done := delta + 1, done + [Rd];
    }
    assert done == RsSlots(c.numReads) + RdSlots(c);
  }

  method AirReads(c: Config, row: Row, timestamp: nat, events0: seq<Event>, delta0: nat, ghost regs: seq<Slot>)
    returns (events: seq<Event>, delta: nat)
    requires RowOf(c, row) && Sent(c, row, events0, regs, timestamp, delta0)
    ensures Sent(c, row, events, regs + ReadSlots(c.numReads, c.blocksPerRead), timestamp, delta)
  {
    events, delta := events0, delta0;
    ghost var done := regs;
    for i := 0 to c.numReads
      invariant done == regs + ReadSlots(i, c.blocksPerRead) && Sent(c, row, events, done, timestamp, delta)
    {
      for j := 0 to c.blocksPerRead
        invariant done == regs + (ReadSlots(i, c.blocksPerRead) + BlockSlots(i, j))
        invariant Sent(c, row, events, done, timestamp, delta)
      {
        TimedAppend(c, row, done, Read(i, j), timestamp);
        ReadSlotsSuffix(i, c.blocksPerRead, j);
        var access := Access(MEMORY_AS, row.rsVal[i] + j * c.readSize, false);
        events := events + [Event(Read(i, j), access, timestamp + delta)];
        delta, done := delta + 1, done + [Read(i, j)];
      }
    }
  }

  /** `eval`: the bus interactions in order, and the total by which the clock advances. */
  method AirEval(c: Config, row: Row, timestamp: nat) returns (events: seq<Event>, delta: nat)
    requires RowOf(c, row)
    ensures events == Timed(c, row, Slots(c), timestamp) && delta == |Slots(c)|
    ensures Scheduled(c, row, timestamp, events)
  {
    SlotsAreScheduled(c, row, timestamp);
    events, delta := AirRegisters(c, row, timestamp);
    ghost var done := RsSlots(c.numReads) + RdSlots(c);
    events, delta := AirReads(c, row, timestamp, events, delta, done);
    done := done + ReadSlots(c.numReads, c.blocksPerRead);
    ghost var heap := done;
    for k := 0 to c.Writes()
      invariant done == heap + WriteSlots(k) && Sent(c, row, events, done, timestamp, delta)
    {
      TimedAppend(c, row, done, Write(k), timestamp);
      assert WriteSlots(k + 1) == WriteSlots(k) + [Write(k)];
      var access := if c.kind == VecHeap then Access(MEMORY_AS, row.rdVal + k * c.writeSize, true)
                    else Access(REGISTER_AS, row.rdPtr, true);
      events := events + [Event(Write(k), access, timestamp + delta)];
      delta, done := delta + 1, done + [Write(k)];
    }
    assert done == Slots(c);
  }

  // ---- The executor: the clock of the memory ---------------------------------------------

  /** The traced memory: each access happens at the current time and advances it by one. */
  class TracingMemory {
    var timestamp: nat
    ghost var trace: seq<Event>

    constructor (timestamp: nat)
      ensures this.timestamp == timestamp && trace == []
    {
      this.timestamp := timestamp;
      trace := [];
    }

    method Traced(slot: Slot, space: nat, pointer: nat, isWrite: bool)
      modifies this
      ensures timestamp == old(timestamp) + 1
      ensures trace == old(trace) + [Event(slot, Access(space, pointer, isWrite), old(timestamp))]
    {
      trace := trace + [Event(slot, Access(space, pointer, isWrite), timestamp)];
      timestamp := timestamp + 1;
    }
  }

  ghost predicate Traces(memory: TracingMemory, c: Config, row: Row, slots: seq<Slot>, start: nat)
    reads memory
  {
    memory.timestamp == start + |slots| && memory.trace == Timed(c, row, slots, start)
  }

  method ExecutorRegisters(memory: TracingMemory, c: Config, row: Row)
    requires RowOf(c, row) && memory.trace == []
    modifies memory
    ensures Traces(memory, c, row, RsSlots(c.numReads) + RdSlots(c), old(memory.timestamp))
  {
    ghost var start := memory.timestamp;
    ghost var done: seq<Slot> := [];
    for i := 0 to c.numReads
      invariant done == RsSlots(i) && Traces(memory, c, row, done, start)
    {
      TimedAppend(c, row, done, Rs(i), start);
      memory.Traced(Rs(i), REGISTER_AS, row.rsPtr[i], false);
      done := done + [Rs(i)];
    }
    if c.ReadsRd() {
      TimedAppend(c, row, done, Rd, start);
      memory.Traced(Rd, REGISTER_AS, row.rdPtr, false);
      done := done + [Rd];
    }
    assert done == RsSlots(c.numReads) + RdSlots(c);
  }

  method ExecutorHeap(memory: TracingMemory, c: Config, row: Row, ghost regs: seq<Slot>, ghost start: nat)
    requires RowOf(c, row) && Traces(memory, c, row, regs, start)
    modifies memory
    ensures Traces(memory, c, row, regs + ReadSlots(c.numReads, c.blocksPerRead), start)
  {
    ghost var done := regs;
    for i := 0 to c.numReads
      invariant done == regs + ReadSlots(i, c.blocksPerRead) && Traces(memory, c, row, done, start)
    {
      for j := 0 to c.blocksPerRead
        invariant done == regs + (ReadSlots(i, c.blocksPerRead) + BlockSlots(i, j))
        invariant Traces(memory, c, row, done, start)
      {
        TimedAppend(c, row, done, Read(i, j), start);
        ReadSlotsSuffix(i, c.blocksPerRead, j);
        memory.Traced(Read(i, j), MEMORY_AS, row.rsVal[i] + j * c.readSize, false);
        done := done + [Read(i, j)];
      }
    }
  }

  /** `read`: the registers, then the blocks that they point to. */
  method ExecutorRead(memory: TracingMemory, c: Config, row: Row)
    requires RowOf(c, row) && memory.trace == []
    modifies memory
    ensures Traces(memory, c, row, RsSlots(c.numReads) + RdSlots(c) + ReadSlots(c.numReads, c.blocksPerRead),
                   old(memory.timestamp))
  {
    ghost var start := memory.timestamp;
    ExecutorRegisters(memory, c, row);
    ExecutorHeap(memory, c, row, RsSlots(c.numReads) + RdSlots(c), start);
  }

  method ExecutorWrite(memory: TracingMemory, c: Config, row: Row, ghost start: nat)
    requires RowOf(c, row)
    requires Traces(memory, c, row, RsSlots(c.numReads) + RdSlots(c) + ReadSlots(c.numReads, c.blocksPerRead), start)
    modifies memory
    ensures Traces(memory, c, row, Slots(c), start) && Scheduled(c, row, start, memory.trace)
  {
    SlotsAreScheduled(c, row, start);
    ghost var heapPart := RsSlots(c.numReads) + RdSlots(c) + ReadSlots(c.numReads, c.blocksPerRead);
    ghost var done := heapPart;
    for k := 0 to c.Writes()
      invariant done == heapPart + WriteSlots(k) && Traces(memory, c, row, done, start)
    {
      TimedAppend(c, row, done, Write(k), start);
      assert WriteSlots(k + 1) == WriteSlots(k) + [Write(k)];
      if c.kind == VecHeap {
        memory.Traced(Write(k), MEMORY_AS, row.rdVal + k * c.writeSize, true);
      } else {
        memory.Traced(Write(k), REGISTER_AS, row.rdPtr, true);
      }
      done := done + [Write(k)];
    }
    assert done == Slots(c);
  }

  // ---- The trace filler: one counter backwards ----------------------------------------------

  datatype Fill = Fill(slot: Slot, time: nat)

  ghost function Fills(slots: seq<Slot>, t: nat): (f: seq<Fill>)
    ensures |f| == |slots|
  {
    seq(|slots|, n requires 0 <= n < |slots| => Fill(slots[n], t + n))
  }

  lemma FillsPrepend(s: Slot, rest: seq<Slot>, t: nat)
    ensures Fills([s] + rest, t) == [Fill(s, t)] + Fills(rest, t + 1)
  {
  }

  lemma BlockSlotsTail(i: nat, j: nat, n: nat)
    requires j < n
    ensures [Read(i, j)] + BlockSlots(i, n)[j + 1..] == BlockSlots(i, n)[j..]
  {
  }

  /** Each group of columns is filled from its last to its first; later fills go in front. */
  method FillWrites(n: nat, end: nat) returns (fills: seq<Fill>, timestamp: nat)
    requires n <= end
    ensures timestamp == end - n && fills == Fills(WriteSlots(n), timestamp)
  {
    fills, timestamp := [], end;
    ghost var done: seq<Slot> := [];
    for k := n downto 0
      invariant done == WriteSlots(n)[k..] && timestamp == end - n + k && fills == Fills(done, timestamp)
    {
      FillsPrepend(Write(k), done, timestamp - 1);
      timestamp := timestamp - 1;
      fills := [Fill(Write(k), timestamp)] + fills;
      done := [Write(k)] + done;
    }
  }

  method FillBlocks(i: nat, blocks: nat, fills0: seq<Fill>, end: nat, ghost after: seq<Slot>)
    returns (fills: seq<Fill>, timestamp: nat)
    requires blocks <= end && fills0 == Fills(after, end)
    ensures timestamp == end - blocks && fills == Fills(BlockSlots(i, blocks) + after, timestamp)
  {
    fills, timestamp := fills0, end;
    ghost var done := after;
    for j := blocks downto 0
      invariant done == BlockSlots(i, blocks)[j..] + after
      invariant timestamp == end - blocks + j && fills == Fills(done, timestamp)
    {
      FillsPrepend(Read(i, j), done, timestamp - 1);
      BlockSlotsTail(i, j, blocks);
      timestamp := timestamp - 1;
      fills := [Fill(Read(i, j), timestamp)] + fills;
      done := [Read(i, j)] + done;
    }
    assert BlockSlots(i, blocks)[0..] == BlockSlots(i, blocks);
  }

  method FillReads(n: nat, blocks: nat, fills0: seq<Fill>, end: nat, ghost after: seq<Slot>)
    returns (fills: seq<Fill>, timestamp: nat)
    requires n * blocks <= end && fills0 == Fills(after, end)
    ensures timestamp == end - n * blocks && fills == Fills(ReadSlots(n, blocks) + after, timestamp)
  {
    fills, timestamp := fills0, end;
    ghost var done := after;
    for i := n downto 0
      invariant ReadSlots(i, blocks) + done == ReadSlots(n, blocks) + after
      invariant 0 <= i * blocks && timestamp == end - n * blocks + i * blocks && fills == Fills(done, timestamp)
    {
      ghost var before := done;
      assert (i + 1) * blocks == i * blocks + blocks && i * blocks >= 0;
      fills, timestamp := FillBlocks(i, blocks, fills, timestamp, done);
      done := BlockSlots(i, blocks) + done;
      assert ReadSlots(i, blocks) + done == ReadSlots(i + 1, blocks) + before;
    }
  }

  method FillRegisters(n: nat, fills0: seq<Fill>, end: nat, ghost after: seq<Slot>)
    returns (fills: seq<Fill>, timestamp: nat)
    requires n <= end && fills0 == Fills(after, end)
    ensures timestamp == end - n && fills == Fills(RsSlots(n) + after, timestamp)
  {
    fills, timestamp := fills0, end;
    ghost var done := after;
    for i := n downto 0
      invariant done == RsSlots(n)[i..] + after && timestamp == end - n + i && fills == Fills(done, timestamp)
    {
      FillsPrepend(Rs(i), done, timestamp - 1);
      timestamp := timestamp - 1;
      fills := [Fill(Rs(i), timestamp)] + fills;
      done := [Rs(i)] + done;
    }
    assert RsSlots(n)[0..] == RsSlots(n);
  }

  /**
   `fill_trace_row`: writes, heap reads, the destination register and the
   source registers, counting down from the total; the countdown ends exactly
   at the start of the instruction.
   */
  method FillTraceRow(c: Config, fromTimestamp: nat) returns (fills: seq<Fill>, timestamp: nat)
    ensures fills == Fills(Slots(c), fromTimestamp) && timestamp == fromTimestamp
    ensures |fills| == c.numReads + c.numReads * c.blocksPerRead +
      match c.kind case VecHeap => 1 + c.blocksPerWrite case IsEqualMod => 1 case Branch => 0
  {
    var n, blocks := c.numReads, c.blocksPerRead;
    assert |ReadSlots(n, blocks)| == n * blocks;
    timestamp := fromTimestamp + n + |RdSlots(c)| + n * blocks + c.Writes();
    ghost var done := WriteSlots(c.Writes());
    fills, timestamp := FillWrites(c.Writes(), timestamp);
    fills, timestamp := FillReads(n, blocks, fills, timestamp, done);
    done := ReadSlots(n, blocks) + done;
    if c.ReadsRd() {
      FillsPrepend(Rd, done, timestamp - 1);
      timestamp := timestamp - 1;
      fills := [Fill(Rd, timestamp)] + fills;
    }
    done := RdSlots(c) + done;
    fills, timestamp := FillRegisters(n, fills, timestamp, done);
    assert RsSlots(n) + done == Slots(c);
  }

  /**
   One instruction through all three: the constraints, the executor and the
   filler give every access the same address and the same time, and the next
   instruction starts where the constraints say.
   */
  method OneInstruction(c: Config, row: Row, timestamp: nat)
    returns (events: seq<Event>, fills: seq<Fill>, ghost trace: seq<Event>, next: nat)
    requires RowOf(c, row)
    ensures events == trace && |fills| == |events|
    ensures forall n :: 0 <= n < |events| ==> fills[n] == Fill(events[n].slot, events[n].time)
    ensures next == timestamp + |events| && Scheduled(c, row, timestamp, events)
    ensures forall s :: SlotOk(c, s) ==>
      0 <= Position(c, s) < |events|
      && events[Position(c, s)] == Event(s, AccessOf(c, row, s), timestamp + Position(c, s))
  {
    var delta, end;
    events, delta := AirEval(c, row, timestamp);
    var memory := new TracingMemory(timestamp);
    ExecutorRead(memory, c, row);
    ExecutorWrite(memory, c, row, timestamp);
    trace, next := memory.trace, memory.timestamp;
    fills, end := FillTraceRow(c, timestamp);
    forall s | SlotOk(c, s)
      ensures 0 <= Position(c, s) < |events|
      ensures events[Position(c, s)] == Event(s, AccessOf(c, row, s), timestamp + Position(c, s))
    {
      SlotAtPosition(c, s);
    }
  }

  // ---- Range checks -------------------------------------------------------------------------

  type Pair = (nat, nat)

  /** The highest byte of a 32-bit register value, shifted up. */
  function Scaled(v: nat, shift: nat): (x: nat)
  {
    PowPos(2, shift);
    (v / 0x100_0000) * Pow(2, shift)
  }

  function ChunksExact(xs: seq<nat>): seq<Pair>
  {
    if |xs| < 2 then [] else [(xs[0], xs[1])] + ChunksExact(xs[2..])
  }

  function ChunksPadded(xs: seq<nat>): seq<Pair>
  {
    if xs == [] then [] else if |xs| == 1 then [(xs[0], 0)] else [(xs[0], xs[1])] + ChunksPadded(xs[2..])
  }

  function AllScaled(vals: seq<nat>, shift: nat): (xs: seq<nat>)
    ensures |xs| == |vals|
  {
    seq(|vals|, i requires 0 <= i < |vals| => Scaled(vals[i], shift))
  }

  /** The range checks that the constraints send. */
  function AirChecks(kind: Kind, rsVal: seq<nat>, rdVal: nat, shift: nat): seq<Pair>
  {
    var rs := AllScaled(rsVal, shift);
    match kind
    case VecHeap => ChunksExact(rs + [Scaled(rdVal, shift), Scaled(rdVal, shift)])
    case Branch => ChunksPadded(rs)
    case IsEqualMod => [(if |rs| > 0 then rs[0] else 0, if |rs| > 1 then rs[1] else 0)]
  }

  /** The range checks that the filler requests; it indexes the first value unconditionally. */
  function FillerChecks(kind: Kind, rsVal: seq<nat>, rdVal: nat, shift: nat): seq<Pair>
    requires |rsVal| >= 1
  {
    var rs, rd := AllScaled(rsVal, shift), Scaled(rdVal, shift);
    if kind == VecHeap then
      if |rs| > 1 then [(rs[0], rs[1]), (rd, rd)] else [(rs[0], rd)]
    else [(rs[0], if |rs| > 1 then rs[1] else 0)]
  }

  ghost predicate ChecksAgree(kind: Kind, rsVal: seq<nat>, rdVal: nat, shift: nat)
    requires |rsVal| >= 1
  {
    AirChecks(kind, rsVal, rdVal, shift) == FillerChecks(kind, rsVal, rdVal, shift)
  }

  lemma {:induction false} ChunkCounts(xs: seq<nat>)
    ensures |ChunksExact(xs)| == |xs| / 2 && |ChunksPadded(xs)| == (|xs| + 1) / 2
    decreases |xs|
  {
    if |xs| >= 2 { ChunkCounts(xs[2..]); }
  }

  lemma ChecksUpToTwo(kind: Kind, rsVal: seq<nat>, rdVal: nat, shift: nat)
    requires 1 <= |rsVal| <= 2 || (kind == IsEqualMod && |rsVal| >= 1)
    ensures ChecksAgree(kind, rsVal, rdVal, shift)
  {
    var rs, rd := AllScaled(rsVal, shift), Scaled(rdVal, shift);
    if kind == VecHeap {
      var xs := rs + [rd, rd];
      assert ChunksExact(xs) == [(xs[0], xs[1])] + ChunksExact(xs[2..]);
      if |rs| == 2 {
        assert xs[2..] == [rd, rd] && [rd, rd][2..] == [];
        assert ChunksExact([rd, rd]) == [(rd, rd)] + ChunksExact([]);
      }
    } else if kind == Branch && |rs| == 2 {
      assert rs[2..] == [];
      assert ChunksPadded(rs) == [(rs[0], rs[1])] + ChunksPadded([]);
    }
  }

  /**
   Both sides check the same pairs for every register content exactly when
   there are at most two reads; the is-equal adapter checks two values only on
   either side, whatever the number.
   */
  lemma ChecksAgreeIff(kind: Kind, numReads: nat, shift: nat)
    requires numReads >= 1
    ensures (forall rsVal: seq<nat>, rdVal: nat :: |rsVal| == numReads ==> ChecksAgree(kind, rsVal, rdVal, shift))
       <==> numReads <= 2 || kind == IsEqualMod
  {
    if numReads <= 2 || kind == IsEqualMod {
      forall rsVal: seq<nat>, rdVal: nat | |rsVal| == numReads ensures ChecksAgree(kind, rsVal, rdVal, shift) {
        ChecksUpToTwo(kind, rsVal, rdVal, shift);
      }
    } else {
      ChecksDiffer(kind, numReads, shift);
    }
  }

  lemma ChecksDiffer(kind: Kind, numReads: nat, shift: nat)
    requires numReads >= 3 && kind != IsEqualMod
    ensures exists rsVal: seq<nat>, rdVal: nat :: |rsVal| == numReads && !ChecksAgree(kind, rsVal, rdVal, shift)
  {
    var rsVal: seq<nat> := seq(numReads, i => if i == 2 then 0x100_0000 else 0);
    var rs, rd := AllScaled(rsVal, shift), Scaled(0, shift);
    PowPos(2, shift);
    ChunkCounts(rs + [rd, rd]);
    ChunkCounts(rs);
    if kind == VecHeap {
      var xs := rs + [rd, rd];
      assert ChunksExact(xs)[1] == ChunksExact(xs[2..])[0] == (xs[2], xs[3]);
      assert xs[2] == Pow(2, shift) && rd == 0;
    }
    assert !ChecksAgree(kind, rsVal, 0, shift);
  }

  /** The check on the top byte bounds the whole pointer. */
  lemma RangeCheckBounds(v: nat, shift: nat)
    requires v < 0x1_0000_0000 && shift <= 8
    ensures Scaled(v, shift) < 256 <==> v < Pow(2, 32 - shift)
  {
    var top, f, g := v / 0x100_0000, Pow(2, shift), Pow(2, 8 - shift);
    PowersOfTwo();
    PowAdd(2, shift, 8 - shift);
    PowAdd(2, 24, 8 - shift);
    PowPos(2, shift);
    assert g * f == 256;
    if top < g { MulStrict(top, g, f); } else { MulMono(g, top, f); }
  }

  lemma PowersOfTwo()
    ensures Pow(2, 0) == 1 && Pow(2, 1) == 2 && Pow(2, 2) == 4 && Pow(2, 3) == 8 && Pow(2, 4) == 16
    ensures Pow(2, 5) == 32 && Pow(2, 6) == 64 && Pow(2, 7) == 128 && Pow(2, 8) == 256
    ensures Pow(2, 24) == 0x100_0000 && Pow(2, 25) == 0x200_0000 && Pow(2, 26) == 0x400_0000
    ensures Pow(2, 27) == 0x800_0000 && Pow(2, 28) == 0x1000_0000 && Pow(2, 29) == 0x2000_0000
    ensures Pow(2, 30) == 0x4000_0000 && Pow(2, 31) == 0x8000_0000 && Pow(2, 32) == 0x1_0000_0000
  {
    assert Pow(2, 8) == 256;
    PowAdd(2, 8, 8);
    PowAdd(2, 16, 8);
  }

  ghost predicate AllBytes(pairs: seq<Pair>)
  {
    forall n :: 0 <= n < |pairs| ==> pairs[n].0 < 256 && pairs[n].1 < 256
  }

  ghost predicate BytesUpTo(xs: seq<nat>, n: int)
    requires n <= |xs|
  {
    forall k :: 0 <= k < n ==> xs[k] < 256
  }

  lemma BytesSplit(xs: seq<nat>, n: nat)
    requires 2 <= n <= |xs|
    ensures BytesUpTo(xs, n) <==> xs[0] < 256 && xs[1] < 256 && BytesUpTo(xs[2..], n - 2)
  {
    if xs[0] < 256 && xs[1] < 256 && BytesUpTo(xs[2..], n - 2) {
      forall k | 0 <= k < n ensures xs[k] < 256 {
        if k >= 2 { assert xs[k] == xs[2..][k - 2]; }
      }
    }
  }

  lemma PairsSplit(pair: Pair, pairs: seq<Pair>)
    ensures AllBytes([pair] + pairs) <==> pair.0 < 256 && pair.1 < 256 && AllBytes(pairs)
  {
    var all := [pair] + pairs;
    assert all[0] == pair && all[1..] == pairs;
    forall n | 0 <= n < |pairs| ensures pairs[n] == all[n + 1] {}
  }

  lemma {:induction false} ExactCover(xs: seq<nat>)
    ensures AllBytes(ChunksExact(xs)) <==> BytesUpTo(xs, |xs| - |xs| % 2)
    decreases |xs|
  {
    if |xs| >= 2 {
      ExactCover(xs[2..]);
      PairsSplit((xs[0], xs[1]), ChunksExact(xs[2..]));
      BytesSplit(xs, |xs| - |xs| % 2);
    }
  }

  lemma {:induction false} PaddedCover(xs: seq<nat>)
    ensures AllBytes(ChunksPadded(xs)) <==> BytesUpTo(xs, |xs|)
    decreases |xs|
  {
    if |xs| >= 2 {
      PaddedCover(xs[2..]);
      PairsSplit((xs[0], xs[1]), ChunksPadded(xs[2..]));
      BytesSplit(xs, |xs|);
    } else if |xs| == 1 {
      assert ChunksPadded(xs)[0] == (xs[0], 0);
    }
  }

  ghost predicate Bounded(v: nat, shift: nat)
    requires shift <= 8
  {
    v < Pow(2, 32 - shift)
  }

  /**
   The range checks of the constraints pass exactly when every pointer they are
   for is within the address bits: all of them, and for the is-equal adapter the
   first two.
   */
  lemma ChecksBoundPointers(kind: Kind, rsVal: seq<nat>, rdVal: nat, shift: nat)
    requires shift <= 8 && rdVal < 0x1_0000_0000 && forall i :: 0 <= i < |rsVal| ==> rsVal[i] < 0x1_0000_0000
    ensures AllBytes(AirChecks(kind, rsVal, rdVal, shift)) <==>
      && (forall i :: 0 <= i < |rsVal| && (kind == IsEqualMod ==> i < 2) ==> Bounded(rsVal[i], shift))
      && (kind == VecHeap ==> Bounded(rdVal, shift))
  {
    var rs, rd := AllScaled(rsVal, shift), Scaled(rdVal, shift);
    ScaledBounds(rsVal, shift);
    RangeCheckBounds(rdVal, shift);
    match kind {
      case VecHeap => ExactBounds(rs, rd);
      case Branch => PaddedCover(rs);
      case IsEqualMod =>
        var checks := AirChecks(kind, rsVal, rdVal, shift);
        assert AllBytes(checks) <==> checks[0].0 < 256 && checks[0].1 < 256;
    }
  }

  lemma ScaledBounds(vals: seq<nat>, shift: nat)
    requires shift <= 8 && forall i :: 0 <= i < |vals| ==> vals[i] < 0x1_0000_0000
    ensures forall i :: 0 <= i < |vals| ==> (AllScaled(vals, shift)[i] < 256 <==> Bounded(vals[i], shift))
  {
    forall i | 0 <= i < |vals| ensures AllScaled(vals, shift)[i] < 256 <==> Bounded(vals[i], shift) {
      RangeCheckBounds(vals[i], shift);
    }
  }

  /** With an odd number of values the last one is left over, and it is the repeated one. */
  lemma ExactBounds(rs: seq<nat>, rd: nat)
    ensures AllBytes(ChunksExact(rs + [rd, rd])) <==> BytesUpTo(rs, |rs|) && rd < 256
  {
    var xs := rs + [rd, rd];
    ExactCover(xs);
    BytesWithRepeated(rs, rd, |xs| - |xs| % 2);
  }

  lemma BytesWithRepeated(rs: seq<nat>, rd: nat, n: nat)
    requires |rs| < n <= |rs| + 2
    ensures BytesUpTo(rs + [rd, rd], n) <==> BytesUpTo(rs, |rs|) && rd < 256
  {
    var xs := rs + [rd, rd];
    if BytesUpTo(xs, n) {
      assert xs[|rs|] == rd;
      forall i | 0 <= i < |rs| ensures rs[i] < 256 { assert xs[i] == rs[i]; }
    }
    if BytesUpTo(rs, |rs|) && rd < 256 {
      forall i | 0 <= i < n ensures xs[i] < 256 { assert xs[i] == if i < |rs| then rs[i] else rd; }
    }
  }

  /** With fewer than 24 address bits the check lets pointers through that are too large. */
  lemma RangeCheckIff(shift: nat)
    requires shift <= 32
    ensures (forall v: nat :: v < 0x1_0000_0000 ==> (Scaled(v, shift) < 256 <==> v < Pow(2, 32 - shift)))
       <==> shift <= 8
  {
    if shift <= 8 {
      forall v: nat | v < 0x1_0000_0000 ensures Scaled(v, shift) < 256 <==> v < Pow(2, 32 - shift) {
        RangeCheckBounds(v, shift);
      }
    } else {
      PowersOfTwo();
      PowMono(2, 32 - shift, 23);
      assert Pow(2, 24) == 2 * Pow(2, 23);
      var v: nat := 0xff_ffff;
      assert Scaled(v, shift) == 0 * Pow(2, shift) == 0;
    }
  }
}
