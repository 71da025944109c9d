/** Request bodies kept in memory or in a temporary file behind one interface. */
module BodyStorage {
  import opened DiskCache
  import opened Sequences

  datatype Whence = FromStart | FromCurrent | FromEnd | Unknown

  datatype Op = Read(size: nat) | Seek(offset: int, whence: Whence) | GetBytes | Close

  datatype Outcome =
    | Got(bytes: seq<byte>)     // a read that returned bytes, possibly none
    | EndOfFile
    | MovedTo(position: int)
    | SeekFailed
    | Whole(bytes: seq<byte>)
    | ReadFailed
    | IsClosed
    | Done

  /** Where a seek leads, negative when it leads nowhere. */
  function Target(position: int, length: int, offset: int, whence: Whence): int {
    match whence
    case FromStart => offset
    case FromCurrent => position + offset
    case FromEnd => length + offset
    case Unknown => -1
  }

  function Chunk(data: seq<byte>, position: nat, size: nat): seq<byte>
    requires position <= |data|
  {
    if position + size <= |data| then data[position..position + size] else data[position..]
  }

  // ----- In memory: a byte slice and the reader over it -----

  datatype Memory = Memory(data: seq<byte>, position: nat, closed: bool)

  /** A reader at the end reports end of file even to an empty read. */
  function MemoryOutcome(m: Memory, op: Op): Outcome {
    if op.Close? then Done
    else if m.closed then IsClosed
    else if op.Read? then
      if m.position >= |m.data| then EndOfFile else Got(Chunk(m.data, m.position, op.size))
    else if op.Seek? then
      var target := Target(m.position, |m.data|, op.offset, op.whence);
      if target < 0 then SeekFailed else MovedTo(target)
    else Whole(m.data)
  }

  function MemoryStep(m: Memory, op: Op): Memory {
    if op.Close? then m.(closed := true)
    else match MemoryOutcome(m, op)
      case Got(bytes) => m.(position := m.position + |bytes|)
      case MovedTo(target) => if target >= 0 then m.(position := target) else m
      case _ => m
  }

  // ----- On disk: a file with its own cursor -----

  datatype File = File(content: seq<byte>, cursor: nat) {
    /** An empty read of a file returns nothing and no error. */
    function ReadOutcome(size: nat): Outcome {
      if size == 0 then Got([])
      else if cursor >= |content| then EndOfFile
      else Got(Chunk(content, cursor, size))
    }

    function AfterRead(size: nat): File {
      var r := ReadOutcome(size);
      if r.Got? then File(content, cursor + |r.bytes|) else this
    }

    function SeekOutcome(offset: int, whence: Whence): Outcome {
      var target := Target(cursor, |content|, offset, whence);
      if target < 0 then SeekFailed else MovedTo(target)
    }

    function AfterSeek(offset: int, whence: Whence): File {
      var target := Target(cursor, |content|, offset, whence);
      if target < 0 then this else File(content, target)
    }
  }

  datatype Disk = Disk(file: File, size: nat, closed: bool)

  /** Reading everything: note the cursor, rewind, read the recorded size in full, and go back. */
  function WholeFile(d: Disk): (Outcome, File) {
    var back := d.file.cursor;
    var rewound := d.file.AfterSeek(0, FromStart);
    if d.size == 0 then (Whole([]), rewound.AfterSeek(back, FromStart))
    else
      var r, read := rewound.ReadOutcome(d.size), rewound.AfterRead(d.size);
      if r.Got? && |r.bytes| == d.size then (Whole(r.bytes), read.AfterSeek(back, FromStart)) else (ReadFailed, read)
  }

  function DiskOutcome(d: Disk, op: Op): Outcome {
    if op.Close? then Done
    else if d.closed then IsClosed
    else if op.Read? then d.file.ReadOutcome(op.size)
    else if op.Seek? then d.file.SeekOutcome(op.offset, op.whence)
    else WholeFile(d).0
  }

  function DiskStep(d: Disk, op: Op): Disk {
    if op.Close? then d.(closed := true)
    else if d.closed then d
    else if op.Read? then d.(file := d.file.AfterRead(op.size))
    else if op.Seek? then d.(file := d.file.AfterSeek(op.offset, op.whence))
    else d.(file := WholeFile(d).1)
  }

  // ----- The storage objects -----

  class MemoryStorage {
    var state: Memory
    const counters: Counters

    constructor (data: seq<byte>, counters: Counters)
      modifies counters
      ensures state == Memory(data, 0, false) && this.counters == counters
      ensures counters.stats == Opened(old(counters.stats), false, |data|)
    {
      state := Memory(data, 0, false);
      this.counters := counters;
      new;
      counters.Increment(false, |data|);
    }

    method ReadNext(size: nat) returns (r: Outcome)
      modifies this
      ensures r == MemoryOutcome(old(state), Read(size)) && state == MemoryStep(old(state), Read(size))
    {
      if state.closed {
        return IsClosed;
      }
      if state.position >= |state.data| {
        return EndOfFile;
      }
      var bytes := Chunk(state.data, state.position, size);
      state := state.(position := state.position + |bytes|);
      return Got(bytes);
    }

    method SeekTo(offset: int, whence: Whence) returns (r: Outcome)
      modifies this
      ensures r == MemoryOutcome(old(state), Seek(offset, whence))
      ensures state == MemoryStep(old(state), Seek(offset, whence))
    {
      if state.closed {
        return IsClosed;
      }
      var target := Target(state.position, |state.data|, offset, whence);
      if target < 0 {
        return SeekFailed;
      }
      state := state.(position := target);
      return MovedTo(target);
    }

    method Bytes() returns (r: Outcome)
      ensures r == MemoryOutcome(state, GetBytes)
    {
      return if state.closed then IsClosed else Whole(state.data);
    }

    method CloseBody()
      modifies this, counters
      ensures state == MemoryStep(old(state), Close)
      ensures counters.stats ==
        if old(state).closed then old(counters.stats) else Closed(old(counters.stats), false, |old(state).data|)
    {
      if !state.closed {
        state := state.(closed := true);
        counters.Decrement(false, |state.data|);
      }
    }
  }

  class DiskStorage {
    var state: Disk
    const counters: Counters

    constructor (data: seq<byte>, counters: Counters)
      modifies counters
      ensures state == Disk(File(data, 0), |data|, false) && this.counters == counters
      ensures counters.stats == Opened(old(counters.stats), true, |data|)
    {
      state := Disk(File(data, 0), |data|, false);
      this.counters := counters;
      new;
      counters.Increment(true, |data|);
    }

    method ReadNext(size: nat) returns (r: Outcome)
      modifies this
      ensures r == DiskOutcome(old(state), Read(size)) && state == DiskStep(old(state), Read(size))
    {
      if state.closed {
        return IsClosed;
      }
      r := state.file.ReadOutcome(size);
      state := state.(file := state.file.AfterRead(size));
    }

    method SeekTo(offset: int, whence: Whence) returns (r: Outcome)
      modifies this
      ensures r == DiskOutcome(old(state), Seek(offset, whence)) && state == DiskStep(old(state), Seek(offset, whence))
    {
      if state.closed {
        return IsClosed;
      }
      r := state.file.SeekOutcome(offset, whence);
      state := state.(file := state.file.AfterSeek(offset, whence));
    }

    method Bytes() returns (r: Outcome)
      modifies this
      ensures r == DiskOutcome(old(state), GetBytes) && state == DiskStep(old(state), GetBytes)
    {
      if state.closed {
        return IsClosed;
      }
      var back := state.file.cursor;
      state := state.(file := state.file.AfterSeek(0, FromStart));
      var data: seq<byte> := [];
      if state.size > 0 {
        var chunk := state.file.ReadOutcome(state.size);
        state := state.(file := state.file.AfterRead(state.size));
        if !chunk.Got? || |chunk.bytes| != state.size {
          return ReadFailed;
        }
        data := chunk.bytes;
      }
      state := state.(file := state.file.AfterSeek(back, FromStart));
      return Whole(data);
    }

    method CloseBody()
      modifies this, counters
      ensures state == DiskStep(old(state), Close)
      ensures counters.stats ==
        if old(state).closed then old(counters.stats) else Closed(old(counters.stats), true, old(state).size)
    {
      if !state.closed {
        state := state.(closed := true);
        counters.Decrement(true, state.size);
      }
    }
  }

  // ----- Both behave like one body -----

  ghost predicate SameBody(m: Memory, d: Disk) {
    && d.file.content == m.data && d.size == |m.data|
    && d.file.cursor == m.position && d.closed == m.closed
  }

  /** The one request the two answer differently: an empty read of an open body at or past its end. */
  predicate EmptyReadAtEnd(m: Memory, op: Op) {
    op == Read(0) && !m.closed && m.position >= |m.data|
  }

  lemma StepsAgree(m: Memory, d: Disk, op: Op)
    requires SameBody(m, d)
    ensures SameBody(MemoryStep(m, op), DiskStep(d, op))
    ensures MemoryOutcome(m, op) == DiskOutcome(d, op) <==> !EmptyReadAtEnd(m, op)
    ensures op.GetBytes? && !m.closed ==> DiskOutcome(d, op) == Whole(m.data) && DiskStep(d, op) == d
  {
    if op.GetBytes? && d.size > 0 {
      assert Chunk(m.data, 0, |m.data|) == m.data;
    }
  }

  function MemoryRun(m: Memory, ops: seq<Op>): seq<Outcome>
    decreases |ops|
  {
    if ops == [] then [] else [MemoryOutcome(m, ops[0])] + MemoryRun(MemoryStep(m, ops[0]), ops[1..])
  }

  function DiskRun(d: Disk, ops: seq<Op>): seq<Outcome>
    decreases |ops|
  {
    if ops == [] then [] else [DiskOutcome(d, ops[0])] + DiskRun(DiskStep(d, ops[0]), ops[1..])
  }

  /** No step of the run is an empty read at or past the end. */
  ghost predicate NoEmptyReadAtEnd(m: Memory, ops: seq<Op>)
    decreases |ops|
  {
    ops == [] || (!EmptyReadAtEnd(m, ops[0]) && NoEmptyReadAtEnd(MemoryStep(m, ops[0]), ops[1..]))
  }

  /** Any sequence of operations on the same body is answered alike if and only if it has no such read. */
  lemma {:induction false} RunsAgree(m: Memory, d: Disk, ops: seq<Op>)
    requires SameBody(m, d)
    ensures MemoryRun(m, ops) == DiskRun(d, ops) <==> NoEmptyReadAtEnd(m, ops)
    decreases |ops|
  {
    if ops != [] {
      StepsAgree(m, d, ops[0]);
      RunsAgree(MemoryStep(m, ops[0]), DiskStep(d, ops[0]), ops[1..]);
      assert MemoryRun(m, ops)[0] == MemoryOutcome(m, ops[0]) && DiskRun(d, ops)[0] == DiskOutcome(d, ops[0]);
      assert MemoryRun(m, ops)[1..] == MemoryRun(MemoryStep(m, ops[0]), ops[1..]);
      assert DiskRun(d, ops)[1..] == DiskRun(DiskStep(d, ops[0]), ops[1..]);
    }
  }

  /** In particular runs of non-empty reads, seeks, whole reads and closes cannot tell the two apart. */
  lemma {:induction false} NonEmptyReadsAgree(m: Memory, ops: seq<Op>)
    requires forall i | 0 <= i < |ops| :: ops[i] != Read(0)
    ensures NoEmptyReadAtEnd(m, ops)
    decreases |ops|
  {
    if ops != [] {
      NonEmptyReadsAgree(MemoryStep(m, ops[0]), ops[1..]);
    }
  }

  // ----- What a reader gets -----

  function BytesOf(r: Outcome): seq<byte> {
    if r.Got? then r.bytes else []
  }

  /** The bytes handed out by the reads among these outcomes. */
  function Gathered(outcomes: seq<Outcome>): seq<byte> {
    if outcomes == [] then []
    else BytesOf(outcomes[0]) + Gathered(outcomes[1..])
  }

  function Reads(sizes: seq<nat>): seq<Op> {
    if sizes == [] then [] else [Read(sizes[0])] + Reads(sizes[1..])
  }

  function Sum(sizes: seq<nat>): nat {
    if sizes == [] then 0 else sizes[0] + Sum(sizes[1..])
  }

  /** Where a read of `size` bytes leaves the cursor. */
  function Advance(length: nat, position: nat, size: nat): nat {
    if position >= length then position else if position + size <= length then position + size else length
  }

  /** The content between two cursors; there is none past the end. */
  function Between(data: seq<byte>, from: nat, to: nat): seq<byte> {
    if from <= to <= |data| then data[from..to] else []
  }

  /** At most `size` bytes from a position on, none past the end. */
  function Slice(data: seq<byte>, position: nat, size: nat): seq<byte> {
    Between(data, position, Advance(|data|, position, size))
  }

  lemma BetweenSplit(data: seq<byte>, a: nat, b: nat, c: nat)
    requires a <= b <= c && (a == b == c || c <= |data|)
    ensures Between(data, a, b) + Between(data, b, c) == Between(data, a, c)
  {
  }

  /** Where reads of these sizes leave the cursor. */
  function AdvanceAll(length: nat, position: nat, sizes: seq<nat>): nat
    decreases |sizes|
  {
    if sizes == [] then position else AdvanceAll(length, Advance(length, position, sizes[0]), sizes[1..])
  }

  lemma {:induction false} AdvanceSum(length: nat, position: nat, sizes: seq<nat>)
    ensures AdvanceAll(length, position, sizes) == Advance(length, position, Sum(sizes))
    decreases |sizes|
  {
    if sizes != [] {
      AdvanceSum(length, Advance(length, position, sizes[0]), sizes[1..]);
    }
  }

  lemma MemoryReadOnce(m: Memory, size: nat)
    requires !m.closed
    ensures
      var next := Advance(|m.data|, m.position, size);
      && MemoryStep(m, Read(size)) == m.(position := next)
      && BytesOf(MemoryOutcome(m, Read(size))) == Between(m.data, m.position, next)
  {
  }

  lemma DiskReadOnce(d: Disk, size: nat)
    requires !d.closed
    ensures
      var file := d.file;
      var next := Advance(|file.content|, file.cursor, size);
      && DiskStep(d, Read(size)) == d.(file := file.(cursor := next))
      && BytesOf(DiskOutcome(d, Read(size))) == Between(file.content, file.cursor, next)
  {
  }

  lemma GatheredNext(r: Outcome, rest: seq<Outcome>)
    ensures Gathered([r] + rest) == BytesOf(r) + Gathered(rest)
  {
    assert ([r] + rest)[1..] == rest;
  }

  lemma MemoryReadNext(m: Memory, size: nat, rest: seq<Op>)
    requires !m.closed
    ensures
      var m' := m.(position := Advance(|m.data|, m.position, size));
      Gathered(MemoryRun(m, [Read(size)] + rest)) ==
      Between(m.data, m.position, m'.position) + Gathered(MemoryRun(m', rest))
  {
    MemoryReadOnce(m, size);
    assert ([Read(size)] + rest)[1..] == rest;
    GatheredNext(MemoryOutcome(m, Read(size)), MemoryRun(MemoryStep(m, Read(size)), rest));
  }

  lemma DiskReadNext(d: Disk, size: nat, rest: seq<Op>)
    requires !d.closed
    ensures
      var file := d.file;
      var d' := d.(file := file.(cursor := Advance(|file.content|, file.cursor, size)));
      Gathered(DiskRun(d, [Read(size)] + rest)) ==
      Between(file.content, file.cursor, d'.file.cursor) + Gathered(DiskRun(d', rest))
  {
    DiskReadOnce(d, size);
    assert ([Read(size)] + rest)[1..] == rest;
    GatheredNext(DiskOutcome(d, Read(size)), DiskRun(DiskStep(d, Read(size)), rest));
  }

  lemma {:induction false} MemoryHands(m: Memory, sizes: seq<nat>)
    requires !m.closed
    ensures Gathered(MemoryRun(m, Reads(sizes))) ==
      Between(m.data, m.position, AdvanceAll(|m.data|, m.position, sizes))
    decreases |sizes|
  {
    if sizes != [] {
      var next := Advance(|m.data|, m.position, sizes[0]);
      MemoryReadNext(m, sizes[0], Reads(sizes[1..]));
      MemoryHands(m.(position := next), sizes[1..]);
      AdvanceSum(|m.data|, next, sizes[1..]);
      BetweenSplit(m.data, m.position, next, AdvanceAll(|m.data|, next, sizes[1..]));
    }
  }

  lemma {:induction false} DiskHands(d: Disk, sizes: seq<nat>)
    requires !d.closed
    ensures
      var content, cursor := d.file.content, d.file.cursor;
      Gathered(DiskRun(d, Reads(sizes))) == Between(content, cursor, AdvanceAll(|content|, cursor, sizes))
    decreases |sizes|
  {
    if sizes != [] {
      var content, cursor := d.file.content, d.file.cursor;
      var next := Advance(|content|, cursor, sizes[0]);
      DiskReadNext(d, sizes[0], Reads(sizes[1..]));
      DiskHands(d.(file := d.file.(cursor := next)), sizes[1..]);
      AdvanceSum(|content|, next, sizes[1..]);
      BetweenSplit(content, cursor, next, AdvanceAll(|content|, next, sizes[1..]));
    }
  }

  /** Reads of any sizes hand out the content from the cursor on, in order, nothing lost or repeated. */
  lemma MemoryReadsGather(m: Memory, sizes: seq<nat>)
    requires !m.closed
    ensures Gathered(MemoryRun(m, Reads(sizes))) == Slice(m.data, m.position, Sum(sizes))
  {
    MemoryHands(m, sizes);
    AdvanceSum(|m.data|, m.position, sizes);
  }

  lemma DiskReadsGather(d: Disk, sizes: seq<nat>)
    requires !d.closed
    ensures Gathered(DiskRun(d, Reads(sizes))) == Slice(d.file.content, d.file.cursor, Sum(sizes))
  {
    DiskHands(d, sizes);
    AdvanceSum(|d.file.content|, d.file.cursor, sizes);
  }

  function MemoryAfter(m: Memory, ops: seq<Op>): Memory
    decreases |ops|
  {
    if ops == [] then m else MemoryAfter(MemoryStep(m, ops[0]), ops[1..])
  }

  function DiskAfter(d: Disk, ops: seq<Op>): Disk
    decreases |ops|
  {
    if ops == [] then d else DiskAfter(DiskStep(d, ops[0]), ops[1..])
  }

  lemma {:induction false} AfterAgree(m: Memory, d: Disk, ops: seq<Op>)
    requires SameBody(m, d)
    ensures SameBody(MemoryAfter(m, ops), DiskAfter(d, ops))
    ensures MemoryAfter(m, ops).data == m.data
    ensures !m.closed && Close !in ops ==> !MemoryAfter(m, ops).closed
    decreases |ops|
  {
    if ops != [] {
      StepsAgree(m, d, ops[0]);
      AfterAgree(MemoryStep(m, ops[0]), DiskStep(d, ops[0]), ops[1..]);
      assert ops == [ops[0]] + ops[1..];
    }
  }

  /** Where a seek of an open body must lead; nowhere for a mode that is not one of the three. */
  ghost predicate LeadsTo(position: nat, length: nat, offset: int, whence: Whence, target: int) {
    match whence
    case FromStart => target == offset
    case FromCurrent => target - position == offset
    case FromEnd => target - length == offset
    case Unknown => false
  }

  /** A body can be read again: after any use that does not close it, a seek from the start, the cursor or the end and
      reads give the content from there on, in either storage. A seek that leads before the start fails and moves
      nothing. */
  lemma Rereadable(m: Memory, d: Disk, used: seq<Op>, offset: int, whence: Whence, target: int, sizes: seq<nat>)
    requires SameBody(m, d) && !m.closed && Close !in used
    ensures
      var m', d' := MemoryAfter(m, used), DiskAfter(d, used);
      var seek := Seek(offset, whence);
      if LeadsTo(m'.position, |m.data|, offset, whence, target) && target >= 0 then
        && MemoryOutcome(m', seek) == MovedTo(target) == DiskOutcome(d', seek)
        && Gathered(MemoryRun(MemoryStep(m', seek), Reads(sizes))) == Slice(m.data, target, Sum(sizes))
        && Gathered(DiskRun(DiskStep(d', seek), Reads(sizes))) == Slice(m.data, target, Sum(sizes))
      else if whence == Unknown || LeadsTo(m'.position, |m.data|, offset, whence, target) then
        && MemoryOutcome(m', seek) == SeekFailed == DiskOutcome(d', seek)
        && MemoryStep(m', seek) == m' && DiskStep(d', seek) == d'
      else true
  {
    AfterAgree(m, d, used);
    var m', d' := MemoryAfter(m, used), DiskAfter(d, used);
    var m'', d'' := MemoryStep(m', Seek(offset, whence)), DiskStep(d', Seek(offset, whence));
    MemoryReadsGather(m'', sizes);
    DiskReadsGather(d'', sizes);
  }

  /** A read that asks for something reports the end exactly when nothing is left, in either storage. */
  lemma EndReported(m: Memory, d: Disk, size: nat)
    requires SameBody(m, d) && !m.closed && size > 0
    ensures MemoryOutcome(m, Read(size)) == EndOfFile <==> Slice(m.data, m.position, size) == []
    ensures DiskOutcome(d, Read(size)) == EndOfFile <==> Slice(m.data, m.position, size) == []
  {
  }

  /** Once closed, everything but closing again is refused, whatever is tried. */
  lemma {:induction false} ClosedRefuses(m: Memory, d: Disk, ops: seq<Op>, i: nat)
    requires m.closed && d.closed && i < |ops|
    ensures |MemoryRun(m, ops)| == |ops| == |DiskRun(d, ops)|
    ensures MemoryRun(m, ops)[i] == DiskRun(d, ops)[i] == if ops[i] == Close then Done else IsClosed
    decreases |ops|
  {
    var m', d' := MemoryStep(m, ops[0]), DiskStep(d, ops[0]);
    assert m'.closed && d'.closed;
    if |ops| > 1 {
      ClosedRefuses(m', d', ops[1..], if i > 0 then i - 1 else 0);
    } else {
      assert ops[1..] == [];
    }
  }
}
