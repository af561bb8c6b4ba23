/** The states of a TcpBuffer as values, the operations on them, and the laws that hold over whole runs. */
module BufferSpec {
  import opened Bytes

  /** The storage m_buffer with the read and write index; the capacity m_size is |data|. */
  datatype Buf = Buf(data: seq<byte>, r: nat, w: nat) {
    predicate InRange() {
      r <= w <= |data|
    }

    /** What every public operation keeps: the read index is below a third of the capacity. */
    predicate Valid() {
      InRange() && (r == 0 || r < |data| / 3)
    }

    /** The unread bytes. */
    function Live(): seq<byte>
      requires InRange()
    {
      data[r..w]
    }
  }

  function Resized(b: Buf, newSize: nat): Buf
    requires b.InRange()
  {
    var count := Min(newSize, b.w - b.r);
    Buf(b.data[b.r..b.r + count] + Zeros(newSize - count), 0, count)
  }

  function Adjusted(b: Buf): Buf
    requires b.InRange()
  {
    if b.r < |b.data| / 3 then b
    else Buf(b.Live() + Zeros(|b.data| - (b.w - b.r)), 0, b.w - b.r)
  }

  /** The bytes adjustBuffer copies. */
  function AdjustCost(b: Buf): nat
    requires b.InRange()
  {
    if b.r < |b.data| / 3 then 0 else b.w - b.r
  }

  function Stored(b: Buf, bs: seq<byte>): Buf
    requires b.InRange() && b.w + |bs| <= |b.data|
  {
    b.(data := b.data[..b.w] + bs + b.data[b.w + |bs|..])
  }

  function GrownSize(b: Buf, n: nat): nat {
    3 * (b.w + n) / 2
  }

  /** The buffer once writeToBuffer has made room for n more bytes. */
  function Roomy(b: Buf, n: nat): Buf
    requires b.InRange()
  {
    if n > |b.data| - b.w then Resized(b, GrownSize(b, n)) else b
  }

  function Written(b: Buf, bs: seq<byte>): Buf
    requires b.InRange()
  {
    var c := Roomy(b, |bs|);
    Stored(c, bs).(w := c.w + |bs|)
  }

  function ReadOut(b: Buf, n: nat): Buf
    requires b.InRange()
  {
    if b.r == b.w then b else Adjusted(b.(r := b.r + Min(n, b.w - b.r)))
  }

  /** The buffer after everything was read. */
  function Emptied(b: Buf): Buf
    requires b.InRange()
  {
    ReadOut(b, b.w - b.r)
  }

  /** A read index move stays in range, or is refused by the code. */
  predicate MoveReadInRange(b: Buf, k: int) {
    0 <= b.r + k && (b.r + k <= b.w || b.r + k >= |b.data|)
  }

  function ReadMoved(b: Buf, k: int): Buf
    requires b.InRange() && MoveReadInRange(b, k)
  {
    if b.r + k >= |b.data| then b else Adjusted(b.(r := b.r + k))
  }

  function WriteMoved(b: Buf, k: int): Buf
    requires b.InRange() && b.r <= b.w + k
  {
    if b.w + k >= |b.data| then b else b.(w := b.w + k)
  }

  // ---- One step ----

  /** The calls made on a buffer. Fill is onRead's read(2) straight into the free space followed by
      moveWriteIndex; Double is onRead's resize of a full buffer; Resize is any other that keeps the
      unread bytes. */
  datatype Op =
    | Write(bs: seq<byte>)
    | Read(n: nat)
    | Double
    | Resize(n: nat)
    | MoveRead(k: nat)
    | MoveWrite(k: nat)
    | Fill(bs: seq<byte>)

  predicate Enabled(b: Buf, op: Op) {
    match op
    case Write(_) => true
    case Read(_) => true
    case Double => b.w == |b.data|
    case Resize(n) => b.w - b.r <= n
    case MoveRead(k) => MoveReadInRange(b, k)
    case MoveWrite(_) => true
    case Fill(bs) => b.w + |bs| <= |b.data|
  }

  function Step(b: Buf, op: Op): Buf
    requires b.InRange() && Enabled(b, op)
  {
    match op
    case Write(bs) => Written(b, bs)
    case Read(n) => ReadOut(b, n)
    case Double => Resized(b, 2 * |b.data|)
    case Resize(n) => Resized(b, n)
    case MoveRead(k) => ReadMoved(b, k)
    case MoveWrite(k) => WriteMoved(b, k)
    case Fill(bs) => WriteMoved(Stored(b, bs), |bs|)
  }

  /** The bytes an operation adds at the tail of the queue. */
  function Given(b: Buf, op: Op): seq<byte>
    requires b.InRange() && Enabled(b, op)
  {
    match op
    case Write(bs) => bs
    case MoveWrite(k) => if b.w + k < |b.data| then b.data[b.w..b.w + k] else []
    case Fill(bs) => if b.w + |bs| < |b.data| then bs else []
    case _ => []
  }

  /** The bytes an operation takes from the head of the queue. */
  function Taken(b: Buf, op: Op): seq<byte>
    requires b.InRange() && Enabled(b, op)
  {
    match op
    case Read(n) => b.Live()[..Min(n, b.w - b.r)]
    case MoveRead(k) => if b.r + k < |b.data| then b.Live()[..k] else []
    case _ => []
  }

  /** The bytes an operation copies while growing or compacting. */
  function Cost(b: Buf, op: Op): nat
    requires b.InRange() && Enabled(b, op)
  {
    match op
    case Write(bs) => if |bs| > |b.data| - b.w then b.w - b.r else 0
    case Read(n) => if b.r == b.w then 0 else AdjustCost(b.(r := b.r + Min(n, b.w - b.r)))
    case Double => b.w - b.r
    case Resize(_) => b.w - b.r
    case MoveRead(k) => MoveCost(b, k)
    case _ => 0
  }

  function MoveCost(b: Buf, k: int): nat
    requires b.InRange() && MoveReadInRange(b, k)
  {
    if b.r + k >= |b.data| then 0 else AdjustCost(b.(r := b.r + k))
  }

  /** How often an operation calls adjustBuffer. */
  function Adjusts(b: Buf, op: Op): nat {
    match op
    case Read(_) => if b.r == b.w then 0 else 1
    case MoveRead(k) => if b.r + k >= |b.data| then 0 else 1
    case _ => 0
  }

  /** Growing for a write leaves the unread bytes and enough room behind them. */
  lemma RoomyKeepsLive(b: Buf, n: nat)
    requires b.Valid()
    ensures Roomy(b, n).Valid() && Roomy(b, n).Live() == b.Live()
    ensures Roomy(b, n).w + n <= |Roomy(b, n).data|
  {
    if n > |b.data| - b.w {
      assert Roomy(b, n).Live() == b.Live();
    }
  }

  lemma StoredTail(b: Buf, bs: seq<byte>)
    requires b.InRange() && b.w + |bs| <= |b.data|
    ensures Stored(b, bs).(w := b.w + |bs|).InRange()
    ensures Stored(b, bs).(w := b.w + |bs|).Live() == b.Live() + bs
    ensures |Stored(b, bs).data| == |b.data| && Stored(b, bs).Live() == b.Live()
  {
  }

  /** Compaction is invisible to the reader and restores validity. */
  lemma AdjustedKeepsLive(b: Buf)
    requires b.InRange()
    ensures Adjusted(b).Valid() && Adjusted(b).Live() == b.Live() && |Adjusted(b).data| == |b.data|
  {
  }

  /** Writing appends. */
  lemma WrittenAppends(b: Buf, bs: seq<byte>)
    requires b.Valid()
    ensures Written(b, bs).Valid() && Written(b, bs).Live() == b.Live() + bs
  {
    RoomyKeepsLive(b, |bs|);
    StoredTail(Roomy(b, |bs|), bs);
  }

  /** Advancing the read index and compacting drops bytes from the head. */
  lemma AdvanceDrops(b: Buf, k: nat)
    requires b.InRange() && b.r + k <= b.w
    ensures Adjusted(b.(r := b.r + k)).Valid() && |Adjusted(b.(r := b.r + k)).data| == |b.data|
    ensures Adjusted(b.(r := b.r + k)).Live() == b.Live()[k..]
  {
    AdjustedKeepsLive(b.(r := b.r + k));
    assert b.data[b.r + k..b.w] == b.Live()[k..];
  }

  lemma Split<T>(s: seq<T>, k: nat)
    requires k <= |s|
    ensures s[..k] + s[k..] == s && s + [] == s && [] + s == s
  {
  }

  lemma MoveWriteAppends(b: Buf, k: nat)
    requires b.Valid()
    ensures WriteMoved(b, k).Valid()
    ensures WriteMoved(b, k).Live() == b.Live() + Given(b, MoveWrite(k))
  {
    if b.w + k < |b.data| {
      assert b.data[b.r..b.w + k] == b.data[b.r..b.w] + b.data[b.w..b.w + k];
    }
  }

  lemma FillAppends(b: Buf, bs: seq<byte>)
    requires b.Valid() && b.w + |bs| <= |b.data|
    ensures |Stored(b, bs).data| == |b.data| && Stored(b, bs).r == b.r && Stored(b, bs).w == b.w
    ensures WriteMoved(Stored(b, bs), |bs|).Valid()
    ensures WriteMoved(Stored(b, bs), |bs|).Live() == b.Live() + Given(b, Fill(bs))
  {
    StoredTail(b, bs);
    Split(b.Live(), 0);
  }

  /** Reading removes the longest available prefix. */
  lemma ReadTakes(b: Buf, n: nat)
    requires b.Valid()
    ensures ReadOut(b, n).Valid() && |ReadOut(b, n).data| == |b.data|
    ensures ReadOut(b, n).Live() == b.Live()[Min(n, b.w - b.r)..]
  {
    if b.r == b.w {
      assert b.Live() == [];
    } else {
      AdvanceDrops(b, Min(n, b.w - b.r));
    }
  }

  lemma MoveReadTakes(b: Buf, k: nat)
    requires b.Valid() && MoveReadInRange(b, k)
    ensures ReadMoved(b, k).Valid() && |ReadMoved(b, k).data| == |b.data|
    ensures b.Live() == Taken(b, MoveRead(k)) + ReadMoved(b, k).Live()
  {
    Split(b.Live(), 0);
    if b.r + k < |b.data| {
      AdvanceDrops(b, k);
      Split(b.Live(), k);
    }
  }

  lemma LivePrefix(b: Buf, k: nat)
    requires b.InRange() && b.r + k <= b.w
    ensures b.data[b.r..b.r + k] == b.Live()[..k]
  {
  }

  /** The write index and the queue's tail move together. */
  lemma GiveRefinesQueue(b: Buf, op: Op)
    requires b.Valid() && Enabled(b, op) && !op.Read? && !op.MoveRead?
    ensures Step(b, op).Valid() && b.Live() + Given(b, op) == Step(b, op).Live()
  {
    hide Written, Resized, Stored, WriteMoved;
    match op {
      case Write(bs) => WrittenAppends(b, bs);
      case Double => ResizeKeeps(b, 2 * |b.data|);
      case Resize(n) => ResizeKeeps(b, n);
      case MoveWrite(k) => MoveWriteAppends(b, k);
      case Fill(bs) => FillAppends(b, bs);
    }
    Split(b.Live(), 0);
  }

  lemma ResizeKeeps(b: Buf, n: nat)
    requires b.InRange() && b.w - b.r <= n
    ensures Resized(b, n).Valid() && Resized(b, n).Live() == b.Live()
  {
  }

  /** Every operation keeps the buffer valid and moves bytes through it first in, first out. */
  lemma StepRefinesQueue(b: Buf, op: Op)
    requires b.Valid() && Enabled(b, op)
    ensures Step(b, op).Valid()
    ensures b.Live() + Given(b, op) == Taken(b, op) + Step(b, op).Live()
  {
    Split(b.Live(), 0);
    match op {
      case Read(n) =>
        ReadTakes(b, n);
        Split(b.Live(), Min(n, b.w - b.r));
      case MoveRead(k) => MoveReadTakes(b, k);
      case _ => GiveRefinesQueue(b, op);
    }
  }

  lemma GrownSizeBounds(r: nat, w: nat, size: nat, n: nat)
    requires r <= w <= size < w + n && (r == 0 || r < size / 3)
    ensures size < 3 * (w + n) / 2 && 4 * (3 * (w + n) / 2) <= 9 * (w - r + n)
  {
  }

  lemma WrittenCapacity(b: Buf, bs: seq<byte>)
    requires b.Valid()
    ensures |Written(b, bs).data| >= |b.data|
    ensures |Written(b, bs).data| > |b.data| ==> 4 * |Written(b, bs).data| <= 9 * (b.w - b.r + |bs|)
  {
    if |bs| > |b.data| - b.w {
      GrownSizeBounds(b.r, b.w, |b.data|, |bs|);
    }
  }

  /** An operation never shrinks the capacity, and enlarges it only in proportion to the unread bytes. */
  lemma StepCapacity(b: Buf, op: Op)
    requires b.Valid() && Enabled(b, op) && !op.Resize?
    ensures Step(b, op).Valid() && |Step(b, op).data| >= |b.data|
    ensures |Step(b, op).data| > |b.data| && op.Write? ==> 4 * |Step(b, op).data| <= 9 * |Step(b, op).Live()|
    ensures |Step(b, op).data| > |b.data| && !op.Write? ==> op.Double? && |Step(b, op).data| <= 3 * |b.Live()|
  {
    hide Adjusted, ReadOut, ReadMoved, Written;
    match op {
      case Write(bs) =>
        WrittenAppends(b, bs);
        WrittenCapacity(b, bs);
      case Read(n) => ReadTakes(b, n);
      case MoveRead(k) => MoveReadTakes(b, k);
      case _ => GiveRefinesQueue(b, op);
    }
  }

  /** Bytes that may still have to be copied, paid for in advance. */
  function Potential(b: Buf): nat
    requires b.InRange()
  {
    Owed(b.r, b.w, |b.data|)
  }

  function Owed(r: nat, w: nat, size: nat): nat {
    Max(0, 3 * w - 2 * size) + 2 * r
  }

  lemma GrowPaid(r: nat, w: nat, size: nat, n: nat)
    requires r <= w <= size < w + n
    ensures w - r + Owed(0, w - r + n, 3 * (w + n) / 2) <= Owed(r, w, size) + 3 * n
  {
  }

  lemma AdjustPaid(r: nat, w: nat, size: nat)
    requires size / 3 <= r <= w <= size
    ensures w - r + Owed(0, w - r, size) <= Owed(r, w, size) + 2
  {
  }

  lemma AdvancePaid(b: Buf, k: nat)
    requires b.InRange() && b.r + k <= b.w
    ensures var c := b.(r := b.r + k);
            Adjusted(c).InRange() && AdjustCost(c) + Potential(Adjusted(c)) <= Potential(b) + 2 * k + 2
  {
    if b.r + k >= |b.data| / 3 {
      AdjustPaid(b.r + k, b.w, |b.data|);
    }
  }

  lemma WrittenShape(b: Buf, bs: seq<byte>)
    requires b.Valid()
    ensures var c := Written(b, bs);
            if |bs| > |b.data| - b.w
            then c.r == 0 && c.w == b.w - b.r + |bs| && |c.data| == 3 * (b.w + |bs|) / 2
            else c.r == b.r && c.w == b.w + |bs| && |c.data| == |b.data|
  {
    RoomyKeepsLive(b, |bs|);
    StoredTail(Roomy(b, |bs|), bs);
  }

  lemma WritePaid(b: Buf, bs: seq<byte>)
    requires b.Valid()
    ensures Written(b, bs).InRange()
    ensures Cost(b, Write(bs)) + Potential(Written(b, bs)) <= Potential(b) + 3 * |bs|
  {
    hide Written;
    WrittenAppends(b, bs);
    WrittenShape(b, bs);
    if |bs| > |b.data| - b.w {
      GrowPaid(b.r, b.w, |b.data|, |bs|);
    }
  }

  lemma ReadPaid(b: Buf, n: nat)
    requires b.Valid()
    ensures ReadOut(b, n).InRange()
    ensures Cost(b, Read(n)) + Potential(ReadOut(b, n))
         <= Potential(b) + 2 * |Taken(b, Read(n))| + 2 * Adjusts(b, Read(n))
  {
    hide Adjusted, AdjustCost, Potential;
    AdvancePaid(b, Min(n, b.w - b.r));
  }

  lemma MoveReadPaid(b: Buf, k: nat)
    requires b.Valid() && MoveReadInRange(b, k)
    ensures ReadMoved(b, k).InRange()
    ensures Cost(b, MoveRead(k)) + Potential(ReadMoved(b, k))
         <= Potential(b) + 2 * |Taken(b, MoveRead(k))| + 2 * Adjusts(b, MoveRead(k))
  {
    hide Adjusted, AdjustCost, Potential;
    if b.r + k < |b.data| {
      AdvancePaid(b, k);
    }
  }

  lemma GivePaid(b: Buf, op: Op)
    requires b.Valid() && Enabled(b, op) && (op.Double? || op.MoveWrite? || op.Fill?)
    ensures Step(b, op).InRange()
    ensures Cost(b, op) + Potential(Step(b, op)) <= Potential(b) + 3 * |Given(b, op)|
  {
    GiveRefinesQueue(b, op);
  }

  /** The copying of one operation is paid by the potential it releases and the bytes it moves. */
  lemma StepAmortised(b: Buf, op: Op)
    requires b.Valid() && Enabled(b, op) && !op.Resize?
    ensures Step(b, op).Valid()
    ensures Cost(b, op) + Potential(Step(b, op))
         <= Potential(b) + 3 * |Given(b, op)| + 2 * |Taken(b, op)| + 2 * Adjusts(b, op)
  {
    hide Adjusted, AdjustCost, Written, ReadOut, ReadMoved, WriteMoved, Resized, Stored, Potential;
    StepRefinesQueue(b, op);
    match op {
      case Write(bs) => WritePaid(b, bs);
      case Read(n) => ReadPaid(b, n);
      case MoveRead(k) => MoveReadPaid(b, k);
      case _ => GivePaid(b, op);
    }
  }

  // ---- Whole runs ----

  predicate Runnable(b: Buf, ops: seq<Op>)
    requires b.Valid()
    decreases |ops|
  {
    ops == [] ||
    (Enabled(b, ops[0]) && (StepRefinesQueue(b, ops[0]); Runnable(Step(b, ops[0]), ops[1..])))
  }

  /** Only the connection's own operations, which resize a buffer just to double a full one. */
  predicate NoResize(ops: seq<Op>) {
    forall i :: 0 <= i < |ops| ==> !ops[i].Resize?
  }

  datatype Totals = Totals(final: Buf, given: seq<byte>, taken: seq<byte>, copied: nat, adjusts: nat, peak: nat)

  /** The final state of a run, with everything given and taken, the copying done and the largest
      number of unread bytes on the way. */
  function Run(b: Buf, ops: seq<Op>): Totals
    requires b.Valid() && Runnable(b, ops)
    decreases |ops|
  {
    if ops == [] then Totals(b, [], [], 0, 0, |b.Live()|)
    else
      StepRefinesQueue(b, ops[0]);
      var t := Run(Step(b, ops[0]), ops[1..]);
      Totals(t.final, Given(b, ops[0]) + t.given, Taken(b, ops[0]) + t.taken,
             Cost(b, ops[0]) + t.copied, Adjusts(b, ops[0]) + t.adjusts, Max(|b.Live()|, t.peak))
  }

  lemma Chain<T>(a: seq<T>, g: seq<T>, t: seq<T>, b: seq<T>, g': seq<T>, t': seq<T>, c: seq<T>)
    requires a + g == t + b && b + g' == t' + c
    ensures a + (g + g') == (t + t') + c
  {
    assert a + (g + g') == (a + g) + g';
    assert (t + b) + g' == t + (b + g');
    assert t + (t' + c) == (t + t') + c;
  }

  /** Over every run the buffer is a first in, first out queue: what it held and was given is what
      was taken and what it still holds. */
  lemma {:induction false} RunRefinesQueue(b: Buf, ops: seq<Op>)
    requires b.Valid() && Runnable(b, ops)
    ensures Run(b, ops).final.Valid()
    ensures b.Live() + Run(b, ops).given == Run(b, ops).taken + Run(b, ops).final.Live()
    decreases |ops|
  {
    if ops == [] {
      Split(b.Live(), 0);
    } else {
      var op := ops[0];
      StepRefinesQueue(b, op);
      var c := Step(b, op);
      RunRefinesQueue(c, ops[1..]);
      var t := Run(c, ops[1..]);
      Chain(b.Live(), Given(b, op), Taken(b, op), c.Live(), t.given, t.taken, t.final.Live());
    }
  }

  /** Over every run the capacity stays within three times the largest number of unread bytes. */
  lemma {:induction false} RunCapacity(b: Buf, ops: seq<Op>)
    requires b.Valid() && Runnable(b, ops) && NoResize(ops)
    ensures |Run(b, ops).final.data| <= Max(|b.data|, 3 * Run(b, ops).peak)
    ensures |b.Live()| <= Run(b, ops).peak
    decreases |ops|
  {
    if ops != [] {
      StepRefinesQueue(b, ops[0]);
      StepCapacity(b, ops[0]);
      RunCapacity(Step(b, ops[0]), ops[1..]);
    }
  }

  /** When only writes grow the buffer, nine quarters of the largest number of unread bytes is enough. */
  lemma {:induction false} RunCapacityByWrites(b: Buf, ops: seq<Op>)
    requires b.Valid() && Runnable(b, ops)
    requires NoResize(ops) && Double !in ops
    ensures 4 * |Run(b, ops).final.data| <= Max(4 * |b.data|, 9 * Run(b, ops).peak)
    ensures |b.Live()| <= Run(b, ops).peak
    decreases |ops|
  {
    if ops != [] {
      StepRefinesQueue(b, ops[0]);
      StepCapacity(b, ops[0]);
      RunCapacityByWrites(Step(b, ops[0]), ops[1..]);
    }
  }

  /** Over every run the copying done by growing and compacting is linear in the traffic. */
  lemma {:induction false} RunAmortised(b: Buf, ops: seq<Op>)
    requires b.Valid() && Runnable(b, ops) && NoResize(ops)
    ensures Run(b, ops).final.Valid()
    ensures Run(b, ops).copied + Potential(Run(b, ops).final)
         <= Potential(b) + 3 * |Run(b, ops).given| + 2 * |Run(b, ops).taken| + 2 * Run(b, ops).adjusts
    decreases |ops|
  {
    if ops != [] {
      StepRefinesQueue(b, ops[0]);
      StepAmortised(b, ops[0]);
      RunAmortised(Step(b, ops[0]), ops[1..]);
    }
  }

  /** A new buffer starts with nothing to pay for. */
  lemma FreshRunAmortised(size: nat, ops: seq<Op>)
    requires Runnable(Buf(Zeros(size), 0, 0), ops) && NoResize(ops)
    ensures var t := Run(Buf(Zeros(size), 0, 0), ops);
            t.copied <= 3 * |t.given| + 2 * |t.taken| + 2 * t.adjusts
  {
    RunAmortised(Buf(Zeros(size), 0, 0), ops);
  }
}

/** The byte buffer of a connection. */
module Tcp {
  import opened Bytes
  import opened BufferSpec

  class TcpBuffer {
    var buffer: array<byte>  // m_buffer
    var readIdx: nat         // m_read_idx
    var writeIdx: nat        // m_write_idx
    var size: nat            // m_size
    ghost var copied: nat    // bytes moved by growing and compacting

    ghost predicate InRange()
      reads this
    {
      readIdx <= writeIdx <= size == buffer.Length
    }

    ghost function State(): Buf
      reads this, buffer
    {
      Buf(buffer[..], readIdx, writeIdx)
    }

    ghost predicate Valid()
      reads this, buffer
    {
      InRange() && State().Valid()
    }

    ghost function Contents(): seq<byte>
      requires InRange()
      reads this, buffer
    {
      State().Live()
    }

    constructor (size: nat)
      ensures Valid() && fresh(buffer)
      ensures State() == Buf(Zeros(size), 0, 0) && Contents() == [] && copied == 0
    {
      buffer := new byte[size](_ => 0);
      readIdx, writeIdx, copied := 0, 0, 0;
      this.size := size;
      new;
      assert buffer[..] == Zeros(size);
    }

    method ReadAble() returns (n: nat)
      requires InRange()
      ensures n == |Contents()|
    {
      n := writeIdx - readIdx;
    }

    method WriteAble() returns (n: nat)
      requires InRange()
      ensures n == |State().data| - State().w
    {
      n := size - writeIdx;
    }

    method ResizeBuffer(newSize: nat)
      requires InRange()
      modifies this
      ensures InRange() && fresh(buffer) && State() == Resized(old(State()), newSize)
      ensures Valid() && Contents() == old(Contents())[..Min(newSize, old(|Contents()|))]
      ensures copied == old(copied) + |Contents()| && size == newSize
    {
      var tmp := new byte[newSize](_ => 0);
      var count := Min(newSize, writeIdx - readIdx);
      forall k | 0 <= k < count {
        tmp[k] := buffer[readIdx + k];
      }
      copied := copied + count;
      assert tmp[..] == Resized(old(State()), newSize).data;
      buffer := tmp;
      readIdx, writeIdx, size := 0, count, newSize;
    }

    method AdjustBuffer()
      requires InRange()
      modifies this
      ensures Valid() && (buffer == old(buffer) || fresh(buffer))
      ensures State() == Adjusted(old(State())) && Contents() == old(Contents())
      ensures copied == old(copied) + AdjustCost(old(State()))
      ensures AdjustCost(old(State())) == if old(readIdx) < old(size) / 3 then 0 else |Contents()|
      ensures size == old(size) && readIdx == if old(readIdx) < old(size) / 3 then old(readIdx) else 0
    {
      if readIdx < size / 3 {
        return;
      }
      var count := writeIdx - readIdx;
      var tmp := new byte[size](_ => 0);
      forall k | 0 <= k < count {
        tmp[k] := buffer[readIdx + k];
      }
      copied := copied + count;
      assert tmp[..] == Adjusted(old(State())).data;
      buffer := tmp;
      readIdx, writeIdx := 0, count;
    }

    /** The memcpy of bytes into the free space. */
    method Store(bs: seq<byte>)
      requires InRange() && writeIdx + |bs| <= size
      modifies buffer
      ensures InRange() && State() == Stored(old(State()), bs)
    {
      forall k | 0 <= k < |bs| {
        buffer[writeIdx + k] := bs[k];
      }
      assert buffer[..] == Stored(old(State()), bs).data;
    }

    method WriteToBuffer(bs: seq<byte>)
      requires Valid()
      modifies this, buffer
      ensures Valid() && (buffer == old(buffer) || fresh(buffer))
      ensures State() == Step(old(State()), Write(bs)) && Contents() == old(Contents()) + bs
      ensures copied == old(copied) + Cost(old(State()), Write(bs))
      ensures size == if old(writeIdx) + |bs| <= old(size) then old(size) else 3 * (old(writeIdx) + |bs|) / 2
    {
      hide Resized, Stored;
      ghost var b := old(State());
      if |bs| > size - writeIdx {
        var newSize := 3 * (writeIdx + |bs|) / 2;
        ResizeBuffer(newSize);
      }
      assert State() == Roomy(b, |bs|);
      RoomyKeepsLive(b, |bs|);
      Store(bs);
      writeIdx := writeIdx + |bs|;
      assert State() == Written(b, bs);
      WrittenAppends(b, bs);
    }

    /** Takes up to n bytes; an empty buffer leaves the caller's vector as it was. */
    method ReadFromBuffer(res0: seq<byte>, n: nat) returns (res: seq<byte>)
      requires Valid()
      modifies this
      ensures Valid() && (buffer == old(buffer) || fresh(buffer))
      ensures State() == Step(old(State()), Read(n))
      ensures res == if old(Contents()) == [] then res0 else old(Contents())[..Min(n, old(|Contents()|))]
      ensures Contents() == old(Contents())[Min(n, old(|Contents()|))..]
      ensures copied == old(copied) + Cost(old(State()), Read(n))
    {
      hide Adjusted, AdjustCost, Zeros;
      if writeIdx == readIdx {
        return res0;
      }
      var readSize := if writeIdx - readIdx > n then n else writeIdx - readIdx;
      res := buffer[readIdx..readIdx + readSize];
      ghost var b := State();
      LivePrefix(b, readSize);
      assert res == b.data[b.r..b.r + readSize];
      readIdx := readIdx + readSize;
      assert State() == b.(r := b.r + readSize);
      AdjustBuffer();
      assert Cost(b, Read(n)) == AdjustCost(b.(r := b.r + readSize));
      assert State() == ReadOut(b, n);
      AdvanceDrops(b, readSize);
    }

    method MoveReadIndex(k: int)
      requires Valid() && MoveReadInRange(State(), k)
      modifies this
      ensures Valid() && (buffer == old(buffer) || fresh(buffer))
      ensures State() == ReadMoved(old(State()), k) && (k >= 0 ==> State() == Step(old(State()), MoveRead(k)))
      ensures Contents() ==
        if old(readIdx) + k >= old(size) then old(Contents()) else old(buffer[readIdx + k..writeIdx])
      ensures copied == old(copied) + MoveCost(old(State()), k)
    {
      var newReadIdx := readIdx + k;
      if newReadIdx >= size {
        return;
      }
      hide Adjusted, AdjustCost, Zeros;
      ghost var b := State();
      readIdx := newReadIdx;
      assert State() == b.(r := b.r + k) && Contents() == b.data[b.r + k..b.w];
      AdjustBuffer();
    }

    method MoveWriteIndex(k: int)
      requires Valid() && readIdx <= writeIdx + k
      modifies this`writeIdx
      ensures Valid() && State() == WriteMoved(old(State()), k)
      ensures k >= 0 ==> State() == Step(old(State()), MoveWrite(k))
      ensures Contents() ==
        if old(writeIdx) + k >= size then old(Contents()) else buffer[readIdx..old(writeIdx) + k]
    {
      var newWriteIdx := writeIdx + k;
      if newWriteIdx >= size {
        return;
      }
      writeIdx := newWriteIdx;
    }
  }
}
