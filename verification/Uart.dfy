/**
 * The ring buffers of the serial driver, examples/esp8266/aiko_server/driver/uart.c.
 *
 * A buffer is a FIFO queue: blocks are copied in as one or two segments, and taken out as one or two
 * segments or byte by byte.  The receiving side reads equal positions as "empty", so it keeps one byte
 * free; the sending side may be full, and goes by the space count alone.
 */
module Uart {
  import opened Bytes

  const BUFFER_SIZE: nat := 256
  const FIFO_LEN: nat := 128
  const TASK_QUEUE_LEN: nat := 10

  // ---------------------------------------------------------------- bytes laid out in a circle

  /** The place `n` bytes after `from` in a circle of `size` bytes. */
  function Wrap(size: nat, from: nat, n: nat): nat
    requires from < size && n <= size
  {
    if from + n < size then from + n else from + n - size
  }

  ghost predicate Circular(b: seq<byte>, at: nat, bytes: seq<byte>) {
    && at < |b| && |bytes| <= |b|
    && forall i :: 0 <= i < |bytes| ==> bytes[i] == b[Wrap(|b|, at, i)]
  }

  lemma Multiple(q: int, size: int)
    requires size >= 0
    ensures q >= 1 ==> q * size >= size
    ensures q <= -1 ==> q * size <= -size
  {
    if q <= -1 {
      assert (-q - 1) * size >= 0;
    }
  }

  lemma Remainder(x: nat, size: nat, k: nat)
    requires k * size <= x < k * size + size
    ensures x % size == x - k * size
  {
    var q, r := x / size, x % size;
    assert x == q * size + r;
    assert (q - k) * size == (x - k * size) - r;
    Multiple(q - k, size);
  }

  /** The pointer arithmetic of the source: advance, then take the remainder. */
  lemma WrapModulo(size: nat, from: nat, n: nat)
    requires from < size && n <= size
    ensures (from + n) % size == Wrap(size, from, n)
  {
    Remainder(from + n, size, if from + n < size then 0 else 1);
  }

  function Put(b: seq<byte>, pos: nat, data: seq<byte>): seq<byte>
    requires pos + |data| <= |b|
  {
    b[..pos] + data + b[pos + |data|..]
  }

  lemma PutTwice(b: seq<byte>, pos: nat, x: seq<byte>, y: seq<byte>)
    requires pos + |x| + |y| <= |b|
    ensures Put(Put(b, pos, x), pos + |x|, y) == Put(b, pos, x + y)
  {
  }

  lemma CircularPut(b: seq<byte>, at: nat, bytes: seq<byte>, data: seq<byte>)
    requires Circular(b, at, bytes) && |bytes| + |data| <= |b|
    requires Wrap(|b|, at, |bytes|) + |data| <= |b|
    ensures Circular(Put(b, Wrap(|b|, at, |bytes|), data), at, bytes + data)
  {
  }

  lemma CircularByte(b: seq<byte>, at: nat, bytes: seq<byte>, ch: byte)
    requires Circular(b, at, bytes) && |bytes| < |b|
    ensures Circular(b[Wrap(|b|, at, |bytes|) := ch], at, bytes + [ch])
  {
  }

  lemma CircularDrop(b: seq<byte>, at: nat, bytes: seq<byte>, n: nat)
    requires Circular(b, at, bytes) && n <= |bytes|
    ensures Circular(b, Wrap(|b|, at, n), bytes[n..])
    ensures Wrap(|b|, Wrap(|b|, at, n), |bytes| - n) == Wrap(|b|, at, |bytes|)
  {
  }

  lemma CircularFront(b: seq<byte>, at: nat, bytes: seq<byte>, n: nat)
    requires Circular(b, at, bytes) && n <= |bytes| && at + n <= |b|
    ensures b[at..at + n] == bytes[..n]
  {
    forall i | 0 <= i < n ensures b[at..at + n][i] == bytes[..n][i] {
      assert bytes[i] == b[Wrap(|b|, at, i)];
    }
  }

  /** struct UartBuffer. */
  class Ring {
    const buffer: array<byte>
    var inPos: nat
    var outPos: nat
    var space: nat
    ghost var contents: seq<byte>

    ghost predicate Valid()
      reads this, buffer
    {
      && outPos < buffer.Length && space <= buffer.Length && |contents| == buffer.Length - space
      && Circular(buffer[..], outPos, contents) && inPos == Wrap(buffer.Length, outPos, |contents|)
    }

    /** Uart_Buf_Init with enough heap. */
    constructor (size: nat)
      requires size > 0
      ensures Valid() && contents == [] && space == size == buffer.Length && fresh(buffer)
    {
      buffer := new byte[size](_ => 0);
      inPos, outPos, space, contents := 0, 0, size, [];
    }

    /** Equal positions mean empty or full; with a byte of space they mean empty. */
    lemma EqualPositions()
      requires Valid()
      ensures inPos == outPos <==> contents == [] || space == 0
    {
    }

    /** One os_memcpy of Uart_Buf_Cpy with the pointer and space updates that follow it. */
    method CopySegment(data: seq<byte>)
      requires Valid() && inPos + |data| <= buffer.Length && |data| <= space
      modifies this, buffer
      ensures Valid() && contents == old(contents) + data && space == old(space) - |data|
      ensures inPos == Wrap(buffer.Length, old(inPos), |data|)
    {
      CircularPut(buffer[..], outPos, contents, data);
      WrapModulo(buffer.Length, inPos, |data|);
      hide Circular;
      ghost var b := buffer[..];
      forall i | 0 <= i < |data| {
        buffer[inPos + i] := data[i];
      }
      assert buffer[..] == Put(b, inPos, data);
      inPos := (inPos + |data|) % buffer.Length;
      space := space - |data|;
      contents := contents + data;
    }

    /** Uart_Buf_Cpy: the bytes go in at the end, the part past the end of the array at its start. */
    method Copy(data: seq<byte>)
      requires Valid() && |data| <= space
      modifies this, buffer
      ensures Valid() && contents == old(contents) + data
    {
      if |data| == 0 {
        return;
      }
      var tail := buffer.Length - inPos;
      if tail >= |data| {
        CopySegment(data);
      } else {
        CopySegment(data[..tail]);
        CopySegment(data[tail..]);
        assert data == data[..tail] + data[tail..];
      }
    }

    /** os_memcpy out of the buffer. */
    method CopyOut(target: array<byte>, at: nat, n: nat)
      requires outPos + n <= buffer.Length && target != buffer && at + n <= target.Length
      modifies target
      ensures target[..] == Put(old(target[..]), at, buffer[outPos..outPos + n])
    {
      forall i | 0 <= i < n {
        target[at + i] := buffer[outPos + i];
      }
    }

    /** One os_memcpy of rx_buff_deq with the updates that follow it. */
    method TakeSegment(target: array<byte>, at: nat, n: nat, wrap: bool)
      requires Valid() && n <= |contents| && outPos + n <= buffer.Length && (wrap || outPos + n < buffer.Length)
      requires target != buffer && at + n <= target.Length
      modifies this`outPos, this`space, this`contents, target
      ensures Valid() && contents == old(contents)[n..] && space == old(space) + n
      ensures inPos == old(inPos) && outPos == Wrap(buffer.Length, old(outPos), n)
      ensures target[..] == Put(old(target[..]), at, old(contents)[..n])
    {
      CircularDrop(buffer[..], outPos, contents, n);
      CircularFront(buffer[..], outPos, contents, n);
      WrapModulo(buffer.Length, outPos, n);
      hide Circular, Put;
      CopyOut(target, at, n);
      outPos := outPos + n;
      if wrap {
        outPos := outPos % buffer.Length;
      }
      space := space + n;
      contents := contents[n..];
    }

    /** rx_buff_deq: at most `limit` bytes go from the front of the queue to `target` at `at`. */
    method Dequeue(target: array<byte>, at: nat, limit: nat) returns (n: nat)
      requires Valid() && space >= 1
      requires target != buffer && at + limit <= target.Length
      modifies this`outPos, this`space, this`contents, target
      ensures Valid() && n == (if limit > old(|contents|) then old(|contents|) else limit)
      ensures contents == old(contents)[n..] && space >= 1
      ensures target[..] == Put(old(target[..]), at, old(contents)[..n])
    {
      hide Circular, Put;
      var length := buffer.Length - space;
      var tail := buffer.Length - outPos;
      n := if limit > length then length else limit;
      if outPos <= inPos {
        TakeSegment(target, at, n, false);
      } else if n > tail {
        ghost var c := contents;
        PutTwice(target[..], at, c[..tail], c[tail..n]);
        TakeSegment(target, at, tail, true);
        assert c[tail..][..n - tail] == c[tail..n] && c[..tail] + c[tail..n] == c[..n];
        TakeSegment(target, at + tail, n - tail, true);
      } else {
        TakeSegment(target, at, n, true);
      }
    }

    /** `more` stands behind the contents, but is not yet counted in the space. */
    ghost predicate Ahead(more: seq<byte>)
      reads this, buffer
    {
      && outPos < buffer.Length && inPos < buffer.Length && space <= buffer.Length
      && |contents| == buffer.Length - space && |more| <= space
      && Circular(buffer[..], outPos, contents + more)
      && inPos == Wrap(buffer.Length, outPos, |contents| + |more|)
    }

    method PutByte(ch: byte, ghost more: seq<byte>)
      requires Ahead(more) && |more| < space
      modifies this`inPos, buffer
      ensures Ahead(more + [ch])
    {
      CircularByte(buffer[..], outPos, contents + more, ch);
      hide Circular;
      ghost var b := buffer[..];
      buffer[inPos] := ch;
      assert buffer[..] == b[inPos := ch];
      assert contents + (more + [ch]) == contents + more + [ch];
      inPos := inPos + 1;
      if inPos == buffer.Length {
        inPos := 0;
      }
    }

    /** The loop of Uart_rx_buff_enq over the bytes of the hardware FIFO. */
    method Enqueue(data: seq<byte>)
      requires Valid() && |data| <= space
      modifies this, buffer
      ensures Valid() && contents == old(contents) + data
    {
      hide Circular;
      var index := 0;
      assert contents + data[..0] == contents;
      while index < |data|
        invariant index <= |data| && space == old(space) && contents == old(contents)
        invariant Ahead(data[..index])
      {
        assert data[..index + 1] == data[..index] + [data[index]];
        PutByte(data[index], data[..index]);
        index := index + 1;
      }
      assert data[..index] == data;
      space := space - |data|;
      contents := contents + data;
    }

    /** `taken` bytes have been read, but are not yet counted in the space. */
    ghost predicate Behind(taken: nat)
      reads this, buffer
    {
      && outPos < buffer.Length && space <= buffer.Length && taken <= |contents| == buffer.Length - space
      && Circular(buffer[..], outPos, contents[taken..])
      && inPos == Wrap(buffer.Length, outPos, |contents| - taken)
    }

    method TakeByte(ghost taken: nat) returns (ch: byte)
      requires Behind(taken) && taken < |contents|
      modifies this`outPos
      ensures Behind(taken + 1) && ch == contents[taken]
    {
      CircularFront(buffer[..], outPos, contents[taken..], 1);
      CircularDrop(buffer[..], outPos, contents[taken..], 1);
      hide Circular;
      ch := buffer[outPos];
      assert ch == buffer[..][outPos..outPos + 1][0] == contents[taken..][..1][0];
      assert contents[taken..][1..] == contents[taken + 1..];
      outPos := outPos + 1;
      if outPos == buffer.Length {
        outPos := 0;
      }
    }

    /** tx_fifo_insert: `n` bytes go from the front of the queue to the hardware FIFO. */
    method Insert(n: nat) returns (written: seq<byte>)
      requires Valid() && n <= |contents|
      modifies this`outPos, this`space, this`contents
      ensures Valid() && written == old(contents)[..n] && contents == old(contents)[n..]
    {
      hide Circular;
      written := [];
      var i := 0;
      assert contents[0..] == contents;
      while i < n
        invariant i <= n && contents == old(contents) && space == old(space)
        invariant written == contents[..i] && Behind(i)
      {
        var ch := TakeByte(i);
        written := written + [ch];
        i := i + 1;
      }
      Remainder(outPos, buffer.Length, 0);
      outPos := outPos % buffer.Length;
      space := space + n;
      contents := contents[n..];
    }
  }

  // ---------------------------------------------------------------- sending

  /** The sending side: the ring, once it is made, the hardware FIFO, what has left on the wire, and
      whether the FIFO-empty interrupt is enabled. */
  datatype Output = Output(made: bool, ring: seq<byte>, fifo: seq<byte>, wire: seq<byte>, enabled: bool)

  /** A program sends; the interrupt is taken; the hardware puts `n` bytes on the wire. `heap` is what
      system_get_free_heap_size yields. */
  datatype OutputEvent = Send(data: seq<byte>, heap: nat) | EmptyInterrupt | Shift(n: nat)

  predicate Accepts(o: Output, data: seq<byte>, heap: nat) {
    if o.made then |data| <= BUFFER_SIZE - |o.ring| else heap > BUFFER_SIZE
  }

  function Least(a: nat, b: nat): nat {
    if a < b then a else b
  }

  function OutputStep(o: Output, e: OutputEvent): Output {
    match e
    case Send(data, heap) =>
      if Accepts(o, data, heap) then o.(made := true, ring := o.ring + data, enabled := true)
      else o.(enabled := true)
    case EmptyInterrupt =>
      if !o.enabled then o else
        var room := if |o.fifo| <= FIFO_LEN then FIFO_LEN - |o.fifo| else 0;
        var n := Least(|o.ring|, room);
        o.(ring := o.ring[n..], fifo := o.fifo + o.ring[..n], enabled := |o.ring| > room)
    case Shift(n) =>
      var m := Least(n, |o.fifo|);
      o.(fifo := o.fifo[m..], wire := o.wire + o.fifo[..m])
  }

  function OutputRun(o: Output, events: seq<OutputEvent>): Output
    decreases |events|
  {
    if events == [] then o else OutputRun(OutputStep(o, events[0]), events[1..])
  }

  /** The bytes of the sends that were not turned away. */
  function Accepted(o: Output, events: seq<OutputEvent>): seq<byte>
    decreases |events|
  {
    if events == [] then [] else
      (match events[0]
       case Send(data, heap) => if Accepts(o, data, heap) then data else []
       case _ => [])
      + Accepted(OutputStep(o, events[0]), events[1..])
  }

  /** What waits in the ring has an interrupt coming for it. */
  predicate OutputFits(o: Output) {
    && |o.fifo| <= FIFO_LEN && |o.ring| <= BUFFER_SIZE && (!o.made ==> o.ring == [])
    && (o.ring != [] ==> o.enabled)
  }

  function Sent(o: Output): seq<byte> {
    o.wire + o.fifo + o.ring
  }

  /** The source's one demand: what creates the ring must fit into it. */
  predicate Sendable(o: Output, e: OutputEvent) {
    e.Send? && !o.made ==> |e.data| <= BUFFER_SIZE
  }

  predicate AllSendable(o: Output, events: seq<OutputEvent>)
    decreases |events|
  {
    events == [] || (Sendable(o, events[0]) && AllSendable(OutputStep(o, events[0]), events[1..]))
  }

  lemma OutputStepFits(o: Output, e: OutputEvent)
    requires OutputFits(o) && Sendable(o, e)
    ensures OutputFits(OutputStep(o, e))
  {
  }

  /** Whatever the interleaving, every accepted byte is on the wire, in the FIFO or in the ring, once
      and in order. */
  lemma {:induction false} OutputConserved(o: Output, events: seq<OutputEvent>)
    ensures Sent(OutputRun(o, events)) == Sent(o) + Accepted(o, events)
    decreases |events|
  {
    if events != [] {
      var next := OutputStep(o, events[0]);
      OutputStepConserved(o, events[0]);
      OutputConserved(next, events[1..]);
      assert Accepted(o, [events[0]]) + Accepted(next, events[1..]) == Accepted(o, events);
    }
  }

  /** All of what is sent goes in if it fits; otherwise nothing does. */
  lemma SendAllOrNothing(o: Output, data: seq<byte>, heap: nat)
    ensures var sent := Sent(OutputStep(o, Send(data, heap)));
            if (if o.made then |o.ring| + |data| <= 256 else heap > 256) then sent == Sent(o) + data
            else sent == Sent(o)
    ensures OutputStep(o, Send(data, heap)).enabled
  {
  }

  /** What can be moved to the FIFO is moved, oldest first, until the ring is empty or the FIFO has 128 bytes. */
  lemma InterruptMoves(o: Output)
    requires OutputFits(o) && o.enabled
    ensures var r := OutputStep(o, EmptyInterrupt);
            && r.fifo + r.ring == o.fifo + o.ring && (r.ring == [] || |r.fifo| == 128) && r.wire == o.wire
            && (r.enabled <==> r.ring != [])
  {
    assert forall n: nat :: n <= |o.ring| ==> o.fifo + o.ring[..n] + o.ring[n..] == o.fifo + o.ring;
  }

  lemma OutputStepConserved(o: Output, e: OutputEvent)
    ensures Sent(OutputStep(o, e)) == Sent(o) + Accepted(o, [e])
  {
  }

  /** The interrupt is taken and the hardware empties its FIFO. */
  function Round(o: Output): Output {
    OutputStep(OutputStep(o, EmptyInterrupt), Shift(FIFO_LEN))
  }

  lemma RoundMoves(o: Output)
    requires OutputFits(o)
    ensures var r := Round(o);
            && OutputFits(r) && Sent(r) == Sent(o) && r.made == o.made && r.fifo == []
            && |r.ring| == |o.ring| - Least(|o.ring|, FIFO_LEN - |o.fifo|) && (r.enabled <==> r.ring != [])
  {
    var m := Least(|o.ring|, FIFO_LEN - |o.fifo|);
    var fifo := o.fifo + o.ring[..m];
    var next := OutputStep(o, EmptyInterrupt);
    assert next == Output(o.made, o.ring[m..], fifo, o.wire, |o.ring| > m);
    OutputStepConserved(o, EmptyInterrupt);
    OutputStepConserved(next, Shift(FIFO_LEN));
    assert Sent(o) + [] == Sent(o);
  }

  /** Nothing waits for ever: three rounds empty the ring on to the wire. */
  lemma ThreeRoundsDrain(o: Output)
    requires OutputFits(o)
    ensures Round(Round(Round(o))) == Output(o.made, [], [], Sent(o), false)
  {
    RoundMoves(o);
    RoundMoves(Round(o));
    RoundMoves(Round(Round(o)));
    hide Round;
    var r := Round(Round(Round(o)));
    assert r.wire + [] + [] == r.wire;
  }

  /** The sending side as the driver keeps it: a ring that may be missing. */
  class Transmitter {
    var ring: Ring?
    var fifo: seq<byte>
    var wire: seq<byte>
    var enabled: bool

    ghost predicate Valid()
      reads this, ring, if ring == null then {} else {ring.buffer}
    {
      && (ring != null ==> ring.Valid() && ring.buffer.Length == BUFFER_SIZE)
      && OutputFits(View())
    }

    ghost function View(): Output
      reads this, ring
    {
      Output(ring != null, if ring == null then [] else ring.contents, fifo, wire, enabled)
    }

    /** uart_init, with what the heap has left. */
    constructor (heap: nat)
      ensures Valid() && View() == Output(heap > BUFFER_SIZE, [], [], [], false)
      ensures ring != null ==> fresh(ring) && fresh(ring.buffer)
    {
      ring, fifo, wire, enabled := null, [], [], false;
      new;
      if heap > BUFFER_SIZE {
        ring := new Ring(BUFFER_SIZE);
      }
    }

    /** tx_buff_enq. */
    method Enqueue(data: seq<byte>, heap: nat)
      requires Valid() && Sendable(View(), Send(data, heap))
      modifies this, ring, if ring == null then {} else {ring.buffer}
      ensures Valid() && View() == OutputStep(old(View()), Send(data, heap))
      ensures ring == old(ring) || (fresh(ring) && fresh(ring.buffer))
    {
      hide Circular;
      enabled := false;
      if ring == null {
        if heap > BUFFER_SIZE {
          ring := new Ring(BUFFER_SIZE);
          ring.Copy(data);
        }
      } else if |data| <= ring.space {
        ring.Copy(data);
      }
      enabled := true;
    }

    /** The FIFO-empty branch of uart0_rx_intr_handler, and tx_start_uart_buffer. */
    method StartBuffer()
      requires Valid() && enabled
      modifies this, ring
      ensures Valid() && View() == OutputStep(old(View()), EmptyInterrupt) && ring == old(ring)
    {
      hide Circular;
      enabled := false;
      var remain := FIFO_LEN - |fifo|;
      if ring != null {
        var length := ring.buffer.Length - ring.space;
        if length > remain {
          var written := ring.Insert(remain);
          fifo := fifo + written;
          enabled := true;
        } else {
          var written := ring.Insert(length);
          fifo := fifo + written;
        }
      }
    }

    /** The hardware. */
    method PutOut(n: nat)
      requires Valid()
      modifies this`fifo, this`wire
      ensures Valid() && View() == OutputStep(old(View()), Shift(n))
    {
      var m := if n < |fifo| then n else |fifo|;
      wire := wire + fifo[..m];
      fifo := fifo[m..];
    }

    ghost function Footprint(): set<object>
      reads this, ring
    {
      {this} + if ring == null then {} else {ring, ring.buffer}
    }

    /** Any interleaving of sends, interrupts and hardware, in which what makes the ring fits into it. */
    method Run(events: seq<OutputEvent>)
      requires Valid() && AllSendable(View(), events)
      modifies Footprint()
      ensures Valid() && View() == OutputRun(old(View()), events)
      ensures Sent(View()) == Sent(old(View())) + Accepted(old(View()), events)
      decreases |events|
    {
      OutputConserved(View(), events);
      if events != [] {
        match events[0] {
          case Send(data, heap) => Enqueue(data, heap);
          case EmptyInterrupt =>
            if enabled {
              StartBuffer();
            }
          case Shift(n) => PutOut(n);
        }
        Run(events[1..]);
      }
    }
  }

  // ---------------------------------------------------------------- receiving

  /** The receiving side: the hardware FIFO, the ring, whether the receive interrupts are enabled, and
      how many runs of the receive task the interrupt has asked for. */
  datatype Input = Input(fifo: seq<byte>, ring: seq<byte>, enabled: bool, posted: nat)

  /** The hardware stores what its FIFO has room for; the rest is lost on the line. */
  function Stored(i: Input, bytes: seq<byte>): seq<byte> {
    bytes[..Least(|bytes|, if |i.fifo| <= FIFO_LEN then FIFO_LEN - |i.fifo| else 0)]
  }

  function Arrive(i: Input, bytes: seq<byte>): Input {
    i.(fifo := i.fifo + Stored(i, bytes))
  }

  /** A post to a full queue of the receive task is lost, but then there are others. */
  function Interrupt(i: Input): Input {
    if i.enabled then i.(enabled := false, posted := Least(i.posted + 1, TASK_QUEUE_LEN)) else i
  }

  predicate Roomy(ring: seq<byte>) {
    |ring| + FIFO_LEN <= BUFFER_SIZE
  }

  /** Everything in the FIFO is moved, or nothing when that would fill the ring. */
  function Receive(i: Input): Input {
    if i.posted == 0 then i
    else if |i.ring| + |i.fifo| >= BUFFER_SIZE then i.(posted := i.posted - 1)
    else
      var ring := i.ring + i.fifo;
      Input([], ring, i.enabled || Roomy(ring), i.posted - 1)
  }

  /** A read of `n` bytes. */
  function Read(i: Input, n: nat): Input
    requires n <= |i.ring|
  {
    i.(ring := i.ring[n..], enabled := i.enabled || Roomy(i.ring[n..]))
  }

  /** The ring is never full, and an interrupt that is off will be turned on again: a task is pending, or
      there are bytes to read. */
  predicate InputFits(i: Input) {
    && |i.fifo| <= FIFO_LEN && |i.ring| < BUFFER_SIZE && i.posted <= TASK_QUEUE_LEN
    && (i.enabled || i.posted > 0 || |i.ring| >= BUFFER_SIZE - FIFO_LEN)
  }

  lemma InputStepsFit(i: Input, bytes: seq<byte>, n: nat)
    requires InputFits(i) && n <= |i.ring|
    ensures InputFits(Arrive(i, bytes)) && InputFits(Interrupt(i)) && InputFits(Receive(i)) && InputFits(Read(i, n))
  {
  }

  /** The bytes received and not yet read. */
  function Unread(i: Input): seq<byte> {
    i.ring + i.fifo
  }

  /** A FIFO queue: bytes come in at the end and are read from the front, and nothing else changes it. */
  lemma InputConserved(i: Input, bytes: seq<byte>, n: nat)
    requires n <= |i.ring|
    ensures Unread(Arrive(i, bytes)) == Unread(i) + Stored(i, bytes)
    ensures Unread(Interrupt(i)) == Unread(i) && Unread(Receive(i)) == Unread(i)
    ensures i.ring[..n] + Unread(Read(i, n)) == Unread(i)
  {
    assert i.ring + i.fifo + [] == i.ring + i.fifo;
  }

  /** A run of the task moves all of the FIFO if a byte of the ring stays free, and nothing if not. */
  lemma TaskMoves(i: Input)
    requires i.posted > 0
    ensures var r := Receive(i);
            if |i.ring| + |i.fifo| < 256 then r.fifo == [] && r.ring == i.ring + i.fifo
            else r.fifo == i.fifo && r.ring == i.ring
  {
  }

  /**
   * The flow control: the FIFO takes what there is room for, an interrupt turns itself off and posts one run
   * of the task, at most ten, and moving or reading bytes turns it on again once 128 bytes of the ring are free.
   */
  lemma FlowControl(i: Input, bytes: seq<byte>, n: nat)
    requires InputFits(i) && n <= |i.ring|
    ensures Stored(i, bytes) <= bytes && (Stored(i, bytes) == bytes || |i.fifo| + |Stored(i, bytes)| == 128)
    ensures i.enabled ==> Interrupt(i) == i.(enabled := false, posted := if i.posted < 10 then i.posted + 1 else 10)
    ensures Read(i, n).enabled <==> i.enabled || |i.ring| - n <= 128
    ensures i.posted > 0 && |i.ring| + |i.fifo| < 256 ==>
              (Receive(i).enabled <==> i.enabled || |i.ring| + |i.fifo| <= 128)
  {
  }

  /** The receiving side as the driver keeps it. */
  class Receiver {
    const ring: Ring
    var fifo: seq<byte>
    var enabled: bool
    var posted: nat

    ghost predicate Valid()
      reads this, ring, ring.buffer
    {
      ring.Valid() && ring.buffer.Length == BUFFER_SIZE && InputFits(View())
    }

    ghost function View(): Input
      reads this, ring
    {
      Input(fifo, ring.contents, enabled, posted)
    }

    /** uart_init; without the heap for the ring the source would use a NULL pointer. */
    constructor ()
      ensures Valid() && View() == Input([], [], true, 0) && fresh(ring) && fresh(ring.buffer)
    {
      ring := new Ring(BUFFER_SIZE);
      fifo, enabled, posted := [], true, 0;
    }

    /** The hardware. */
    method TakeIn(bytes: seq<byte>)
      requires Valid()
      modifies this`fifo
      ensures Valid() && View() == Arrive(old(View()), bytes)
    {
      var room := FIFO_LEN - |fifo|;
      fifo := fifo + if |bytes| <= room then bytes else bytes[..room];
    }

    /** The receive branches of uart0_rx_intr_handler. */
    method HandleInterrupt()
      requires Valid() && enabled
      modifies this`enabled, this`posted
      ensures Valid() && View() == Interrupt(old(View()))
    {
      enabled := false;
      if posted < TASK_QUEUE_LEN {
        posted := posted + 1;
      }
    }

    /** uart_recvTask and Uart_rx_buff_enq. */
    method RunTask()
      requires Valid() && posted > 0
      modifies this, ring, ring.buffer
      ensures Valid() && View() == Receive(old(View()))
    {
      hide Circular;
      posted := posted - 1;
      if |fifo| < ring.space {
        ring.Enqueue(fifo);
        fifo := [];
        if ring.space >= FIFO_LEN {
          enabled := true;
        }
      }
    }

    /** rx_buff_deq, with the interrupts it turns on. */
    method Dequeue(target: array<byte>, at: nat, limit: nat) returns (n: nat)
      requires Valid() && target != ring.buffer && at + limit <= target.Length
      modifies this`enabled, ring`outPos, ring`space, ring`contents, target
      ensures Valid() && n == Least(limit, old(|ring.contents|)) && View() == Read(old(View()), n)
      ensures target[..] == Put(old(target[..]), at, old(ring.contents)[..n])
    {
      hide Circular, Put;
      n := ring.Dequeue(target, at, limit);
      if ring.space >= FIFO_LEN {
        enabled := true;
      }
    }
  }
}
