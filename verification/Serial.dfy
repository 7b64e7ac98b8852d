/**
 * src/esp8266/serial.c: on every tick of its timer the serial port takes what the driver has received
 * and hands it on in records.
 */
module Serial {
  import opened Bytes
  import opened Uart

  const SERIAL_BUFFER_SIZE: nat := 128
  const NO_DELIMITER: byte := 0

  /** The receiving side with the record that is being collected, and the records handed on. */
  datatype Link = Link(input: Input, partial: seq<byte>, records: seq<seq<byte>>)

  datatype LinkEvent = Arrival(bytes: seq<byte>) | ReceiveInterrupt | ReceiveTask | Tick

  /** What has been collected is handed on. */
  predicate Complete(collected: seq<byte>, delimiter: byte) {
    collected != [] &&
    (delimiter == NO_DELIMITER || |collected| == SERIAL_BUFFER_SIZE || collected[|collected| - 1] == delimiter)
  }

  /** aiko_serial_timer_handler. */
  function Collect(l: Link, delimiter: byte): Link
    requires |l.partial| <= SERIAL_BUFFER_SIZE
  {
    var n := Least(SERIAL_BUFFER_SIZE - |l.partial|, |l.input.ring|);
    var collected := l.partial + l.input.ring[..n];
    var input := Read(l.input, n);
    if n > 0 && Complete(collected, delimiter) then Link(input, [], l.records + [collected])
    else Link(input, collected, l.records)
  }

  function LinkStep(l: Link, delimiter: byte, e: LinkEvent): Link
    requires |l.partial| <= SERIAL_BUFFER_SIZE
  {
    match e
    case Arrival(bytes) => l.(input := Arrive(l.input, bytes))
    case ReceiveInterrupt => l.(input := Interrupt(l.input))
    case ReceiveTask => l.(input := Receive(l.input))
    case Tick => Collect(l, delimiter)
  }

  /** A record has 1 to 128 bytes; if there is a delimiter, it ends in it or has 128. */
  predicate WellFormed(record: seq<byte>, delimiter: byte) {
    && 1 <= |record| <= 128
    && (delimiter != 0 ==> |record| == 128 || record[|record| - 1] == delimiter)
  }

  /** Bytes are kept back only for a delimiter that has not come yet. */
  predicate KeptBack(partial: seq<byte>, delimiter: byte) {
    partial != [] ==> delimiter != 0 && |partial| < 128 && partial[|partial| - 1] != delimiter
  }

  /** What the timer keeps. */
  predicate LinkFits(l: Link, delimiter: byte) {
    && InputFits(l.input) && KeptBack(l.partial, delimiter)
    && forall i :: 0 <= i < |l.records| ==> WellFormed(l.records[i], delimiter)
  }

  lemma StepFits(l: Link, delimiter: byte, e: LinkEvent)
    requires LinkFits(l, delimiter)
    ensures LinkFits(LinkStep(l, delimiter, e), delimiter)
  {
    InputStepsFit(l.input, if e.Arrival? then e.bytes else [], 0);
    if e.Tick? {
      InputStepsFit(l.input, [], Least(SERIAL_BUFFER_SIZE - |l.partial|, |l.input.ring|));
    }
  }

  function LinkRun(l: Link, delimiter: byte, events: seq<LinkEvent>): (r: Link)
    requires LinkFits(l, delimiter)
    ensures LinkFits(r, delimiter)
    decreases |events|
  {
    if events == [] then l else
      StepFits(l, delimiter, events[0]);
      LinkRun(LinkStep(l, delimiter, events[0]), delimiter, events[1..])
  }

  /** All bytes in the order in which they came in: handed on, collected, in the ring, in the FIFO. */
  function Taken(l: Link): seq<byte> {
    Flat(l.records) + l.partial + Unread(l.input)
  }

  /** The bytes the hardware stored over a run. */
  function StoredBy(l: Link, delimiter: byte, events: seq<LinkEvent>): seq<byte>
    requires LinkFits(l, delimiter)
    decreases |events|
  {
    if events == [] then [] else
      StepFits(l, delimiter, events[0]);
      (if events[0].Arrival? then Stored(l.input, events[0].bytes) else [])
      + StoredBy(LinkStep(l, delimiter, events[0]), delimiter, events[1..])
  }

  lemma StepConserves(l: Link, delimiter: byte, e: LinkEvent)
    requires LinkFits(l, delimiter)
    ensures Taken(LinkStep(l, delimiter, e)) ==
            Taken(l) + if e.Arrival? then Stored(l.input, e.bytes) else []
  {
    assert Taken(l) + [] == Taken(l);
    if e.Tick? {
      CollectConserves(l, delimiter);
    } else {
      hide Unread, Arrive, Interrupt, Receive, Stored;
      InputConserved(l.input, if e.Arrival? then e.bytes else [], 0);
    }
  }

  lemma CollectConserves(l: Link, delimiter: byte)
    requires |l.partial| <= SERIAL_BUFFER_SIZE
    ensures Taken(Collect(l, delimiter)) == Taken(l)
  {
    hide Complete, Unread, Read;
    var n := Least(SERIAL_BUFFER_SIZE - |l.partial|, |l.input.ring|);
    var taken := l.input.ring[..n];
    var collected, rest := l.partial + taken, Unread(Read(l.input, n));
    InputConserved(l.input, [], n);
    FlatAppend(l.records, [collected]);
    assert Flat([collected]) == collected + Flat([]);
    assert Flat(l.records) + l.partial + (taken + rest) == Flat(l.records) + collected + rest;
    assert Flat(l.records) + collected + [] + rest == Flat(l.records) + collected + rest;
  }

  /** End to end, over every run: no byte the hardware stored is lost, repeated or moved. */
  lemma {:induction false} LinkConserves(l: Link, delimiter: byte, events: seq<LinkEvent>)
    requires LinkFits(l, delimiter)
    ensures Taken(LinkRun(l, delimiter, events)) == Taken(l) + StoredBy(l, delimiter, events)
    decreases |events|
  {
    hide InputFits, WellFormed, Complete, LinkStep, Taken;
    if events != [] {
      StepFits(l, delimiter, events[0]);
      StepConserves(l, delimiter, events[0]);
      LinkConserves(LinkStep(l, delimiter, events[0]), delimiter, events[1..]);
    }
  }

  /** From the start, what has been handed on is the front of what the hardware stored. */
  lemma RecordsAreFront(delimiter: byte, events: seq<LinkEvent>)
    ensures var start := Link(Input([], [], true, 0), [], []);
      && Flat(LinkRun(start, delimiter, events).records) <= StoredBy(start, delimiter, events)
      && forall i :: 0 <= i < |LinkRun(start, delimiter, events).records| ==>
           WellFormed(LinkRun(start, delimiter, events).records[i], delimiter)
  {
    var start := Link(Input([], [], true, 0), [], []);
    assert Taken(start) == [];
    hide StoredBy, LinkRun, Flat, WellFormed, Complete, InputFits, Taken;
    LinkConserves(start, delimiter, events);
    RecordsInFront(LinkRun(start, delimiter, events));
    assert [] + StoredBy(start, delimiter, events) == StoredBy(start, delimiter, events);
  }

  lemma RecordsInFront(l: Link)
    ensures Flat(l.records) <= Taken(l)
  {
    assert Taken(l) == Flat(l.records) + (l.partial + Unread(l.input));
  }

  /** A tick that takes all there is, up to a delimiter, or fills the buffer, or has no delimiter, hands it on. */
  lemma TickDelivers(l: Link, delimiter: byte)
    requires LinkFits(l, delimiter) && l.input.ring != [] && |l.partial| + |l.input.ring| <= 128
    ensures var collected, r := l.partial + l.input.ring, Collect(l, delimiter);
      && r.input.ring == []
      && if delimiter == 0 || |collected| == 128 || collected[|collected| - 1] == delimiter
         then r.partial == [] && r.records == l.records + [collected]
         else r.partial == collected && r.records == l.records
  {
    assert l.input.ring[..|l.input.ring|] == l.input.ring;
  }

  /**
   * A line of at most 128 bytes that ends in the delimiter, sent to an idle port, is handed on as one
   * record by one interrupt, one run of the task and one tick.
   */
  lemma LineDelivered(line: seq<byte>, records: seq<seq<byte>>, delimiter: byte)
    requires 1 <= |line| <= 128 && (delimiter == 0 || line[|line| - 1] == delimiter)
    requires LinkFits(Link(Input([], [], true, 0), [], records), delimiter)
    ensures LinkRun(Link(Input([], [], true, 0), [], records), delimiter,
                    [Arrival(line), ReceiveInterrupt, ReceiveTask, Tick]) ==
            Link(Input([], [], true, 0), [], records + [line])
  {
    var events := [Arrival(line), ReceiveInterrupt, ReceiveTask, Tick];
    var l0 := Link(Input([], [], true, 0), [], records);
    var l1 := Link(Input(line, [], true, 0), [], records);
    var l2 := Link(Input(line, [], false, 1), [], records);
    var l3 := Link(Input([], line, true, 0), [], records);
    assert Stored(l0.input, line) == line && [] + line == line;
    assert LinkStep(l0, delimiter, events[0]) == l1 && LinkStep(l1, delimiter, events[1]) == l2;
    assert LinkStep(l2, delimiter, events[2]) == l3;
    assert LinkFits(l1, delimiter) && LinkFits(l2, delimiter) && LinkFits(l3, delimiter);
    TickDelivers(l3, delimiter);
    assert Collect(l3, delimiter) == Link(Input([], [], true, 0), [], records + [line]) by {
      assert [] + line == line;
    }
    hide LinkStep, LinkFits, Collect;
    assert events == [Arrival(line)] + ([ReceiveInterrupt] + ([ReceiveTask] + ([Tick] + [])));
    RunFirst(l0, delimiter, Arrival(line), [ReceiveInterrupt] + ([ReceiveTask] + ([Tick] + [])));
    RunFirst(l1, delimiter, ReceiveInterrupt, [ReceiveTask] + ([Tick] + []));
    RunFirst(l2, delimiter, ReceiveTask, [Tick] + []);
    RunFirst(l3, delimiter, Tick, []);
  }

  lemma RunFirst(l: Link, delimiter: byte, e: LinkEvent, rest: seq<LinkEvent>)
    requires LinkFits(l, delimiter)
    ensures |l.partial| <= SERIAL_BUFFER_SIZE && LinkFits(LinkStep(l, delimiter, e), delimiter)
    ensures LinkRun(l, delimiter, [e] + rest) == LinkRun(LinkStep(l, delimiter, e), delimiter, rest)
    ensures LinkRun(l, delimiter, []) == l
    ensures LinkRun(LinkStep(l, delimiter, e), delimiter, []) == LinkStep(l, delimiter, e)
    ensures e.Tick? ==> LinkStep(l, delimiter, e) == Collect(l, delimiter)
  {
    StepFits(l, delimiter, e);
    assert ([e] + rest)[1..] == rest;
  }

  /** Three ticks empty the ring, and turn the receive interrupts on again. */
  lemma ThreeTicks(l: Link, delimiter: byte)
    requires LinkFits(l, delimiter)
    ensures var r := LinkRun(l, delimiter, [Tick, Tick, Tick]);
            r.input.ring == [] && r.input.enabled
  {
    var a := Collect(l, delimiter);
    StepFits(l, delimiter, Tick);
    var b := Collect(a, delimiter);
    StepFits(a, delimiter, Tick);
    assert [Tick, Tick, Tick][1..] == [Tick, Tick] && [Tick, Tick][1..] == [Tick] && [Tick][1..] == [];
  }

  /** The port as the source keeps it. */
  class Port {
    const receiver: Receiver
    const buffer: array<byte>
    const delimiter: byte
    var length: nat
    /** What the handlers of the serial streams have been called with. */
    var records: seq<seq<byte>>

    ghost predicate Valid()
      reads this, receiver, receiver.ring, receiver.ring.buffer, buffer
    {
      && receiver.Valid() && buffer != receiver.ring.buffer && buffer.Length == SERIAL_BUFFER_SIZE
      && length < buffer.Length && LinkFits(View(), delimiter)
    }

    ghost function View(): Link
      reads this, receiver, receiver.ring, buffer
      requires length <= buffer.Length
    {
      Link(receiver.View(), buffer[..length], records)
    }

    /** aiko_serial_port_open. */
    constructor (delimiter: byte)
      ensures Valid() && View() == Link(Input([], [], true, 0), [], []) && this.delimiter == delimiter
      ensures fresh(receiver) && fresh(receiver.ring) && fresh(receiver.ring.buffer) && fresh(buffer)
    {
      receiver := new Receiver();
      buffer := new byte[SERIAL_BUFFER_SIZE](_ => 0);
      this.delimiter, length, records := delimiter, 0, [];
    }

    /** aiko_serial_timer_handler. */
    method TimerHandler()
      requires Valid()
      modifies this, receiver, receiver.ring, buffer
      ensures Valid() && View() == Collect(old(View()), delimiter)
    {
      hide Receiver.Valid, Ring.Valid;
      StepFits(View(), delimiter, Tick);
      var n := receiver.Dequeue(buffer, length, buffer.Length - length);
      assert buffer[..length + n] == old(View().partial + receiver.ring.contents[..n]);
      if n > 0 {
        length := length + n;
        if delimiter == NO_DELIMITER || length == SERIAL_BUFFER_SIZE || buffer[length - 1] == delimiter {
          records := records + [buffer[..length]];
          length := 0;
        }
      }
    }

    /** Any interleaving of the line, the interrupt, the receive task and the timer. */
    method Run(events: seq<LinkEvent>)
      requires Valid()
      modifies this, receiver, receiver.ring, receiver.ring.buffer, buffer
      ensures Valid() && View() == LinkRun(old(View()), delimiter, events)
      decreases |events|
    {
      hide Receiver.Valid, Ring.Valid;
      if events != [] {
        StepFits(View(), delimiter, events[0]);
        match events[0] {
          case Arrival(bytes) => receiver.TakeIn(bytes);
          case ReceiveInterrupt =>
            if receiver.enabled {
              receiver.HandleInterrupt();
            }
          case ReceiveTask =>
            if receiver.posted > 0 {
              receiver.RunTask();
            }
          case Tick => TimerHandler();
        }
        Run(events[1..]);
      }
    }
  }
}
