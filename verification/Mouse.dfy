/** The PS/2 mouse of mouse.c: framing of the byte stream into packets of three bytes, the ring of
    decoded events, and the cursor. */
module Mouse {
  import opened Words
  import Rings

  datatype Event = Event(dx: Int8, dy: Int8, left: bool, right: bool, middle: bool)

  const NO_EVENT: Event := Event(0, 0, false, false, false)

  function Decode(status: Byte, x: Byte, y: Byte): Event {
    Event(Signed(x), Signed(y), Bit(status, 0), Bit(status, 1), Bit(status, 2))
  }

  // ---------------------------------------------------------------- framing

  /** The packets of a byte stream: bytes without bit 3 are skipped between packets, and any other
      byte starts a packet of three. */
  function Packets(bytes: seq<Byte>): seq<Event> {
    if bytes == [] then []
    else if !Bit(bytes[0], 3) then Packets(bytes[1..])
    else if |bytes| < 3 then []
    else [Decode(bytes[0], bytes[1], bytes[2])] + Packets(bytes[3..])
  }

  /** The bytes of the packet that is not complete yet. */
  function Partial(bytes: seq<Byte>): (p: seq<Byte>)
    ensures |p| < 3
  {
    if bytes == [] then []
    else if !Bit(bytes[0], 3) then Partial(bytes[1..])
    else if |bytes| < 3 then bytes
    else Partial(bytes[3..])
  }

  /** What one more byte does to the packets of a stream. */
  lemma {:induction false} OneMoreByte(bytes: seq<Byte>, b: Byte)
    ensures var p := Partial(bytes);
            if p == [] && !Bit(b, 3) then
              Packets(bytes + [b]) == Packets(bytes) && Partial(bytes + [b]) == []
            else if |p| < 2 then
              Packets(bytes + [b]) == Packets(bytes) && Partial(bytes + [b]) == p + [b]
            else
              Packets(bytes + [b]) == Packets(bytes) + [Decode(p[0], p[1], b)] && Partial(bytes + [b]) == []
    decreases |bytes|
  {
    var more := bytes + [b];
    if bytes == [] {
      assert more[1..] == [];
    } else if !Bit(bytes[0], 3) {
      assert more[1..] == bytes[1..] + [b];
      OneMoreByte(bytes[1..], b);
    } else if |bytes| >= 3 {
      assert more[3..] == bytes[3..] + [b];
      OneMoreByte(bytes[3..], b);
    } else {
      assert |more| == 3 ==> more[3..] == [];
    }
  }

  // ---------------------------------------------------------------- what a mouse sends

  /** The byte of a signed movement, in two's complement. */
  function Movement(n: Int8): Byte {
    if n >= 0 then n else n + 0x100
  }

  /** A packet for an event: buttons in bits 0 to 2, bit 3 set, any four high bits, then the two
      movements. It may follow bytes that do not begin a packet. */
  datatype Frame = Frame(noise: seq<Byte>, event: Event, high: nat)

  /** A byte whose value modulo 16 is below 8, so without bit 3. */
  predicate Noise(b: Byte) {
    b % 16 < 8
  }

  ghost predicate FrameOk(frame: Frame) {
    frame.high < 16 && forall i :: 0 <= i < |frame.noise| ==> Noise(frame.noise[i])
  }

  function Status(e: Event, high: nat): Byte
    requires high < 16
  {
    16 * high + 8 + (if e.middle then 4 else 0) + (if e.right then 2 else 0) + (if e.left then 1 else 0)
  }

  function PacketBytes(e: Event, high: nat): (s: seq<Byte>)
    requires high < 16
    ensures |s| == 3
  {
    [Status(e, high), Movement(e.dx), Movement(e.dy)]
  }

  ghost function StreamBytes(frames: seq<Frame>): seq<Byte>
    requires forall i :: 0 <= i < |frames| ==> FrameOk(frames[i])
  {
    if frames == [] then []
    else
      assert FrameOk(frames[0]);
      frames[0].noise + (PacketBytes(frames[0].event, frames[0].high) + StreamBytes(frames[1..]))
  }

  /** Decoding a packet gives the event back. */
  lemma DecodePacket(e: Event, high: nat)
    requires high < 16
    ensures var s := PacketBytes(e, high); Bit(s[0], 3) && Decode(s[0], s[1], s[2]) == e
  {
    LowBits(high, 1, if e.middle then 1 else 0, if e.right then 1 else 0, if e.left then 1 else 0);
  }

  lemma {:induction false} NoiseSkipped(noise: seq<Byte>, rest: seq<Byte>)
    requires forall i :: 0 <= i < |noise| ==> Noise(noise[i])
    ensures Packets(noise + rest) == Packets(rest)
  {
    if noise == [] {
      assert noise + rest == rest;
    } else {
      BitThree(noise[0]);
      assert (noise + rest)[1..] == noise[1..] + rest;
      NoiseSkipped(noise[1..], rest);
    }
  }

  /** The packets of what a mouse sends are its events, in order, whatever noise lies between them. */
  lemma {:induction false} PacketsOfStream(frames: seq<Frame>)
    requires forall i :: 0 <= i < |frames| ==> FrameOk(frames[i])
    ensures |Packets(StreamBytes(frames))| == |frames|
    ensures forall i :: 0 <= i < |frames| ==> Packets(StreamBytes(frames))[i] == frames[i].event
  {
    if frames == [] {
    } else {
      var frame, rest := frames[0], StreamBytes(frames[1..]);
      var packet := PacketBytes(frame.event, frame.high);
      assert FrameOk(frame);
      NoiseSkipped(frame.noise, packet + rest);
      DecodePacket(frame.event, frame.high);
      assert (packet + rest)[3..] == rest;
      PacketsOfStream(frames[1..]);
    }
  }

  // ---------------------------------------------------------------- the driver

  /** What happens to the driver: a byte from the PS/2 port, a report from a USB mouse, or a call
      that fetches an event. */
  datatype Input = Data(b: Byte) | Report(event: Event) | Get

  datatype Driver = Driver(packet: seq<Byte>, pending: seq<Event>, x: int, y: int)

  const INITIAL: Driver := Driver([], [], 40, 12)

  /** The place in 0..max that is nearest to n. */
  function Clamp(n: int, max: int): (r: int)
    requires max >= 0
    ensures 0 <= r <= max
  {
    if n < 0 then 0 else if n > max then max else n
  }

  function Distance(a: int, b: int): nat {
    if a <= b then b - a else a - b
  }

  /** No other place on the screen is nearer. */
  lemma ClampIsNearest(n: int, max: int, m: int)
    requires 0 <= m <= max
    ensures Distance(n, Clamp(n, max)) <= Distance(n, m)
    ensures Distance(n, Clamp(n, max)) == Distance(n, m) ==> m == Clamp(n, max)
  {
  }

  /** A full queue drops the event. */
  function Enqueue(d: Driver, e: Event, room: nat): Driver {
    if |d.pending| < room then d.(pending := d.pending + [e]) else d
  }

  function Receive(d: Driver, b: Byte, room: nat): Driver
    requires |d.packet| < 3
  {
    if d.packet == [] && !Bit(b, 3) then d
    else if |d.packet| < 2 then d.(packet := d.packet + [b])
    else Enqueue(d.(packet := []), Decode(d.packet[0], d.packet[1], b), room)
  }

  function Fetch(d: Driver): Driver {
    if d.pending == [] then d
    else
      var e := d.pending[0];
      d.(pending := d.pending[1..], x := Clamp(d.x + e.dx, 79), y := Clamp(d.y - e.dy, 23))
  }

  ghost predicate Ok(d: Driver, room: nat) {
    |d.packet| < 3 && |d.pending| <= room && 0 <= d.x <= 79 && 0 <= d.y <= 23
  }

  ghost function Step(d: Driver, input: Input, room: nat): (d': Driver)
    requires Ok(d, room)
    ensures Ok(d', room)
  {
    match input
    case Data(b) => Receive(d, b, room)
    case Report(e) => Enqueue(d, e, room)
    case Get => Fetch(d)
  }

  /** Every reachable state has the cursor on the screen and at most `room` pending events. */
  ghost function Run(inputs: seq<Input>, room: nat): (d: Driver)
    ensures Ok(d, room)
    decreases |inputs|
  {
    if inputs == [] then INITIAL else Step(Run(inputs[..|inputs| - 1], room), inputs[|inputs| - 1], room)
  }

  /** The events that the Get inputs returned. */
  ghost function Delivered(inputs: seq<Input>, room: nat): seq<Event>
    decreases |inputs|
  {
    if inputs == [] then []
    else
      var before := inputs[..|inputs| - 1];
      var d := Run(before, room);
      Delivered(before, room) + if inputs[|inputs| - 1].Get? && d.pending != [] then [d.pending[0]] else []
  }

  // ---------------------------------------------------------------- the reference

  /** All bytes so far, all events accepted so far, and how many of these were delivered. */
  datatype History = History(bytes: seq<Byte>, accepted: seq<Event>, delivered: nat)

  /** An event is dropped when `room` accepted ones wait for delivery. */
  ghost function Offer(h: History, e: Event, room: nat): History {
    if |h.accepted| - h.delivered < room then h.(accepted := h.accepted + [e]) else h
  }

  /** What an input offers, after these bytes: the packet that a byte completes in the whole stream,
      or the event of a report. */
  ghost function Arriving(bytes: seq<Byte>, input: Input): seq<Event> {
    match input
    case Data(b) =>
      var events := Packets(bytes + [b]);
      if |events| > |Packets(bytes)| then [events[|events| - 1]] else []
    case Report(e) => [e]
    case Get => []
  }

  ghost function Observe(h: History, input: Input, room: nat): History {
    var h' := if input.Data? then h.(bytes := h.bytes + [input.b]) else h;
    var arriving := Arriving(h.bytes, input);
    if input.Get? then if h.delivered < |h.accepted| then h.(delivered := h.delivered + 1) else h
    else if arriving == [] then h'
    else Offer(h', arriving[0], room)
  }

  ghost function Past(inputs: seq<Input>, room: nat): History
    decreases |inputs|
  {
    if inputs == [] then History([], [], 0)
    else Observe(Past(inputs[..|inputs| - 1], room), inputs[|inputs| - 1], room)
  }

  ghost predicate Matches(d: Driver, h: History) {
    h.delivered <= |h.accepted| && d.pending == h.accepted[h.delivered..] && d.packet == Partial(h.bytes)
  }

  lemma StepMatches(d: Driver, h: History, input: Input, room: nat)
    requires Ok(d, room) && Matches(d, h)
    ensures Matches(Step(d, input, room), Observe(h, input, room))
  {
    match input
    case Data(b) => OneMoreByte(h.bytes, b);
    case Report(e) =>
    case Get =>
  }

  /** In every run the delivered events are, in order, the first of the accepted ones, and the
      rest of those are pending. */
  lemma {:induction false} RunMatches(inputs: seq<Input>, room: nat)
    ensures Matches(Run(inputs, room), Past(inputs, room))
    ensures Delivered(inputs, room) == Past(inputs, room).accepted[..Past(inputs, room).delivered]
    decreases |inputs|
  {
    if inputs == [] {
    } else {
      var n := |inputs| - 1;
      RunMatches(inputs[..n], room);
      StepMatches(Run(inputs[..n], room), Past(inputs[..n], room), inputs[n], room);
    }
  }

  /** The bytes that the PS/2 port sent. */
  ghost function Bytes(inputs: seq<Input>): seq<Byte>
    decreases |inputs|
  {
    if inputs == [] then []
    else Bytes(inputs[..|inputs| - 1]) + if inputs[|inputs| - 1].Data? then [inputs[|inputs| - 1].b] else []
  }

  /** All events that arrive, in order. */
  ghost function Offered(inputs: seq<Input>): seq<Event>
    decreases |inputs|
  {
    if inputs == [] then []
    else var n := |inputs| - 1; Offered(inputs[..n]) + Arriving(Bytes(inputs[..n]), inputs[n])
  }

  /** If input i offers an event, fewer than `room` events wait before it. */
  ghost predicate RoomAt(inputs: seq<Input>, i: nat, room: nat)
    requires i < |inputs|
  {
    Arriving(Bytes(inputs[..i]), inputs[i]) != [] ==> |Run(inputs[..i], room).pending| < room
  }

  /** The reader keeps up: whenever an event arrives there is room for it. */
  ghost predicate KeepsUp(inputs: seq<Input>, room: nat) {
    forall i: nat :: i < |inputs| ==> RoomAt(inputs, i, room)
  }

  lemma KeepsUpBefore(inputs: seq<Input>, room: nat)
    requires inputs != []
    ensures var n := |inputs| - 1; KeepsUp(inputs, room) <==> KeepsUp(inputs[..n], room) && RoomAt(inputs, n, room)
  {
    var n := |inputs| - 1;
    forall i: nat | i < n ensures RoomAt(inputs, i, room) <==> RoomAt(inputs[..n], i, room) {
      assert inputs[..n][..i] == inputs[..i];
    }
  }

  /** All arriving events are accepted exactly when the reader keeps up. */
  lemma {:induction false} AcceptedAll(inputs: seq<Input>, room: nat)
    ensures var h := Past(inputs, room);
            && h.bytes == Bytes(inputs) && |h.accepted| <= |Offered(inputs)|
            && (h.accepted == Offered(inputs) <==> KeepsUp(inputs, room))
            && (|h.accepted| == |Offered(inputs)| ==> h.accepted == Offered(inputs))
    decreases |inputs|
  {
    if inputs == [] {
    } else {
      var n := |inputs| - 1;
      AcceptedAll(inputs[..n], room);
      RunMatches(inputs[..n], room);
      KeepsUpBefore(inputs, room);
    }
  }

  /** Delivered and pending events together are all that arrived, once each and in order, if and
      only if the reader keeps up. */
  lemma NothingLost(inputs: seq<Input>, room: nat)
    ensures Delivered(inputs, room) + Run(inputs, room).pending == Offered(inputs) <==> KeepsUp(inputs, room)
  {
    Accounted(inputs, room);
    AcceptedAll(inputs, room);
  }

  lemma Accounted(inputs: seq<Input>, room: nat)
    ensures Delivered(inputs, room) + Run(inputs, room).pending == Past(inputs, room).accepted
  {
    RunMatches(inputs, room);
    var h := Past(inputs, room);
    assert h.accepted[..h.delivered] + h.accepted[h.delivered..] == h.accepted;
  }

  /** Without reports, what arrives are the packets of the byte stream. */
  lemma {:induction false} OfferedArePackets(inputs: seq<Input>)
    requires forall i :: 0 <= i < |inputs| ==> !inputs[i].Report?
    ensures Offered(inputs) == Packets(Bytes(inputs))
    decreases |inputs|
  {
    if inputs == [] {
    } else {
      var n := |inputs| - 1;
      var before, bytes := inputs[..n], Bytes(inputs[..n]);
      OfferedArePackets(before);
      if inputs[n].Data? {
        OneMoreByte(bytes, inputs[n].b);
        assert Offered(before) + [] == Offered(before);
      } else {
        assert !inputs[n].Report? && bytes + [] == bytes;
      }
    }
  }

  // ---------------------------------------------------------------- the cursor

  ghost function SumX(events: seq<Event>): int {
    if events == [] then 0 else SumX(events[..|events| - 1]) + events[|events| - 1].dx
  }

  ghost function SumY(events: seq<Event>): int {
    if events == [] then 0 else SumY(events[..|events| - 1]) + events[|events| - 1].dy
  }

  /** The movements lead from the middle to a place on the screen. */
  ghost predicate Within(events: seq<Event>) {
    0 <= 40 + SumX(events) <= 79 && 0 <= 12 - SumY(events) <= 23
  }

  /** The cursor is where the movements lead, with y upwards. */
  ghost predicate Follows(d: Driver, events: seq<Event>) {
    d.x == 40 + SumX(events) && d.y == 12 - SumY(events)
  }

  lemma FetchFollows(d: Driver, events: seq<Event>)
    requires d.pending != [] && Follows(d, events) && Within(events + [d.pending[0]])
    ensures Follows(Fetch(d), events + [d.pending[0]])
  {
    assert (events + [d.pending[0]])[..|events|] == events;
  }

  /** The delivered movements never lead off the screen. */
  ghost predicate OnScreen(inputs: seq<Input>, room: nat) {
    forall k :: 0 <= k <= |inputs| ==> Within(Delivered(inputs[..k], room))
  }

  lemma OnScreenBefore(inputs: seq<Input>, room: nat)
    requires OnScreen(inputs, room)
    ensures Within(Delivered(inputs, room)) && (inputs != [] ==> OnScreen(inputs[..|inputs| - 1], room))
  {
    assert inputs[..|inputs|] == inputs;
    if inputs != [] {
      var before := inputs[..|inputs| - 1];
      forall k | 0 <= k <= |before| ensures Within(Delivered(before[..k], room)) {
        assert before[..k] == inputs[..k];
      }
    }
  }

  /** Then the cursor follows them exactly. */
  lemma {:induction false} CursorFollows(inputs: seq<Input>, room: nat)
    requires OnScreen(inputs, room)
    ensures Follows(Run(inputs, room), Delivered(inputs, room))
    decreases |inputs|
  {
    OnScreenBefore(inputs, room);
    if inputs == [] {
    } else {
      var before, last := inputs[..|inputs| - 1], inputs[|inputs| - 1];
      CursorFollows(before, room);
      var d, events := Run(before, room), Delivered(before, room);
      if last.Get? && d.pending != [] {
        FetchFollows(d, events);
      } else {
        assert events + [] == events;
      }
    }
  }

  // ---------------------------------------------------------------- the ring

  /** A slot holds an event. */
  ghost function Same(): (Event, Event) -> bool {
    (slot: Event, e: Event) => slot == e
  }

  /** (i + 1) & mask for a ring of mask + 1 == 2^bits slots. */
  method NextSlot(i: nat, bits: nat) returns (r: nat)
    requires i < Pow2(bits)
    ensures r == Wrap(i + 1, Pow2(bits))
  {
    AndWraps(i + 1, bits);
    r := And(i + 1, Pow2(bits) - 1);
  }

  class MouseDriver {
    /** A ring of 2^bits slots, of which one stays empty. */
    const mouseQueue: array<Event>
    const bits: nat
    var queueHead: nat
    var queueTail: nat
    const mousePacket: array<Byte>
    var packetOffset: nat
    var mouseX: int
    var mouseY: int
    ghost var pending: seq<Event>

    /** The state that mouse_initialize sets up. */
    constructor (bits: nat)
      ensures Valid() && fresh(mouseQueue) && fresh(mousePacket) && this.bits == bits && State() == INITIAL
    {
      this.bits := bits;
      mouseQueue := new Event[Pow2(bits)](_ => NO_EVENT);
      mousePacket := new Byte[3](_ => 0);
      queueHead, queueTail, packetOffset, mouseX, mouseY, pending := 0, 0, 0, 40, 12, [];
    }

    ghost predicate Valid()
      reads this, mouseQueue
    {
      && mouseQueue.Length == Pow2(bits) && mousePacket.Length == 3 && packetOffset < 3
      && Rings.Holds(mouseQueue[..], queueHead, pending, Same()) && |pending| < mouseQueue.Length
      && queueTail == Wrap(queueHead + |pending|, mouseQueue.Length)
    }

    ghost function State(): Driver
      requires Valid()
      reads this, mouseQueue, mousePacket
    {
      Driver(mousePacket[..packetOffset], pending, mouseX, mouseY)
    }

    ghost function Room(): nat {
      Pow2(bits) - 1
    }

    /** enqueue_mouse_event. */
    method EnqueueEvent(dx: Int8, dy: Int8, left: bool, right: bool, middle: bool)
      requires Valid()
      modifies this`queueTail, this`pending, mouseQueue
      ensures Valid() && State() == Enqueue(old(State()), Event(dx, dy, left, right, middle), Room())
    {
      var next := NextSlot(queueTail, bits);
      if next == queueHead {
        return;
      }
      var e := Event(dx, dy, left, right, middle);
      Rings.HoldsAppend(mouseQueue[..], queueHead, pending, Same(), e, e);
      mouseQueue[queueTail] := e;
      assert mouseQueue[..] == old(mouseQueue[..])[queueTail := e];
      queueTail := next;
      pending := pending + [e];
    }

    /** process_ps2_packet. */
    method ProcessPacket()
      requires Valid()
      modifies this`queueTail, this`pending, mouseQueue
      ensures Valid()
      ensures State() == Enqueue(old(State()), Decode(mousePacket[0], mousePacket[1], mousePacket[2]), Room())
    {
      var status := mousePacket[0];
      var left := TestBit(status, 0);
      var right := TestBit(status, 1);
      var middle := TestBit(status, 2);
      EnqueueEvent(Signed(mousePacket[1]), Signed(mousePacket[2]), left, right, middle);
    }

    /** mouse_poll_ps2 once the port has a byte. */
    method PollPs2(data: Byte)
      requires Valid()
      modifies this`queueTail, this`pending, this`packetOffset, mouseQueue, mousePacket
      ensures Valid() && State() == Receive(old(State()), data, Room())
    {
      var inSync := TestBit(data, 3);
      if packetOffset == 0 && !inSync {
        return;
      }
      mousePacket[packetOffset] := data;
      if packetOffset == 2 {
        ProcessPacket();
        packetOffset := 0;
      } else {
        packetOffset := packetOffset + 1;
      }
    }

    /** mouse_get_event. */
    method GetEvent() returns (e: Event)
      requires Valid()
      modifies this`queueHead, this`pending, this`mouseX, this`mouseY
      ensures Valid() && State() == Fetch(old(State()))
      ensures e == if old(pending) == [] then NO_EVENT else old(pending)[0]
    {
      if queueHead == queueTail {
        return NO_EVENT;
      }
      Rings.HoldsFirst(mouseQueue[..], queueHead, pending, Same());
      Rings.HoldsDrop(mouseQueue[..], queueHead, pending, Same(), mouseQueue[queueHead]);
      assert mouseQueue[..][queueHead := mouseQueue[queueHead]] == mouseQueue[..];
      e := mouseQueue[queueHead];
      queueHead := NextSlot(queueHead, bits);
      pending := pending[1..];
      MoveCursor(e);
    }

    /** The end of mouse_get_event. */
    method MoveCursor(e: Event)
      modifies this`mouseX, this`mouseY
      ensures mouseX == Clamp(old(mouseX) + e.dx, 79) && mouseY == Clamp(old(mouseY) - e.dy, 23)
    {
      mouseX := mouseX + e.dx;
      mouseY := mouseY - e.dy;
      if mouseX < 0 {
        mouseX := 0;
      } else if mouseX > 79 {
        mouseX := 79;
      }
      if mouseY < 0 {
        mouseY := 0;
      } else if mouseY > 23 {
        mouseY := 23;
      }
    }
  }
}
