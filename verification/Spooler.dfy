/** The print spooler of services.c: a ring of message slots, filled by spool_print and written to
    the serial port one character per round by the spooler service. */
module Spooler {
  import opened Wrappers
  import opened Words
  import Rings

  const NUL: char := '\0'

  // ---------------------------------------------------------------- the stream

  /** What is left to print of a message, from position `start` of its slot on. */
  datatype Message = Message(start: nat, text: string)

  /** Pending messages in order, the flag for a full ring, and the serial output. */
  datatype Stream = Stream(pending: seq<Message>, full: bool, serial: string)

  /** Only the first message is begun, a ring without a free slot has the flag set, and one
      without messages has not. */
  ghost predicate Ok(s: Stream, slots: nat) {
    && |s.pending| <= slots
    && (|s.pending| == slots ==> s.full) && (s.pending == [] ==> !s.full)
    && (forall k :: 0 < k < |s.pending| ==> s.pending[k].start == 0)
  }

  /** The message in the slot that is being printed, after a text was copied over it: the new text
      from the old position on, or what is left of the old message behind a shorter text. */
  function Overwritten(m: Message, text: string): Message {
    if m.start <= |text| then Message(m.start, text[m.start..]) else m
  }

  /** spool_print of a truncated text. The test for rejection does not fire when the ring is full,
      because head and tail are equal then: the text goes over the message that is being printed,
      and the ring counts as holding that one alone. */
  function Print(s: Stream, text: string, slots: nat): Stream {
    if |s.pending| == slots > 0 then s.(pending := [Overwritten(s.pending[0], text)])
    else if |s.pending| + 1 == slots && s.full then s
    else s.(pending := s.pending + [Message(0, text)], full := s.full || |s.pending| + 1 == slots)
  }

  /** One round of the service: print a character, or drop the finished message. */
  function Consume(s: Stream): Stream {
    if s.pending == [] then s
    else
      var m := s.pending[0];
      if m.text != "" then s.(pending := s.pending[0 := Message(m.start + 1, m.text[1..])], serial := s.serial + [m.text[0]])
      else s.(pending := s.pending[1..], full := false)
  }

  /** What is still to be printed. */
  ghost function Remainder(pending: seq<Message>): string {
    if pending == [] then "" else pending[0].text + Remainder(pending[1..])
  }

  lemma {:induction false} RemainderAppend(pending: seq<Message>, m: Message)
    ensures Remainder(pending + [m]) == Remainder(pending) + m.text
  {
    if pending == [] {
      assert [m][1..] == [];
    } else {
      assert (pending + [m])[1..] == pending[1..] + [m];
      RemainderAppend(pending[1..], m);
    }
  }

  /** A round moves text from the remainder to the output and loses nothing. */
  lemma ConsumeMoves(s: Stream, slots: nat)
    requires Ok(s, slots)
    ensures var s' := Consume(s);
            && Ok(s', slots) && s'.serial + Remainder(s'.pending) == s.serial + Remainder(s.pending)
            && (s.pending != [] ==> |Remainder(s'.pending)| + |s'.pending| == |Remainder(s.pending)| + |s.pending| - 1)
  {
    if s.pending != [] {
      var m, rest := s.pending[0], s.pending[1..];
      if m.text != "" {
        var c, left := m.text[0], m.text[1..] + Remainder(rest);
        assert Consume(s).pending[1..] == rest;
        assert Remainder(s.pending) == [c] + left && Remainder(Consume(s).pending) == left;
        assert s.serial + ([c] + left) == s.serial + [c] + left;
      }
    }
  }

  /** spool_print keeps the ring sound. The ring grows by one exactly when the ring has a free slot
      and the flag does not say otherwise. */
  lemma PrintKeeps(s: Stream, text: string, slots: nat)
    requires Ok(s, slots) && slots >= 2
    ensures var s' := Print(s, text, slots);
            && Ok(s', slots) && s'.serial == s.serial
            && (|s'.pending| == |s.pending| + 1 <==> |s.pending| < slots && !(s.full && |s.pending| + 1 == slots))
  {
  }

  /** What a call on a full ring leaves to print: all messages behind the first one are lost. */
  lemma FullPrintLoses(s: Stream, text: string, slots: nat)
    requires Ok(s, slots) && slots >= 2 && |s.pending| == slots
    ensures var m := s.pending[0];
            Remainder(Print(s, text, slots).pending) == if m.start <= |text| then text[m.start..] else m.text
  {
    var m := Overwritten(s.pending[0], text);
    assert [m][1..] == [];
  }

  /** Three messages for a ring of two slots: the third is printed, the first two are lost. */
  lemma LostMessages()
    ensures var s := Print(Print(Stream([], false, ""), "a", 2), "b", 2);
            Remainder(s.pending) == "ab" && Remainder(Print(s, "c", 2).pending) == "c"
  {
    var s := Print(Print(Stream([], false, ""), "a", 2), "b", 2);
    assert s == Stream([Message(0, "a"), Message(0, "b")], true, "");
    RemainderAppend([Message(0, "a")], Message(0, "b"));
    RemainderAppend([], Message(0, "a"));
    assert [Message(0, "a")] + [Message(0, "b")] == s.pending && [] + [Message(0, "a")] == [Message(0, "a")];
    FullPrintLoses(s, "c", 2);
  }

  // ---------------------------------------------------------------- runs

  datatype Op = Spool(text: string) | Round

  /** Slots of the ring, and the longest text a slot takes. */
  datatype Size = Size(slots: nat, limit: nat)

  ghost function Apply(s: Stream, op: Op, size: Size): (s': Stream)
    requires Ok(s, size.slots) && size.slots >= 2
    ensures Ok(s', size.slots)
  {
    match op
    case Spool(text) =>
      var cut := text[..Min(|text|, size.limit)];
      PrintKeeps(s, cut, size.slots); Print(s, cut, size.slots)
    case Round => ConsumeMoves(s, size.slots); Consume(s)
  }

  ghost function Run(s: Stream, ops: seq<Op>, size: Size): (s': Stream)
    requires Ok(s, size.slots) && size.slots >= 2
    ensures Ok(s', size.slots)
    decreases |ops|
  {
    if ops == [] then s else Apply(Run(s, ops[..|ops| - 1], size), ops[|ops| - 1], size)
  }

  /** Everything that was handed to the spooler, in order, each text cut to `limit` characters. */
  ghost function Submitted(ops: seq<Op>, limit: nat): string
    decreases |ops|
  {
    if ops == [] then ""
    else
      var last := ops[|ops| - 1];
      Submitted(ops[..|ops| - 1], limit) + if last.Spool? then last.text[..Min(|last.text|, limit)] else ""
  }

  /** The flag says exactly whether the ring is full. */
  ghost predicate Exact(s: Stream, slots: nat) {
    s.full <==> |s.pending| == slots
  }

  /** Every call of spool_print finds a free slot. */
  ghost predicate NeverFull(s: Stream, ops: seq<Op>, size: Size)
    requires Ok(s, size.slots) && size.slots >= 2
  {
    forall i :: 0 <= i < |ops| && ops[i].Spool? ==> |Run(s, ops[..i], size).pending| < size.slots
  }

  /** In every interleaving in which spool_print finds a free slot, output so far plus unprinted
      remainder is what was submitted, and nothing is turned away. */
  lemma {:induction false} StreamPreserved(s: Stream, ops: seq<Op>, size: Size)
    requires Ok(s, size.slots) && size.slots >= 2 && Exact(s, size.slots) && NeverFull(s, ops, size)
    ensures var r := Run(s, ops, size);
            && r.serial + Remainder(r.pending) == s.serial + Remainder(s.pending) + Submitted(ops, size.limit)
            && Exact(r, size.slots)
    decreases |ops|
  {
    if ops == [] {
    } else {
      var n := |ops| - 1;
      var before := ops[..n];
      forall i | 0 <= i < n && before[i].Spool? ensures |Run(s, before[..i], size).pending| < size.slots {
        assert before[..i] == ops[..i];
      }
      StreamPreserved(s, before, size);
      var r := Run(s, before, size);
      match ops[n]
      case Spool(text) => Appends(r, s.serial + Remainder(s.pending), Submitted(before, size.limit), text[..Min(|text|, size.limit)], size);
      case Round => ConsumeMoves(r, size.slots);
    }
  }

  lemma Appends(r: Stream, start: string, submitted: string, text: string, size: Size)
    requires Ok(r, size.slots) && size.slots >= 2 && Exact(r, size.slots) && |r.pending| < size.slots
    requires r.serial + Remainder(r.pending) == start + submitted
    ensures var r' := Print(r, text, size.slots);
            r'.serial + Remainder(r'.pending) == start + (submitted + text) && Exact(r', size.slots)
  {
    RemainderAppend(r.pending, Message(0, text));
    assert r.serial + (Remainder(r.pending) + text) == (r.serial + Remainder(r.pending)) + text;
  }

  ghost function Rounds(s: Stream, k: nat): Stream
    decreases k
  {
    if k == 0 then s else Rounds(Consume(s), k - 1)
  }

  /** The service drains the queue: so many rounds print all that is left. */
  lemma {:induction false} Drains(s: Stream, slots: nat)
    requires Ok(s, slots)
    ensures var r := Rounds(s, |Remainder(s.pending)| + |s.pending|);
            r.pending == [] && r.serial == s.serial + Remainder(s.pending)
    decreases |Remainder(s.pending)| + |s.pending|
  {
    if s.pending == [] {
    } else {
      ConsumeMoves(s, slots);
      Drains(Consume(s), slots);
    }
  }

  /** A text that is handed to an idle spooler is printed whole, up to its limit. */
  lemma PrintsText(text: string, size: Size)
    requires size.slots >= 2
    ensures var cut := text[..Min(|text|, size.limit)];
            Rounds(Print(Stream([], false, ""), cut, size.slots), |cut| + 1).serial == cut
  {
    var cut := text[..Min(|text|, size.limit)];
    var s := Print(Stream([], false, ""), cut, size.slots);
    assert s.pending == [Message(0, cut)] && s.pending[1..] == [];
    assert Remainder(s.pending) == cut;
    Drains(s, size.slots);
  }

  // ---------------------------------------------------------------- the ring

  /** (x + 1) % slots. */
  method NextSlot(x: nat, slots: nat) returns (r: nat)
    requires x < slots
    ensures r == Wrap(x + 1, slots)
  {
    r := (x + 1) % slots;
  }

  /** The row holds the rest of a message and its terminator. */
  ghost predicate RowHolds(row: string, m: Message) {
    && m.start + |m.text| < |row| && row[m.start + |m.text|] == NUL
    && (forall i :: 0 <= i < |m.text| ==> row[m.start + i] == m.text[i] && m.text[i] != NUL)
  }

  /** RowHolds, as a value. */
  ghost function Fits(): (string, Message) -> bool {
    (row: string, m: Message) => RowHolds(row, m)
  }

  /** Printing a character leaves the rest of the message in the row. */
  lemma RowAdvances(row: string, m: Message)
    requires RowHolds(row, m) && m.text != ""
    ensures row[m.start] == m.text[0] != NUL && RowHolds(row, Message(m.start + 1, m.text[1..]))
  {
    assert row[m.start + 0] == m.text[0];
    var rest := m.text[1..];
    forall i | 0 <= i < |rest| ensures row[m.start + 1 + i] == rest[i] && rest[i] != NUL {
      assert rest[i] == m.text[i + 1];
      assert m.start + 1 + i == m.start + (i + 1);
    }
  }

  /** The row after a text and its terminator were copied to its start. */
  ghost predicate Copied(before: string, text: string, row: string) {
    && |row| == |before| && |text| < |row| && row[|text|] == NUL
    && (forall i :: 0 <= i < |text| ==> row[i] == text[i])
    && (forall i :: |text| < i < |row| ==> row[i] == before[i])
  }

  lemma CopiedHolds(before: string, text: string, row: string, m: Message)
    requires Copied(before, text, row) && forall i :: 0 <= i < |text| ==> text[i] != NUL
    ensures RowHolds(row, Message(0, text))
    ensures RowHolds(before, m) ==> RowHolds(row, Overwritten(m, text))
  {
  }

  /** What copying a text to the tail slot does to the ring, unless the text is turned away. */
  lemma PrintHolds(rows: seq<string>, head: nat, tail: nat, s: Stream, text: string, row: string)
    requires |rows| >= 2 && Ok(s, |rows|) && Rings.Holds(rows, head, s.pending, Fits())
    requires tail == Wrap(head + |s.pending|, |rows|) && Copied(rows[tail], text, row)
    requires (forall i :: 0 <= i < |text| ==> text[i] != NUL) && !(|s.pending| + 1 == |rows| && s.full)
    ensures var s' := Print(s, text, |rows|);
            && Rings.Holds(rows[tail := row], head, s'.pending, Fits()) && Ok(s', |rows|)
            && Wrap(tail + 1, |rows|) == Wrap(head + |s'.pending|, |rows|)
            && (s'.full <==> s.full || Wrap(tail + 1, |rows|) == head)
            && s'.pending != [] && s'.pending[0].start == if s.pending == [] then 0 else s.pending[0].start
  {
    PrintKeeps(s, text, |rows|);
    if |s.pending| == |rows| {
      Rings.HoldsFirst(rows, head, s.pending, Fits());
      CopiedHolds(rows[tail], text, row, s.pending[0]);
    } else {
      CopiedHolds(rows[tail], text, row, Message(0, ""));
      Rings.HoldsAppend(rows, head, s.pending, Fits(), row, Message(0, text));
    }
  }

  class PrintSpooler {
    /** One row of messageSize characters per slot. */
    const printQueue: array<string>
    const messageSize: nat
    var printHead: nat
    var printTail: nat
    var printOffset: nat
    var printQueueFull: bool
    var serial: string
    /** The pending messages, from the head of the ring on. */
    ghost var pending: seq<Message>

    constructor (slots: nat, messageSize: nat)
      requires slots >= 2 && messageSize >= 1
      ensures Valid() && fresh(printQueue) && printQueue.Length == slots && this.messageSize == messageSize
      ensures State() == Stream([], false, "")
    {
      printQueue := new string[slots](_ => seq(messageSize, _ => NUL));
      this.messageSize := messageSize;
      printHead, printTail, printOffset, printQueueFull, serial, pending := 0, 0, 0, false, "", [];
    }

    ghost predicate Valid()
      reads this, printQueue
    {
      && printQueue.Length >= 2 && messageSize >= 1
      && (forall s :: 0 <= s < printQueue.Length ==> |printQueue[s]| == messageSize)
      && Ok(State(), printQueue.Length)
      && Rings.Holds(printQueue[..], printHead, pending, Fits())
      && printTail == Wrap(printHead + |pending|, printQueue.Length)
      && printOffset == if pending == [] then 0 else pending[0].start
    }

    ghost function State(): Stream
      reads this
    {
      Stream(pending, printQueueFull, serial)
    }

    /** The printing part of one round of audio_spooler_service. */
    method ConsumeRound()
      requires Valid()
      modifies this, printQueue
      ensures Valid() && State() == Consume(old(State()))
    {
      if printHead != printTail || printOffset != 0 || printQueueFull {
        var c := printQueue[printHead][printOffset];
        ghost var m := pending[0];
        Rings.HoldsFirst(printQueue[..], printHead, pending, Fits());
        if c != NUL {
          RowAdvances(printQueue[printHead], m);
          Rings.HoldsReplace(printQueue[..], printHead, pending, Fits(), Message(m.start + 1, m.text[1..]));
          serial := serial + [c];
          printOffset := printOffset + 1;
          pending := pending[0 := Message(m.start + 1, m.text[1..])];
        } else {
          DropMessage();
        }
      }
    }

    /** The end of a message: clear its slot and move on. */
    method DropMessage()
      requires Valid() && pending != []
      modifies this, printQueue
      ensures Valid() && State() == Stream(old(pending)[1..], false, old(serial))
    {
      ghost var row := printQueue[printHead][0 := NUL];
      Rings.HoldsDrop(printQueue[..], printHead, pending, Fits(), row);
      printQueue[printHead] := printQueue[printHead][0 := NUL];
      assert printQueue[..] == old(printQueue[..])[printHead := row];
      printHead := NextSlot(printHead, printQueue.Length);
      printOffset := 0;
      printQueueFull := false;
      pending := pending[1..];
    }

    /** The copy loop of spool_print into slot s. */
    method CopyText(s: nat, text: string)
      requires s < printQueue.Length && |printQueue[s]| == messageSize >= 1
      modifies printQueue
      ensures printQueue[..] == old(printQueue[..])[s := printQueue[s]]
      ensures Copied(old(printQueue[s]), text[..Min(|text|, messageSize - 1)], printQueue[s])
    {
      var index := 0;
      while index < |text| && index < messageSize - 1
        invariant 0 <= index <= |text| && index <= messageSize - 1 && |printQueue[s]| == messageSize
        invariant forall i :: 0 <= i < index ==> printQueue[s][i] == text[i]
        invariant forall i :: index <= i < messageSize ==> printQueue[s][i] == old(printQueue[s])[i]
        invariant printQueue[..] == old(printQueue[..])[s := printQueue[s]]
      {
        printQueue[s] := printQueue[s][index := text[index]];
        index := index + 1;
      }
      printQueue[s] := printQueue[s][index := NUL];
    }

    /** spool_print. */
    method SpoolPrint(text: Option<string>)
      requires Valid()
      requires text.Some? ==> forall i :: 0 <= i < |text.value| ==> text.value[i] != NUL
      modifies this`printTail, this`printQueueFull, this`pending, printQueue
      ensures Valid()
      ensures State() == if text.None? then old(State())
                         else Print(old(State()), text.value[..Min(|text.value|, messageSize - 1)], printQueue.Length)
    {
      if text.None? {
        return;
      }
      var next := NextSlot(printTail, printQueue.Length);
      if next == printHead && printQueueFull {
        return;
      }
      ghost var t, rows := text.value[..Min(|text.value|, messageSize - 1)], printQueue[..];
      CopyText(printTail, text.value);
      PrintHolds(rows, printHead, printTail, State(), t, printQueue[printTail]);
      pending := Print(State(), t, printQueue.Length).pending;
      printTail := next;
      if printTail == printHead {
        printQueueFull := true;
      }
    }
  }
}
