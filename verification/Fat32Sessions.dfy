/** Runs of fat32_open, fat32_read and fat32_close on the handle table of fat32.c. */
module Fat32Sessions {
  import opened Wrappers
  import opened Words
  import opened Fat32Volume
  import opened Fat32Files
  import opened Fat32Directory

  /** What a call did. An open found `rest` in the buffer behind a small cluster. A call that fails
      changes nothing. */
  datatype Event = Opened(fd: nat, name: seq<Byte>, entry: Entry, rest: seq<Byte>) | Reading(read: ReadEvent) | Closed(fd: nat) | Failed

  /** The lookup of the name finds this entry. */
  ghost predicate Finds(d: Directory, name: seq<Byte>, e: Entry) {
    exists n: nat :: ScanEnds(d, n, HasName(name)) && Search(Slots(d, n), 0, HasName(name)) == Some(e)
  }

  /** What is found is the first visible entry with the name. */
  lemma FindsFirst(d: Directory, name: seq<Byte>, e: Entry, n: nat)
    requires Finds(d, name, e) && ScanEnds(d, n, HasName(name))
    ensures IsFirst(Visible(Slots(d, n), 0), HasName(name), Some(e))
  {
    var m: nat :| ScanEnds(d, m, HasName(name)) && Search(Slots(d, m), 0, HasName(name)) == Some(e);
    ScanUnique(d, n, m, HasName(name));
    SearchIsFirstVisible(Slots(d, n), 0, HasName(name));
  }

  ghost predicate Step(d: Directory, t: seq<Handle>, e: Event, t': seq<Handle>)
    requires d.v.sectorsPerCluster > 0
  {
    match e
    case Opened(fd, name, entry, rest) => Finds(d.(rest := rest), name, entry) && OpenStep(t, fd, entry, t')
    case Reading(read) => ReadStep(d.v, t, read, t')
    case Closed(fd) => fd < |t| && t' == t[fd := t[fd].(open := false)]
    case Failed => t' == t
  }

  ghost predicate Run(d: Directory, tables: seq<seq<Handle>>, events: seq<Event>)
    requires d.v.sectorsPerCluster > 0
  {
    |tables| == |events| + 1 && forall i :: 0 <= i < |events| ==> StepAt(d, tables, events, i)
  }

  /** Event i leads from table i to the next one. */
  ghost predicate StepAt(d: Directory, tables: seq<seq<Handle>>, events: seq<Event>, i: int)
    requires d.v.sectorsPerCluster > 0 && |tables| == |events| + 1
  {
    0 <= i < |events| && Step(d, tables[i], events[i], tables[i + 1])
  }

  ghost predicate ReadsFrom(e: Event, fd: nat) {
    e.Reading? && e.read.fd == fd
  }

  /** What handle fd received from event i to before event k, in order. */
  ghost function Received(events: seq<Event>, fd: nat, i: nat, k: nat): seq<Byte>
    requires k <= |events|
    decreases k
  {
    if k <= i then [] else Received(events, fd, i, k - 1) + Data(events[k - 1], fd)
  }

  /** What was asked for on handle fd in that part of the run. */
  ghost function Asked(events: seq<Event>, fd: nat, i: nat, k: nat): nat
    requires k <= |events|
    decreases k
  {
    if k <= i then 0 else Asked(events, fd, i, k - 1) + Size(events[k - 1], fd)
  }

  /** A handle opened as h has received what was asked for of its file, and is closed or not. */
  ghost predicate Served(v: Volume, h: Handle, n: nat, received: seq<Byte>, asked: nat, t: seq<Handle>, fd: nat)
    requires SoundFile(v, h, n)
  {
    var got := Min(asked, h.fileSize);
    && received == Contents(v, h, n)[..got]
    && fd < |t| && (t[fd] == h.(position := got) || t[fd] == h.(position := got, open := false))
  }

  ghost function Data(e: Event, fd: nat): seq<Byte> {
    if ReadsFrom(e, fd) then e.read.data else []
  }

  ghost function Size(e: Event, fd: nat): nat {
    if ReadsFrom(e, fd) then e.read.size else 0
  }

  /** One event that does not open handle fd. */
  lemma StepServes(d: Directory, t: seq<Handle>, e: Event, t': seq<Handle>, fd: nat, h: Handle, n: nat, received: seq<Byte>, asked: nat)
    requires d.v.sectorsPerCluster > 0 && Step(d, t, e, t') && !(e.Opened? && e.fd == fd)
    requires SoundFile(d.v, h, n) && h.open && Served(d.v, h, n, received, asked, t, fd)
    ensures Served(d.v, h, n, received + Data(e, fd), asked + Size(e, fd), t', fd)
  {
    if ReadsFrom(e, fd) {
      OneMoreRead(d.v, h, n, Min(asked, h.fileSize), e.read);
    }
  }

  /** An open serves nothing yet. */
  lemma OpenServes(d: Directory, tables: seq<seq<Handle>>, events: seq<Event>, i: nat, n: nat)
    requires d.v.sectorsPerCluster > 0 && Run(d, tables, events) && i < |events| && events[i].Opened?
    requires SoundFile(d.v, NewHandle(events[i].entry), n)
    ensures var e := events[i];
            Served(d.v, NewHandle(e.entry), n, [], 0, tables[i + 1], e.fd) && Finds(d.(rest := e.rest), e.name, e.entry)
  {
    assert StepAt(d, tables, events, i);
  }

  /** Handle fd, opened as h in event i - 1 and not opened again before event k. */
  lemma {:induction false} StaysServed(d: Directory, tables: seq<seq<Handle>>, events: seq<Event>, fd: nat, h: Handle, n: nat, i: nat, k: nat)
    requires d.v.sectorsPerCluster > 0 && Run(d, tables, events) && i <= k <= |events|
    requires forall j :: i <= j < k ==> !(events[j].Opened? && events[j].fd == fd)
    requires SoundFile(d.v, h, n) && h.open && Served(d.v, h, n, [], 0, tables[i], fd)
    ensures Served(d.v, h, n, Received(events, fd, i, k), Asked(events, fd, i, k), tables[k], fd)
    decreases k
  {
    if k == i {
    } else {
      StaysServed(d, tables, events, fd, h, n, i, k - 1);
      assert StepAt(d, tables, events, k - 1);
      StepServes(d, tables[k - 1], events[k - 1], tables[k], fd, h, n,
                 Received(events, fd, i, k - 1), Asked(events, fd, i, k - 1));
    }
  }

  /** However opens, reads and closes on all handles are interleaved: what a handle has received since
      it was last opened under a name is, concatenated, the prefix it asked for of the file that the
      lookup of the name found. */
  lemma SessionReads(d: Directory, tables: seq<seq<Handle>>, events: seq<Event>, i: nat, k: nat, n: nat)
    requires d.v.sectorsPerCluster > 0 && Run(d, tables, events) && i < k <= |events| && events[i].Opened?
    requires forall j :: i < j < k ==> !(events[j].Opened? && events[j].fd == events[i].fd)
    requires SoundFile(d.v, NewHandle(events[i].entry), n)
    ensures var fd := events[i].fd;
            && Finds(d.(rest := events[i].rest), events[i].name, events[i].entry)
            && Served(d.v, NewHandle(events[i].entry), n, Received(events, fd, i + 1, k), Asked(events, fd, i + 1, k), tables[k], fd)
  {
    OpenServes(d, tables, events, i, n);
    StaysServed(d, tables, events, events[i].fd, NewHandle(events[i].entry), n, i + 1, k);
  }
}
