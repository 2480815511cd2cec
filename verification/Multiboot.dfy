/** The Multiboot2 information stream as a boot loader writes it (sections 3.4, 3.6.1 and 3.6.8 of
    the Multiboot2 specification), as the partner of the walks in Boot: what they read from a
    written stream is what was written. All fields are little-endian words of 32 bits or pairs of
    them, so the stream is a sequence of words. */
module Multiboot {
  import opened Words
  import opened Boot

  // ---------------------------------------------------------------- writing

  /** A memory map, or another tag of `size` bytes, padded to a multiple of 8. */
  datatype Tag = Map(entries: seq<MmapEntry>) | Other(kind: Uint32, size: Uint32, body: seq<Uint32>)

  /** Not the end tag, not a memory map, and a body as long as the padded size says. */
  ghost predicate TagOk(tag: Tag) {
    tag.Other? ==> tag.kind != 0 && tag.kind != 6 && 8 <= tag.size && 4 * (2 + |tag.body|) == (tag.size + 7) / 8 * 8
  }

  /** The low 32 bits. */
  function Word(n: nat): (w: Uint32)
    ensures n < U32 ==> w == n
  {
    n % 0x1_0000_0000
  }

  function EntryWords(e: MmapEntry): (s: seq<Uint32>)
    ensures |s| == 6
  {
    [Word(e.addr), e.addr / 0x1_0000_0000, Word(e.len), e.len / 0x1_0000_0000, e.kind, 0]
  }

  function EntriesWords(entries: seq<MmapEntry>): (s: seq<Uint32>)
    ensures |s| == 6 * |entries|
  {
    if entries == [] then [] else EntryWords(entries[0]) + EntriesWords(entries[1..])
  }

  function MapHeaderWords(n: nat): (s: seq<Uint32>)
    ensures |s| == 4
  {
    [6, Word(16 + 24 * n), 24, 0]
  }

  /** Type, size and contents of a tag. */
  function TagWords(tag: Tag): (s: seq<Uint32>)
    ensures |s| >= 2
  {
    match tag
    case Map(entries) => MapHeaderWords(|entries|) + EntriesWords(entries)
    case Other(kind, size, body) => [kind, size] + body
  }

  /** The tags and the end tag. */
  function TagsWords(tags: seq<Tag>): (s: seq<Uint32>)
    ensures |s| >= 2
  {
    if tags == [] then [0, 8] else TagWords(tags[0]) + TagsWords(tags[1..])
  }

  /** The whole stream: total size, a reserved word, the tags. */
  function StreamWords(tags: seq<Tag>): (s: seq<Uint32>) {
    [Word(8 + 4 * |TagsWords(tags)|), 0] + TagsWords(tags)
  }

  // ---------------------------------------------------------------- reading back

  /** Memory that holds these words, with loads of 64 bits taken low word first. */
  ghost predicate Holds(info: Memory, words: seq<Uint32>) {
    && info.limit == 4 * |words|
    && (forall i :: 0 <= i < |words| ==> info.load32(4 * i) == words[i])
    && (forall p: nat {:trigger info.load64(p)} :: p + 8 <= info.limit ==> info.load64(p) == info.load32(p) + 0x1_0000_0000 * info.load32(p + 4))
  }

  /** s stands in the words at index i. */
  ghost predicate At(words: seq<Uint32>, i: nat, s: seq<Uint32>) {
    i + |s| <= |words| && forall k :: 0 <= k < |s| ==> words[i + k] == s[k]
  }

  lemma AtSplit(words: seq<Uint32>, i: nat, a: seq<Uint32>, b: seq<Uint32>)
    requires At(words, i, a + b)
    ensures At(words, i, a) && At(words, i + |a|, b)
  {
    forall k | 0 <= k < |a| ensures words[i + k] == a[k] {
      assert (a + b)[k] == a[k];
    }
    forall k | 0 <= k < |b| ensures words[i + |a| + k] == b[k] {
      assert (a + b)[|a| + k] == b[k];
    }
  }

  lemma EntryReadBack(info: Memory, words: seq<Uint32>, i: nat, e: MmapEntry)
    requires Holds(info, words) && At(words, i, EntryWords(e))
    ensures 4 * i + 24 <= info.limit && EntryAt(info, 4 * i) == e
  {
    var s := EntryWords(e);
    assert words[i] == s[0] && words[i + 1] == s[1] && words[i + 2] == s[2] && words[i + 3] == s[3] && words[i + 4] == s[4];
    assert info.load32(4 * (i + 1)) == s[1] && info.load32(4 * (i + 3)) == s[3];
    assert info.load64(4 * i) == e.addr;
    assert info.load64(4 * (i + 2)) == e.len;
    assert info.load32(4 * (i + 4)) == e.kind;
  }

  lemma SplitEntries(words: seq<Uint32>, i: nat, entries: seq<MmapEntry>)
    requires At(words, i, EntriesWords(entries)) && entries != []
    ensures At(words, i, EntryWords(entries[0])) && At(words, i + 6, EntriesWords(entries[1..]))
  {
    AtSplit(words, i, EntryWords(entries[0]), EntriesWords(entries[1..]));
  }

  lemma EntriesStep(info: Memory, p: nat, next: nat, tagEnd: nat, entrySize: nat)
    requires p < tagEnd && p + 24 <= info.limit && entrySize > 0 && next == p + entrySize
    requires EntriesOk(info, next, tagEnd, entrySize)
    ensures EntriesOk(info, p, tagEnd, entrySize)
    ensures EntriesIn(info, p, tagEnd, entrySize) == [EntryAt(info, p)] + EntriesIn(info, next, tagEnd, entrySize)
  {
  }

  lemma {:induction false} EntriesReadBack(
    info: Memory, words: seq<Uint32>, i: nat, tagEnd: nat, entrySize: nat, entries: seq<MmapEntry>)
    requires Holds(info, words) && At(words, i, EntriesWords(entries))
    requires entrySize == 24 && tagEnd == 4 * i + 24 * |entries|
    ensures EntriesOk(info, 4 * i, tagEnd, entrySize) && EntriesIn(info, 4 * i, tagEnd, entrySize) == entries
    decreases |entries|
  {
    if entries == [] {
    } else {
      var rest := entries[1..];
      SplitEntries(words, i, entries);
      EntryReadBack(info, words, i, entries[0]);
      EntriesReadBack(info, words, i + 6, tagEnd, entrySize, rest);
      EntriesStep(info, 4 * i, 4 * (i + 6), tagEnd, entrySize);
    }
  }

  lemma AndNot7(x: nat)
    ensures AndNot(x, 7) == x / 8 * 8
  {
    AndNotZero(x / 8);
    assert AndNot(x / 4, 1) == 2 * (x / 8);
    assert AndNot(x / 2, 3) == 2 * AndNot(x / 4, 1);
  }

  lemma {:induction false} AndNotZero(x: nat)
    ensures AndNot(x, 0) == x
  {
    if x == 0 {
    } else {
      AndNotZero(x / 2);
    }
  }

  /** One tag, as the walks read it. */
  ghost predicate TagReads(info: Memory, p: nat, tag: Tag) {
    && p + 8 <= info.limit && info.load32(p) == (if tag.Map? then 6 else tag.kind)
    && Advance(info.load32(p + 4)) == 4 * |TagWords(tag)|
    && (tag.Map? ==>
          && p + 16 <= info.limit && EntriesOk(info, p + 16, p + info.load32(p + 4), info.load32(p + 8))
          && EntriesIn(info, p + 16, p + info.load32(p + 4), info.load32(p + 8)) == tag.entries)
  }

  lemma HeaderReadBack(info: Memory, words: seq<Uint32>, i: nat, header: seq<Uint32>, rest: seq<Uint32>)
    requires Holds(info, words) && At(words, i, header + rest)
    ensures 4 * i + 4 * |header| <= info.limit && At(words, i + |header|, rest)
    ensures forall k :: 0 <= k < |header| ==> info.load32(4 * i + 4 * k) == header[k]
  {
    AtSplit(words, i, header, rest);
    forall k | 0 <= k < |header| ensures info.load32(4 * i + 4 * k) == header[k] {
      assert words[i + k] == header[k] && 4 * i + 4 * k == 4 * (i + k);
    }
  }

  lemma MapHeader(info: Memory, words: seq<Uint32>, i: nat, n: nat, rest: seq<Uint32>)
    requires Holds(info, words) && At(words, i, MapHeaderWords(n) + rest) && 16 + 24 * n < U32
    ensures 4 * i + 16 <= info.limit && At(words, i + 4, rest)
    ensures info.load32(4 * i) == 6 && info.load32(4 * i + 4) == 16 + 24 * n && info.load32(4 * i + 8) == 24
  {
    var header := MapHeaderWords(n);
    HeaderReadBack(info, words, i, header, rest);
    assert header[0] == 6 && header[1] == 16 + 24 * n && header[2] == 24;
  }

  lemma MapReadBack(info: Memory, words: seq<Uint32>, i: nat, entries: seq<MmapEntry>)
    requires Holds(info, words) && At(words, i, TagWords(Map(entries))) && 4 * |words| < U32 - 8
    ensures TagReads(info, 4 * i, Map(entries))
  {
    MapHeader(info, words, i, |entries|, EntriesWords(entries));
    var size, entrySize := info.load32(4 * i + 4), info.load32(4 * i + 8);
    EntriesReadBack(info, words, i + 4, 4 * i + size, entrySize, entries);
    assert 4 * (i + 4) == 4 * i + 16;
    AndNot7(size + 7);
    Rounded(2 + 3 * |entries|);
  }

  lemma Rounded(k: nat)
    ensures (8 * k + 7) / 8 * 8 == 8 * k
  {
    assert (8 * k + 7) / 8 == k;
  }

  lemma OtherReadBack(info: Memory, words: seq<Uint32>, i: nat, tag: Tag)
    requires Holds(info, words) && At(words, i, TagWords(tag)) && 4 * |words| < U32 - 8 && tag.Other? && TagOk(tag)
    ensures TagReads(info, 4 * i, tag)
  {
    var header := [tag.kind, tag.size];
    HeaderReadBack(info, words, i, header, tag.body);
    assert header[0] == tag.kind && header[1] == tag.size;
    AndNot7(tag.size + 7);
  }

  lemma TagReadBack(info: Memory, words: seq<Uint32>, i: nat, tag: Tag)
    requires Holds(info, words) && At(words, i, TagWords(tag)) && 4 * |words| < U32 - 8 && TagOk(tag)
    ensures TagReads(info, 4 * i, tag)
  {
    if tag.Map? {
      MapReadBack(info, words, i, tag.entries);
    } else {
      OtherReadBack(info, words, i, tag);
    }
  }

  ghost function AllEntries(tags: seq<Tag>): seq<MmapEntry> {
    if tags == [] then [] else (if tags[0].Map? then tags[0].entries else []) + AllEntries(tags[1..])
  }

  lemma TagsStep(info: Memory, p: nat, next: nat, end: nat, tag: Tag)
    requires TagReads(info, p, tag) && TagOk(tag) && p < end && next == p + 4 * |TagWords(tag)| && TagsOk(info, next, end)
    ensures TagsOk(info, p, end)
    ensures Entries(info, p, end) == (if tag.Map? then tag.entries else []) + Entries(info, next, end)
    ensures HasMap(info, p, end) <==> tag.Map? || HasMap(info, next, end)
  {
  }

  lemma {:induction false} TagsReadBack(info: Memory, words: seq<Uint32>, i: nat, end: nat, tags: seq<Tag>)
    requires Holds(info, words) && At(words, i, TagsWords(tags)) && end == 4 * |words| < U32 - 8
    requires forall t :: t in tags ==> TagOk(t)
    ensures TagsOk(info, 4 * i, end) && Entries(info, 4 * i, end) == AllEntries(tags)
    ensures HasMap(info, 4 * i, end) <==> exists t :: t in tags && t.Map?
    decreases |tags|
  {
    if tags == [] {
      assert words[i + 0] == TagsWords(tags)[0];
    } else {
      var tag, rest := tags[0], tags[1..];
      AtSplit(words, i, TagWords(tag), TagsWords(rest));
      TagReadBack(info, words, i, tag);
      var next := i + |TagWords(tag)|;
      TagsReadBack(info, words, next, end, rest);
      TagsStep(info, 4 * i, 4 * next, end, tag);
      assert forall t :: t in tags <==> t == tag || t in rest;
    }
  }

  /** Every written stream is well formed, and the walks find exactly the entries of its memory
      map tags, in order. */
  lemma StreamReadBack(info: Memory, tags: seq<Tag>)
    requires Holds(info, StreamWords(tags)) && info.limit < U32 - 8
    requires forall t :: t in tags ==> TagOk(t)
    ensures InfoOk(info) && MemoryMap(info) == AllEntries(tags)
    ensures HasMap(info, 8, info.load32(0)) <==> exists t :: t in tags && t.Map?
  {
    var words := StreamWords(tags);
    assert words[0] == info.limit;
    assert info.load32(4 * 0) == words[0];
    AtSplit(words, 0, [words[0], words[1]], TagsWords(tags));
    TagsReadBack(info, words, 2, info.limit, tags);
  }
}
