/** The 8.3 name conversions of fat32.c: a C string to the eleven name bytes of a directory
    entry and back (Microsoft FAT32 File System Specification, "FAT Directory Structure"). */
module Fat32Names {
  import opened Words

  const SPACE: Byte := 0x20
  const DOT: Byte := 0x2E

  /** A C string without its terminating zero. */
  ghost predicate CString(s: seq<Byte>) {
    0 !in s
  }

  function Upper(c: Byte): Byte {
    if 0x61 <= c <= 0x7A then c - 32 else c
  }

  function UpperAll(s: seq<Byte>): (r: seq<Byte>)
    ensures |r| == |s| && forall i :: 0 <= i < |s| ==> r[i] == Upper(s[i])
  {
    seq(|s|, i requires 0 <= i < |s| => Upper(s[i]))
  }

  /** Upper-casing changes the letters a to z to A to Z, and nothing else. */
  lemma UpperLetters(c: Byte)
    ensures if 'a' as int <= c <= 'z' as int then Upper(c) - 'A' as int == c - 'a' as int else Upper(c) == c
  {
  }

  /** The bytes of an ASCII text. */
  function Bytes(text: string): (s: seq<Byte>)
    requires forall i :: 0 <= i < |text| ==> text[i] as int < 128
    ensures |s| == |text| && forall i :: 0 <= i < |text| ==> s[i] == text[i] as int
  {
    seq(|text|, i requires 0 <= i < |text| => text[i] as int)
  }

  predicate IsPad(c: Byte) {
    c == SPACE || c == 0
  }

  /** t padded with spaces to n bytes. */
  function Field(t: seq<Byte>, n: nat): (r: seq<Byte>)
    requires |t| <= n
    ensures |r| == n
    ensures forall i :: 0 <= i < n ==> r[i] == if i < |t| then t[i] else SPACE
  {
    t + seq(n - |t|, _ => SPACE)
  }

  /** Length of the name part: up to the first dot, at most 8. */
  function BaseLength(s: seq<Byte>, i: nat): (b: nat)
    requires i <= |s| && i <= 8
    ensures i <= b <= |s| && b <= 8
    ensures forall j :: i <= j < b ==> s[j] != DOT
    ensures b == |s| || s[b] == DOT || b == 8
    decreases |s| - i
  {
    if i == |s| || s[i] == DOT || i == 8 then i else BaseLength(s, i + 1)
  }

  /** Where the extension part starts. */
  function ExtensionStart(s: seq<Byte>): (e: nat)
    ensures e <= |s|
  {
    var b := BaseLength(s, 0);
    if b < |s| && s[b] == DOT then b + 1 else b
  }

  function ExtensionEnd(s: seq<Byte>): (e: nat)
    ensures ExtensionStart(s) <= e <= |s| && e <= ExtensionStart(s) + 3
  {
    if |s| <= ExtensionStart(s) + 3 then |s| else ExtensionStart(s) + 3
  }

  /** The eleven bytes fat32_normalize_name computes. */
  function Normalized(s: seq<Byte>): (r: seq<Byte>)
    ensures |r| == 11
  {
    Field(UpperAll(s[..BaseLength(s, 0)]), 8) + Field(UpperAll(s[ExtensionStart(s)..ExtensionEnd(s)]), 3)
  }

  /** Bytes of a field before its padding. */
  function FieldLength(t: seq<Byte>): (k: nat)
    ensures k <= |t| && (k < |t| ==> IsPad(t[k]))
    ensures forall j :: 0 <= j < k ==> !IsPad(t[j])
  {
    if t == [] || IsPad(t[0]) then 0 else 1 + FieldLength(t[1..])
  }

  /** The string fat32_extract_entry_name computes. */
  function Extracted(e: seq<Byte>): (r: seq<Byte>)
    requires |e| == 11
    ensures |r| <= 12
  {
    var k, m := FieldLength(e[..8]), FieldLength(e[8..]);
    e[..k] + if m == 0 then [] else [DOT] + e[8..8 + m]
  }

  lemma ExtractedAt(e: seq<Byte>, i: nat)
    requires |e| == 11
    ensures |Extracted(e)| == FieldLength(e[..8]) + if FieldLength(e[8..]) == 0 then 0 else 1 + FieldLength(e[8..])
    ensures i < |Extracted(e)| ==>
              var k := FieldLength(e[..8]);
              Extracted(e)[i] == if i < k then e[i] else if i == k then DOT else e[7 + i - k]
  {
  }

  /** r is the name extracted from e, read off position by position. */
  lemma ExtractedIs(e: seq<Byte>, k: nat, m: nat, r: seq<Byte>)
    requires |e| == 11 && k <= 8 && m <= 3
    requires forall j :: 0 <= j < k ==> !IsPad(e[j])
    requires forall j :: 8 <= j < 8 + m ==> !IsPad(e[j])
    requires (k < 8 ==> IsPad(e[k])) && (m < 3 ==> IsPad(e[8 + m]))
    requires |r| == if m == 0 then k else k + 1 + m
    requires forall i {:trigger r[i]} :: 0 <= i < |r| ==> r[i] == if i < k then e[i] else if i == k then DOT else e[7 + i - k]
    ensures r == Extracted(e)
  {
    FieldLengthIs(e[..8], k);
    FieldLengthIs(e[8..], m);
    ExtractedAt(e, 0);
    forall i: nat | i < |r| ensures r[i] == Extracted(e)[i] {
      ExtractedAt(e, i);
    }
  }

  /** n is the normalized form of s, read off position by position. */
  lemma NormalizedIs(s: seq<Byte>, n: seq<Byte>)
    requires |n| == 11
    requires forall j :: 0 <= j < 8 ==> n[j] == if j < BaseLength(s, 0) then Upper(s[j]) else SPACE
    requires forall j :: 8 <= j < 11 ==>
               n[j] == if j - 8 < ExtensionEnd(s) - ExtensionStart(s) then Upper(s[ExtensionStart(s) + j - 8]) else SPACE
    ensures n == Normalized(s)
  {
    NormalizedFields(s);
    var n' := Normalized(s);
    forall j | 0 <= j < 11 ensures n[j] == n'[j] {
      assert j < 8 ==> n'[j] == n'[..8][j];
      assert j >= 8 ==> n'[j] == n'[8..][j - 8];
    }
  }

  // ---------------------------------------------------------------- round trips

  /** Bytes, then spaces to the end. */
  ghost predicate Padded(t: seq<Byte>) {
    forall i :: FieldLength(t) <= i < |t| ==> t[i] == SPACE
  }

  ghost predicate NoLower(t: seq<Byte>) {
    forall i :: 0 <= i < |t| ==> Upper(t[i]) == t[i]
  }

  /** A directory entry name in canonical form. */
  ghost predicate Canonical(e: seq<Byte>)
    requires |e| == 11
  {
    Padded(e[..8]) && Padded(e[8..]) && NoLower(e) && DOT !in e[..8]
  }

  lemma BaseLengthIs(s: seq<Byte>, b: nat)
    requires b <= |s| && b <= 8
    requires forall j :: 0 <= j < b ==> s[j] != DOT
    requires b == |s| || s[b] == DOT || b == 8
    ensures BaseLength(s, 0) == b
  {
  }

  lemma FieldLengthIs(t: seq<Byte>, k: nat)
    requires k <= |t| && (k < |t| ==> IsPad(t[k]))
    requires forall j :: 0 <= j < k ==> !IsPad(t[j])
    ensures FieldLength(t) == k
  {
  }

  /** Upper-casing and padding the unpadded part of a field gives the field back exactly when it
      is padded with spaces only and has no lower-case letter. */
  lemma FieldRoundTrip(t: seq<Byte>)
    ensures Field(UpperAll(t[..FieldLength(t)]), |t|) == t <==> Padded(t) && NoLower(t)
  {
    var k := FieldLength(t);
    var u := Field(UpperAll(t[..k]), |t|);
    forall i | 0 <= i < |t| ensures u[i] == if i < k then Upper(t[i]) else SPACE {}
    if u == t {
      forall i | 0 <= i < |t| ensures Upper(t[i]) == t[i] && (i >= k ==> t[i] == SPACE) {
        assert u[i] == t[i];
      }
    } else {
      var i :| 0 <= i < |t| && u[i] != t[i];
      assert i < k ==> Upper(t[i]) != t[i];
    }
  }

  /** The parts normalization finds in an extracted name. */
  lemma ExtractedParts(e: seq<Byte>)
    requires |e| == 11 && DOT !in e[..8][..FieldLength(e[..8])]
    ensures var x, k, m := Extracted(e), FieldLength(e[..8]), FieldLength(e[8..]);
            && BaseLength(x, 0) == k && x[..k] == e[..8][..k]
            && x[ExtensionStart(x)..ExtensionEnd(x)] == e[8..][..m]
  {
    var x, k, m := Extracted(e), FieldLength(e[..8]), FieldLength(e[8..]);
    assert x[..k] == e[..8][..k];
    forall j | 0 <= j < k ensures x[j] != DOT {
      assert x[j] == e[..8][..k][j];
    }
    BaseLengthIs(x, k);
    if m > 0 {
      var head := e[..k] + [DOT];
      assert x == head + e[8..8 + m] && |head| == k + 1 && head[k] == DOT;
      assert e[8..8 + m] == e[8..][..m];
      assert ExtensionEnd(x) == |x| == k + 1 + m;
    }
  }

  /** Normalizing an extracted name gives the entry back exactly when the entry is canonical. */
  lemma EntryRoundTrip(e: seq<Byte>)
    requires |e| == 11
    ensures Normalized(Extracted(e)) == e <==> Canonical(e)
  {
    var x := Extracted(e);
    var base, ext := e[..8], e[8..];
    var k, m := FieldLength(base), FieldLength(ext);
    if DOT in base[..k] {
      var b := BaseLength(x, 0);
      var j :| 0 <= j < k && base[j] == DOT;
      assert x[j] == DOT;
      assert x[b] == DOT && x[b] == e[b];
      assert Normalized(x)[b] == SPACE;
      assert base[b] == DOT;
    } else {
      ExtractedParts(e);
      var base', ext' := Field(UpperAll(base[..k]), 8), Field(UpperAll(ext[..m]), 3);
      assert Normalized(x) == base' + ext';
      FieldRoundTrip(base);
      FieldRoundTrip(ext);
      assert e == base + ext;
      assert base' + ext' == base + ext <==> base' == base && ext' == ext by {
        assert (base' + ext')[..8] == base' && (base' + ext')[8..] == ext';
        assert (base + ext)[..8] == base && (base + ext)[8..] == ext;
      }
      if Padded(base) {
        forall j | 0 <= j < 8 ensures base[j] != DOT {
          assert j < k ==> base[j] == base[..k][j];
        }
      }
      assert NoLower(e) <==> NoLower(base) && NoLower(ext) by {
        if NoLower(base) && NoLower(ext) {
          forall i | 0 <= i < |e| ensures Upper(e[i]) == e[i] {
            assert i < 8 ==> e[i] == base[i];
            assert i >= 8 ==> e[i] == ext[i - 8];
          }
        }
      }
    }
  }

  /** A string of the form NAME or NAME.EXT with at most 8 and 1 to 3 characters. */
  ghost predicate Valid83(s: seq<Byte>) {
    var b := BaseLength(s, 0);
    && SPACE !in s
    && if b == |s| then true else s[b] == DOT && b + 2 <= |s| <= b + 4
  }

  /** The two fields of a normalized string. */
  lemma NormalizedFields(s: seq<Byte>)
    ensures var b, x, y := BaseLength(s, 0), ExtensionStart(s), ExtensionEnd(s);
            var n := Normalized(s);
            && (forall i :: 0 <= i < 8 ==> n[..8][i] == if i < b then Upper(s[i]) else SPACE)
            && (forall i :: 0 <= i < 3 ==> n[8..][i] == if i < y - x then Upper(s[x + i]) else SPACE)
  {
  }

  /** How much of a normalized string an extraction sees. */
  lemma NormalizedLengths(s: seq<Byte>)
    requires CString(s)
    ensures var b, m := BaseLength(s, 0), ExtensionEnd(s) - ExtensionStart(s);
            var k, l := FieldLength(Normalized(s)[..8]), FieldLength(Normalized(s)[8..]);
            k <= b && l <= m && (SPACE !in s ==> k == b && l == m)
  {
    var b, x, y := BaseLength(s, 0), ExtensionStart(s), ExtensionEnd(s);
    var base, ext := Normalized(s)[..8], Normalized(s)[8..];
    NormalizedFields(s);
    assert b < 8 ==> IsPad(base[b]);
    assert y - x < 3 ==> IsPad(ext[y - x]);
    if SPACE !in s {
      forall i | 0 <= i < b ensures !IsPad(base[i]) { assert s[i] in s; }
      forall i | 0 <= i < y - x ensures !IsPad(ext[i]) { assert s[x + i] in s; }
      FieldLengthIs(base, b);
      FieldLengthIs(ext, y - x);
    }
  }

  lemma ValidStringReturns(s: seq<Byte>)
    requires CString(s) && Valid83(s)
    ensures Extracted(Normalized(s)) == UpperAll(s)
  {
    NormalizedFields(s);
    NormalizedLengths(s);
    ExtractedAt(Normalized(s), 0);
    var b, x := BaseLength(s, 0), ExtensionStart(s);
    var n, r, u := Normalized(s), Extracted(Normalized(s)), UpperAll(s);
    forall i | 0 <= i < |u| ensures r[i] == u[i] {
      ExtractedAt(n, i);
      assert i < b ==> n[i] == n[..8][i];
      assert i > b ==> n[7 + i - b] == n[8..][i - x];
    }
  }

  lemma ReturnedStringIsValid(s: seq<Byte>)
    requires CString(s) && Extracted(Normalized(s)) == UpperAll(s)
    ensures Valid83(s)
  {
    NormalizedFields(s);
    NormalizedLengths(s);
    var n, r, b := Normalized(s), Extracted(Normalized(s)), BaseLength(s, 0);
    var base, ext := n[..8], n[8..];
    var k := FieldLength(base);
    assert |r| == |s|;
    forall i | 0 <= i < |s| ensures s[i] != SPACE {
      ExtractedAt(n, i);
      assert r[i] == Upper(s[i]);
      assert i < k ==> n[i] == base[i];
      assert i > k ==> n[8 + (i - k - 1)] == ext[i - k - 1];
    }
    assert b < |s| ==> r[b] == Upper(s[b]);
  }

  /** Extracting a normalized string gives its upper-case form exactly when it is a valid 8.3 name. */
  lemma StringRoundTrip(s: seq<Byte>)
    requires CString(s)
    ensures Extracted(Normalized(s)) == UpperAll(s) <==> Valid83(s)
  {
    if Valid83(s) { ValidStringReturns(s); }
    if Extracted(Normalized(s)) == UpperAll(s) { ReturnedStringIsValid(s); }
  }

  /** A name as a user types it. */
  lemma NormalizedExample()
    ensures Normalized(Bytes("kernel.c")) == Bytes("KERNEL  C  ")
  {
    var s, n := Bytes("kernel.c"), Bytes("KERNEL  C  ");
    BaseLengthIs(s, 6);
    assert ExtensionStart(s) == 7 && ExtensionEnd(s) == 8;
    NormalizedIs(s, n);
  }

  // ---------------------------------------------------------------- the C loops

  /** fat32_normalize_name. */
  method NormalizeName(output: array<Byte>, name: seq<Byte>)
    requires output.Length == 11 && CString(name)
    modifies output
    ensures output[..] == Normalized(name)
  {
    for i := 0 to 11
      invariant forall j :: 0 <= j < i ==> output[j] == SPACE
    {
      output[i] := SPACE;
    }
    var index, nameIndex := 0, 0;
    while nameIndex < |name| && name[nameIndex] != DOT && index < 8
      invariant index == nameIndex <= |name| && index <= 8
      invariant BaseLength(name, 0) == BaseLength(name, index)
      invariant forall j :: 0 <= j < 11 ==> output[j] == if j < index then Upper(name[j]) else SPACE
    {
      output[index] := Upper(name[nameIndex]);
      index, nameIndex := index + 1, nameIndex + 1;
    }
    ghost var b := index;
    if nameIndex < |name| && name[nameIndex] == DOT {
      nameIndex := nameIndex + 1;
    }
    ghost var x := nameIndex;
    index := 8;
    while nameIndex < |name| && index < 11
      invariant nameIndex <= |name| && 8 <= index <= 11 && nameIndex - x == index - 8
      invariant forall j :: 0 <= j < 8 ==> output[j] == if j < b then Upper(name[j]) else SPACE
      invariant forall j :: 8 <= j < 11 ==> output[j] == if j < index then Upper(name[x + j - 8]) else SPACE
    {
      output[index] := Upper(name[nameIndex]);
      index, nameIndex := index + 1, nameIndex + 1;
    }
    NormalizedIs(name, output[..]);
  }

  /** fat32_compare_entry_name: the entry bytes are unsigned and the normalized characters
      signed, so a normalized character of 128 or more equals no entry byte. */
  method CompareEntryName(entry: seq<Byte>, target: seq<Byte>) returns (same: bool)
    requires |entry| >= 11 && CString(target)
    ensures same <==> Matches(entry, target)
  {
    var normalized := new Byte[11];
    NormalizeName(normalized, target);
    for i := 0 to 11
      invariant normalized[..] == Normalized(target)
      invariant forall j :: 0 <= j < i ==> normalized[j] == entry[j] && normalized[j] < 128
    {
      if entry[i] != Signed(normalized[i]) {
        return false;
      }
    }
    return true;
  }

  ghost predicate Ascii(s: seq<Byte>) {
    forall i :: 0 <= i < |s| ==> s[i] < 128
  }

  /** The entry has the normalized name of the target, which is ASCII. */
  ghost predicate Matches(entry: seq<Byte>, target: seq<Byte>)
    requires |entry| >= 11
  {
    Normalized(target) == entry[..11] && Ascii(entry[..11])
  }

  /** An entry matches the name extracted from it exactly when it is canonical and ASCII. */
  lemma ExtractedMatches(entry: seq<Byte>)
    requires |entry| >= 11
    ensures Matches(entry, Extracted(entry[..11])) <==> Canonical(entry[..11]) && Ascii(entry[..11])
  {
    EntryRoundTrip(entry[..11]);
  }

  /** fat32_extract_entry_name. */
  method ExtractEntryName(output: array<Byte>, entry: seq<Byte>)
    requires output.Length >= 13 && |entry| >= 11
    modifies output
    ensures var name := Extracted(entry[..11]);
            output[..|name|] == name && output[|name|] == 0
  {
    var pos := 0;
    for i := 0 to 8
      invariant pos == i
      invariant forall j :: 0 <= j < i ==> !IsPad(entry[j]) && output[j] == entry[j]
    {
      if IsPad(entry[i]) {
        break;
      }
      output[pos] := entry[i];
      pos := pos + 1;
    }
    ghost var k, m := pos, 0;
    if !IsPad(entry[8]) {
      output[pos] := DOT;
      pos := pos + 1;
      for i := 0 to 3
        invariant pos == k + 1 + i && m == i
        invariant forall j :: 0 <= j < k ==> output[j] == entry[j]
        invariant output[k] == DOT
        invariant forall j :: 8 <= j < 8 + i ==> !IsPad(entry[j])
        invariant forall j :: k < j < pos ==> output[j] == entry[7 + j - k]
      {
        if IsPad(entry[8 + i]) {
          break;
        }
        output[pos] := entry[8 + i];
        pos := pos + 1;
        m := m + 1;
      }
    }
    output[pos] := 0;
    ExtractedIs(entry[..11], k, m, output[..pos]);
  }
}
