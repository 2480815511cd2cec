/** The Internet checksum of network.c (RFC 1071) and the IPv4 header that carries it. */
module Checksum {
  import opened Words

  // ---------------------------------------------------------------- RFC 1071

  /** Addition of 16-bit numbers in ones' complement: the carry comes back in. */
  function OcAdd(a: nat, b: nat): nat {
    if a + b >= 0x1_0000 then a + b - 0xFFFF else a + b
  }

  /** The word at offset i, low byte first; a last single byte stands alone. */
  function WordAt(data: seq<Byte>, i: nat): (w: nat)
    requires i < |data|
    ensures w <= 0xFFFF
  {
    var lo: int := data[i];
    if i + 1 == |data| then lo else var hi: int := data[i + 1]; lo + 0x100 * hi
  }

  /** The ones' complement sum of section 1 of RFC 1071, from offset i on. */
  function OcSum(data: seq<Byte>, i: nat := 0): (s: nat)
    ensures s <= 0xFFFF
    decreases |data| - i
  {
    if i >= |data| then 0 else OcAdd(WordAt(data, i), OcSum(data, i + 2))
  }

  /** A message of odd length counts as if a zero byte followed (section 1 of RFC 1071). */
  lemma {:induction false} OddPadding(data: seq<Byte>, i: nat)
    requires |data| % 2 == 1 && i % 2 == 0
    ensures OcSum(data + [0], i) == OcSum(data, i)
    decreases |data| - i
  {
    if i >= |data| {
    } else {
      OddPadding(data, i + 2);
    }
  }

  /** The example of section 3 of RFC 1071, in load order: 0x0001 + 0xF203 + 0xF4F5 + 0xF6F7 is 0xDDF2
      when the high byte comes first, and its bytes are swapped when the low byte does. */
  lemma RfcExample()
    ensures OcSum([0x00, 0x01, 0xF2, 0x03, 0xF4, 0xF5, 0xF6, 0xF7]) == 0xF2DD
  {
    var data: seq<Byte> := [0x00, 0x01, 0xF2, 0x03, 0xF4, 0xF5, 0xF6, 0xF7];
    assert OcSum(data, 8) == 0;
    assert OcSum(data, 6) == 0xF7F6;
    assert OcSum(data, 4) == OcAdd(0xF5F4, 0xF7F6);
    assert OcSum(data, 2) == OcAdd(0x03F2, OcSum(data, 4));
  }

  // ---------------------------------------------------------------- deferred carries

  /** The plain sum of the words from offset i on. */
  function WordSum(data: seq<Byte>, i: nat := 0): nat
    decreases |data| - i
  {
    if i >= |data| then 0 else WordAt(data, i) + WordSum(data, i + 2)
  }

  /** What folding the carries of a plain sum leaves. */
  function Folded(s: nat): (r: nat)
    ensures r <= 0xFFFF && (r == 0 <==> s == 0)
  {
    if s == 0 then 0 else (s - 1) % 0xFFFF + 1
  }

  lemma FoldedStep(s: nat)
    ensures Folded(s % 0x1_0000 + s / 0x1_0000) == Folded(s)
  {
    var q, r := s / 0x1_0000, s % 0x1_0000;
    assert s == 0xFFFF * q + (q + r);
    if s > 0 {
      ModPlus(q + r - 1, q);
    }
  }

  lemma {:induction false} ModPlus(x: nat, k: nat)
    ensures (0xFFFF * k + x) % 0xFFFF == x % 0xFFFF
  {
    if k == 0 {
    } else {
      ModPlus(x, k - 1);
    }
  }

  lemma FoldedAdd(w: nat, s: nat)
    requires w <= 0xFFFF
    ensures Folded(w + s) == OcAdd(w, Folded(s))
  {
    if s > 0 {
      var q := (s - 1) / 0xFFFF;
      assert s == 0xFFFF * q + Folded(s);
      ModPlus(w + Folded(s) - 1, q);
    }
  }

  /** Folding at the end equals carrying at every step (section 2 of RFC 1071). */
  lemma {:induction false} DeferredCarries(data: seq<Byte>, i: nat)
    ensures Folded(WordSum(data, i)) == OcSum(data, i)
    decreases |data| - i
  {
    if i >= |data| {
    } else {
      DeferredCarries(data, i + 2);
      FoldedAdd(WordAt(data, i), WordSum(data, i + 2));
    }
  }

  /** Largest possible sum of n bytes. */
  function MaxSum(n: nat): nat {
    0xFFFF * (n / 2) + if n % 2 == 0 then 0 else 0xFF
  }

  lemma {:induction false} WordSumBound(data: seq<Byte>, i: nat)
    requires i <= |data|
    ensures WordSum(data, i) <= MaxSum(|data| - i)
    decreases |data| - i
  {
    if i + 2 > |data| {
    } else {
      WordSumBound(data, i + 2);
    }
  }

  /** The 32-bit accumulator is wide enough up to 131074 bytes. */
  lemma NoOverflow(data: seq<Byte>)
    requires |data| <= 131074
    ensures WordSum(data) < U32
  {
    WordSumBound(data, 0);
  }

  lemma {:induction false} WordSumOfOnes(data: seq<Byte>, i: nat)
    requires i <= |data| && forall j :: 0 <= j < |data| ==> data[j] == 0xFF
    ensures WordSum(data, i) == MaxSum(|data| - i)
    decreases |data| - i
  {
    if i + 2 > |data| {
    } else {
      WordSumOfOnes(data, i + 2);
    }
  }

  /** The wrapped accumulator folds to the right value. */
  predicate FoldsRight(s: nat) {
    s < U32 || (s / U32 % 0xFFFF == 0 && s % U32 != 0)
  }

  /** Losing the carries out of 32 bits does no harm exactly when there are none, or when their
      number is a multiple of 65535 and something is left: 2^32 is 1 modulo 65535. */
  lemma WrapFolds(s: nat)
    ensures Folded(s % U32) == Folded(s) <==> FoldsRight(s)
  {
    if s >= U32 {
      var q, r := s / U32, s % U32;
      var p, e := q / 0xFFFF, q % 0xFFFF;
      assert s == 0xFFFF * (0x1_0001 * q + p) + (e + r);
      FoldedPlus(e + r, 0x1_0001 * q + p);
      FoldedDiffers(e, r);
    }
  }

  lemma FoldedPlus(x: nat, k: nat)
    ensures x > 0 ==> Folded(0xFFFF * k + x) == Folded(x)
    ensures k > 0 ==> Folded(0xFFFF * k) == 0xFFFF
  {
    if x > 0 { ModPlus(x - 1, k); }
    if k > 0 { ModPlus(0xFFFE, k - 1); }
  }

  lemma FoldedDiffers(e: nat, r: nat)
    requires e < 0xFFFF
    ensures Folded(e + r) == Folded(r) <==> e == 0
  {
    FoldedAdd(e, r);
  }

  /** And no further: this message of 131075 bytes overflows it and gets a wrong checksum. */
  lemma OverflowBeyond()
    ensures var data := seq(131075, _ => 0xFF);
            WordSum(data) >= U32 && 0xFFFF - Folded(WordSum(data) % U32) != 0xFFFF - OcSum(data)
  {
    var data := seq(131075, _ => 0xFF);
    WordSumOfOnes(data, 0);
    WrapFolds(WordSum(data));
    DeferredCarries(data, 0);
  }

  /** The accumulator loop of checksum16, in 32-bit arithmetic. */
  method SumWords(data: seq<Byte>) returns (sum: Uint32)
    ensures sum == WordSum(data) % U32
  {
    sum := 0;
    var i := 0;
    ghost var wraps: nat := 0;
    while i + 1 < |data|
      invariant 0 <= i <= |data| && i % 2 == 0
      invariant sum + U32 * wraps + WordSum(data, i) == WordSum(data)
    {
      var lo: int, hi: int := data[i], data[i + 1];
      assert WordSum(data, i) == (lo + 0x100 * hi) + WordSum(data, i + 2);
      wraps := if sum + (lo + 0x100 * hi) < U32 then wraps else wraps + 1;
      sum := AddU32(sum, lo + 0x100 * hi);
      i := i + 2;
    }
    if |data| % 2 == 1 {
      wraps := if sum + data[|data| - 1] < U32 then wraps else wraps + 1;
      sum := AddU32(sum, data[|data| - 1]);
    }
    ModU32(sum, wraps);
  }

  /** Addition of unsigned 32-bit numbers. */
  function AddU32(a: Uint32, b: Uint32): Uint32 {
    if a + b < U32 then a + b else a + b - U32
  }

  lemma {:induction false} ModU32(x: nat, k: nat)
    ensures (x + U32 * k) % U32 == x % U32
  {
    if k == 0 {
    } else {
      ModU32(x, k - 1);
    }
  }

  /** The folding loop of checksum16. */
  method FoldCarries(start: Uint32) returns (sum: Uint32)
    ensures sum == Folded(start)
  {
    sum := start;
    while sum / 0x1_0000 != 0
      invariant Folded(sum) == Folded(start)
      decreases sum
    {
      FoldedStep(sum);
      sum := sum % 0x1_0000 + sum / 0x1_0000;
    }
  }

  /** checksum16: the complement of the ones' complement sum exactly when the accumulator folds to
      the right value, which it does up to 131074 bytes. */
  method Checksum16(data: seq<Byte>) returns (r: nat)
    ensures r == 0xFFFF - Folded(WordSum(data) % U32)
    ensures r == 0xFFFF - OcSum(data) <==> FoldsRight(WordSum(data))
    ensures |data| <= 131074 ==> FoldsRight(WordSum(data))
  {
    var sum := SumWords(data);
    sum := FoldCarries(sum);
    r := 0xFFFF - sum;
    DeferredCarries(data, 0);
    WrapFolds(WordSum(data));
    if |data| <= 131074 { NoOverflow(data); }
  }

  // ---------------------------------------------------------------- self-check

  /** Two bytes at an even distance count as one word. */
  lemma {:induction false} WordSumUpdate(data: seq<Byte>, i: nat, k: nat, a: Byte, b: Byte)
    requires k + 1 < |data| && data[k] == 0 && data[k + 1] == 0
    requires i <= k + 2 && (k - i) % 2 == 0
    ensures WordSum(data[k := a][k + 1 := b], i) ==
            WordSum(data, i) + if i <= k then (a as int) + 0x100 * (b as int) else 0
    decreases |data| - i
  {
    if i >= |data| {
    } else {
      if i <= k {
        WordSumUpdate(data, i + 2, k, a, b);
      } else {
        WordSumTail(data, data[k := a][k + 1 := b], i);
      }
    }
  }

  lemma {:induction false} WordSumTail(data: seq<Byte>, data': seq<Byte>, i: nat)
    requires |data'| == |data| && forall j :: i <= j < |data| ==> data'[j] == data[j]
    ensures WordSum(data', i) == WordSum(data, i)
    decreases |data| - i
  {
    if i >= |data| {
    } else {
      WordSumTail(data, data', i + 2);
    }
  }

  /** Adding v to a sum gives all ones exactly when v is the complement of its folded value,
      up to the two representations of zero. */
  lemma FoldedComplement(s: nat, v: nat)
    requires v <= 0xFFFF
    ensures Folded(s + v) == 0xFFFF <==> (v == 0xFFFF - Folded(s) || (Folded(s) == 0xFFFF && v == 0xFFFF))
  {
    FoldedAdd(v, s);
  }

  /** A message whose checksum is stored in load order checks to zero. */
  lemma SelfCheck(data: seq<Byte>, k: nat)
    requires k % 2 == 0 && k + 1 < |data| && data[k] == 0 && data[k + 1] == 0
    ensures var c := 0xFFFF - OcSum(data);
            0xFFFF - OcSum(data[k := c % 0x100][k + 1 := c / 0x100]) == 0
  {
    var c := 0xFFFF - OcSum(data);
    var stored := data[k := c % 0x100][k + 1 := c / 0x100];
    WordSumUpdate(data, 0, k, c % 0x100, c / 0x100);
    DeferredCarries(data, 0);
    DeferredCarries(stored, 0);
    FoldedComplement(WordSum(data), c);
  }

  /** Stored high byte first, it checks to zero exactly when its two bytes are equal. */
  lemma SwappedCheck(data: seq<Byte>, k: nat)
    requires k % 2 == 0 && k + 1 < |data| && data[k] == 0 && data[k + 1] == 0
    ensures var c := 0xFFFF - OcSum(data);
            0xFFFF - OcSum(data[k := c / 0x100][k + 1 := c % 0x100]) == 0 <==> c / 0x100 == c % 0x100
  {
    var c := 0xFFFF - OcSum(data);
    var hi, lo := c / 0x100, c % 0x100;
    var stored := data[k := hi][k + 1 := lo];
    WordSumUpdate(data, 0, k, hi, lo);
    DeferredCarries(data, 0);
    DeferredCarries(stored, 0);
    FoldedComplement(WordSum(data), hi + 0x100 * lo);
    assert c == 0x100 * hi + lo;
  }

  // ---------------------------------------------------------------- the IPv4 header

  /** The header fields with a zero checksum. */
  function HeaderBytes(totalLength: nat, protocol: Byte, src: Uint32, dest: Uint32): (h: seq<Byte>)
    requires totalLength < 0x1_0000
    ensures |h| == 20 && h[10] == 0 && h[11] == 0
  {
    HeaderHead(totalLength, protocol) + Be32(src) + Be32(dest)
  }

  /** The fields before the addresses. */
  function HeaderHead(totalLength: nat, protocol: Byte): (h: seq<Byte>)
    requires totalLength < 0x1_0000
    ensures |h| == 12 && h[10] == 0 && h[11] == 0
  {
    [0x45, 0x00, totalLength / 0x100, totalLength % 0x100, 0x00, 0x00, 0x40, 0x00, 64, protocol, 0, 0]
  }

  /** What a receiver reads from the first 20 bytes: version and header length, type of service,
      total length, identification, flags and offset, time to live, protocol and the addresses
      (section 3.1 of RFC 791). */
  ghost predicate ReadsAs(h: seq<Byte>, totalLength: nat, protocol: Byte, src: Uint32, dest: Uint32)
    requires |h| == 20
  {
    && h[0] == 0x45 && h[1] == 0 && Be(h[2..4]) == totalLength
    && Be(h[4..6]) == 0 && Be(h[6..8]) == 0x4000 && h[8] == 64 && h[9] == protocol
    && Be(h[12..16]) == src && Be(h[16..20]) == dest
  }

  /** The header says what it was asked to say, whatever its checksum. */
  lemma HeaderReads(totalLength: nat, protocol: Byte, src: Uint32, dest: Uint32, a: Byte, b: Byte)
    requires totalLength < 0x1_0000
    ensures ReadsAs(HeaderBytes(totalLength, protocol, src, dest)[10 := a][11 := b], totalLength, protocol, src, dest)
  {
    var head: seq<Byte> := [0x45, 0, totalLength / 0x100, totalLength % 0x100, 0, 0, 0x40, 0, 64, protocol, a, b];
    var h := HeaderBytes(totalLength, protocol, src, dest)[10 := a][11 := b];
    assert h == head + Be32(src) + Be32(dest);
    assert h[2] == head[2] && h[3] == head[3] && h[4] == head[4] && h[5] == head[5] && h[6] == head[6] && h[7] == head[7];
    BeOfTwo(h[2..4]);
    BeOfTwo(h[4..6]);
    BeOfTwo(h[6..8]);
    AddressesAt(head, Be32(src), Be32(dest));
    BeOfBe32(src);
    BeOfBe32(dest);
  }

  lemma AddressesAt(head: seq<Byte>, a: seq<Byte>, b: seq<Byte>)
    requires |head| == 12 && |a| == 4 && |b| == 4
    ensures (head + a + b)[12..16] == a && (head + a + b)[16..20] == b
  {
  }

  /** write_ip_header. The header it leaves checks to zero exactly when the two bytes of the
      computed checksum are equal, because it stores them high byte first. */
  method WriteIpHeader(buffer: array<Byte>, totalLength: nat, protocol: Byte, src: Uint32, dest: Uint32)
    requires buffer.Length >= 20 && totalLength < 0x1_0000
    modifies buffer
    ensures var h := HeaderBytes(totalLength, protocol, src, dest);
            var c := 0xFFFF - OcSum(h);
            && buffer[..20] == h[10 := c / 0x100][11 := c % 0x100] && Be(buffer[10..12]) == c
            && (0xFFFF - OcSum(buffer[..20]) == 0 <==> c / 0x100 == c % 0x100)
    ensures ReadsAs(buffer[..20], totalLength, protocol, src, dest)
    ensures buffer[20..] == old(buffer[20..])
  {
    WriteFields(buffer, totalLength, protocol, src, dest);
    var checksum := Checksum16(buffer[..20]);
    SwappedCheck(buffer[..20], 10);
    buffer[10] := checksum / 0x100;
    buffer[11] := checksum % 0x100;
    assert buffer[..20] == HeaderBytes(totalLength, protocol, src, dest)[10 := checksum / 0x100][11 := checksum % 0x100];
    HeaderReads(totalLength, protocol, src, dest, checksum / 0x100, checksum % 0x100);
    BeOfTwo(buffer[10..12]);
  }

  /** The stores of write_ip_header up to the checksum. */
  method WriteFields(buffer: array<Byte>, totalLength: nat, protocol: Byte, src: Uint32, dest: Uint32)
    requires buffer.Length >= 20 && totalLength < 0x1_0000
    modifies buffer
    ensures buffer[..20] == HeaderBytes(totalLength, protocol, src, dest)
    ensures buffer[20..] == old(buffer[20..])
  {
    WriteHead(buffer, totalLength, protocol);
    ghost var head := buffer[..12];
    WriteBe32(buffer, 12, src);
    assert buffer[..16] == head + Be32(src);
    WriteBe32(buffer, 16, dest);
  }

  /** The stores before the addresses. */
  method WriteHead(buffer: array<Byte>, totalLength: nat, protocol: Byte)
    requires buffer.Length >= 20 && totalLength < 0x1_0000
    modifies buffer
    ensures buffer[..12] == HeaderHead(totalLength, protocol)
    ensures buffer[12..] == old(buffer[12..])
  {
    buffer[0], buffer[1], buffer[2], buffer[3] := 0x45, 0x00, totalLength / 0x100, totalLength % 0x100;
    buffer[4], buffer[5], buffer[6], buffer[7] := 0x00, 0x00, 0x40, 0x00;
    buffer[8], buffer[9], buffer[10], buffer[11] := 64, protocol, 0, 0;
  }

  /** The four stores of an address. */
  method WriteBe32(buffer: array<Byte>, at: nat, n: Uint32)
    requires at + 4 <= buffer.Length
    modifies buffer
    ensures buffer[..] == old(buffer[..at]) + Be32(n) + old(buffer[at + 4..])
  {
    buffer[at] := n / 0x100_0000 % 0x100;
    buffer[at + 1] := n / 0x1_0000 % 0x100;
    buffer[at + 2] := n / 0x100 % 0x100;
    buffer[at + 3] := n % 0x100;
  }

  /** A header for which the stored checksum is wrong. */
  lemma WrongHeader()
    ensures var h := HeaderBytes(20, 17, 0, 0);
            var c := 0xFFFF - OcSum(h);
            0xFFFF - OcSum(h[10 := c / 0x100][11 := c % 0x100]) != 0
  {
    var h := HeaderBytes(20, 17, 0, 0);
    assert WordSum(h, 16) == 0 && WordSum(h, 12) == 0 && WordSum(h, 8) == 0x1140 && WordSum(h, 4) == 0x1180;
    assert WordSum(h) == 0x45 + 0x1400 + 0x40 + 0x1140;
    DeferredCarries(h, 0);
    SwappedCheck(h, 10);
  }
}
