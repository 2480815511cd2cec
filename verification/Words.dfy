/** Fixed-width integers of the C sources: little-endian loads and bitwise operators on
    unsigned words, written on naturals. */
module Words {

  const U32 := 0x1_0000_0000
  const U64 := 0x1_0000_0000_0000_0000

  type Byte = b: int | 0 <= b < 0x100
  type Uint32 = n: int | 0 <= n < 0x1_0000_0000
  type Uint64 = n: int | 0 <= n < 0x1_0000_0000_0000_0000

  type Int8 = n: int | -128 <= n < 128

  /** The conversion from uint8_t to int8_t or to a signed char: the same value modulo 256. */
  function Signed(b: Byte): (n: Int8)
    ensures n == b || n + 0x100 == b
  {
    if b < 128 then b else b - 256
  }

  function Min(a: nat, b: nat): (m: nat)
    ensures m <= a && m <= b && (m == a || m == b)
  {
    if a <= b then a else b
  }

  /** Slot number x of a ring walked at most once around. */
  function Wrap(x: nat, slots: nat): nat {
    if x < slots then x else x - slots
  }

  // ---------------------------------------------------------------- loads

  /** Value of a little-endian byte string. */
  function Le(s: seq<Byte>): nat {
    if s == [] then 0 else s[0] as int + 0x100 * Le(s[1..])
  }

  lemma {:induction false} LeWidth(s: seq<Byte>)
    ensures Le(s) < Pow2(8 * |s|)
  {
    if s == [] {
    } else {
      LeWidth(s[1..]);
      Pow2Plus8(8 * (|s| - 1));
    }
  }

  lemma LeBound(s: seq<Byte>)
    ensures |s| == 4 ==> Le(s) < U32
    ensures |s| == 8 ==> Le(s) < U64
  {
    LeWidth(s);
    Pow2Of64();
  }

  function Le32(s: seq<Byte>, at: nat): Uint32
    requires at + 4 <= |s|
  {
    LeBound(s[at..at + 4]);
    Le(s[at..at + 4])
  }

  /** Value of a big-endian byte string. */
  function Be(s: seq<Byte>): nat {
    if s == [] then 0 else 0x100 * Be(s[..|s| - 1]) + s[|s| - 1] as int
  }

  lemma BeOfTwo(s: seq<Byte>)
    requires |s| == 2
    ensures Be(s) == 0x100 * (s[0] as int) + s[1] as int
  {
    assert Be(s[..1]) == s[0] as int by { assert s[..1][..0] == []; }
  }

  lemma BeOfFour(s: seq<Byte>)
    requires |s| == 4
    ensures Be(s) == 0x100_0000 * (s[0] as int) + 0x1_0000 * (s[1] as int) + 0x100 * (s[2] as int) + s[3] as int
  {
    BeOfTwo(s[..2]);
    assert s[..3][..2] == s[..2];
  }

  /** Four bytes, most significant first. */
  function Be32(n: Uint32): (r: seq<Byte>)
    ensures |r| == 4
  {
    [n / 0x100_0000 % 0x100, n / 0x1_0000 % 0x100, n / 0x100 % 0x100, n % 0x100]
  }

  lemma BeOfBe32(n: Uint32)
    ensures Be(Be32(n)) == n
  {
    BeOfFour(Be32(n));
    var b := n / 0x100;
    var c := b / 0x100;
    assert n / 0x1_0000 == c && n / 0x100_0000 == c / 0x100 && c / 0x100 < 0x100;
  }

  // ---------------------------------------------------------------- bitwise operators

  /** 1 << k. */
  function Pow2(k: nat): (p: nat)
    ensures p > 0
  {
    if k == 0 then 1 else 2 * Pow2(k - 1)
  }

  /** Bit k of w, counted from the least significant. */
  predicate Bit(w: nat, k: nat) {
    if k == 0 then w % 2 == 1 else Bit(w / 2, k - 1)
  }

  /** w' is w with bit k replaced by b. */
  ghost predicate WithBit(w: nat, k: nat, b: bool, w': nat) {
    forall j: nat :: Bit(w', j) <==> if j == k then b else Bit(w, j)
  }

  /** a | b. */
  function Or(a: nat, b: nat): nat {
    if a == 0 then b
    else 2 * Or(a / 2, b / 2) + (if a % 2 == 1 || b % 2 == 1 then 1 else 0)
  }

  /** a & b. */
  function And(a: nat, b: nat): nat {
    if a == 0 then 0
    else 2 * And(a / 2, b / 2) + (if a % 2 == 1 && b % 2 == 1 then 1 else 0)
  }

  /** a & ~b. */
  function AndNot(a: nat, b: nat): nat {
    if a == 0 then 0
    else 2 * AndNot(a / 2, b / 2) + (if a % 2 == 1 && b % 2 == 0 then 1 else 0)
  }

  lemma {:induction false} ZeroBit(k: nat)
    ensures !Bit(0, k)
  {
    if k == 0 {
    } else {
      ZeroBit(k - 1);
    }
  }

  lemma {:induction false} Pow2Bit(k: nat, j: nat)
    ensures Bit(Pow2(k), j) <==> j == k
  {
    if k > 0 && j > 0 {
      assert Pow2(k) / 2 == Pow2(k - 1);
      Pow2Bit(k - 1, j - 1);
    } else if j > 0 {
      ZeroBit(j - 1);
    }
  }

  lemma {:induction false} OrBit(a: nat, b: nat, k: nat)
    ensures Bit(Or(a, b), k) <==> Bit(a, k) || Bit(b, k)
  {
    if a == 0 {
      ZeroBit(k);
    } else if k > 0 {
      OrBit(a / 2, b / 2, k - 1);
    }
  }

  lemma {:induction false} AndNotBit(a: nat, b: nat, k: nat)
    ensures Bit(AndNot(a, b), k) <==> Bit(a, k) && !Bit(b, k)
  {
    if a == 0 {
      ZeroBit(k);
    } else if k > 0 {
      AndNotBit(a / 2, b / 2, k - 1);
    }
  }

  /** The test `w & (1 << k)`. */
  lemma {:induction false} AndMask(w: nat, k: nat)
    ensures And(w, Pow2(k)) != 0 <==> Bit(w, k)
  {
    if w == 0 {
      ZeroBit(k);
    } else if k > 0 {
      assert Pow2(k) / 2 == Pow2(k - 1);
      AndMask(w / 2, k - 1);
    } else {
      AndZero(w / 2);
    }
  }

  lemma {:induction false} AndZero(w: nat)
    ensures And(w, 0) == 0
  {
    if w == 0 {
    } else {
      AndZero(w / 2);
    }
  }

  /** The ring step `x & (2^k - 1)` for x up to 2^k. */
  lemma {:induction false} AndWraps(x: nat, k: nat)
    requires x <= Pow2(k)
    ensures And(x, Pow2(k) - 1) == Wrap(x, Pow2(k))
  {
    if x == 0 || k == 0 {
    } else {
      assert (Pow2(k) - 1) / 2 == Pow2(k - 1) - 1;
      AndWraps(x / 2, k - 1);
    }
  }

  lemma Halve(x: nat, b: nat)
    requires b <= 1
    ensures (2 * x + b) / 2 == x && (2 * x + b) % 2 == b
  {
  }

  /** Bits 0 to 3 of a byte. */
  lemma LowBits(q: nat, b3: nat, b2: nat, b1: nat, b0: nat)
    requires b3 <= 1 && b2 <= 1 && b1 <= 1 && b0 <= 1
    ensures var w := 16 * q + 8 * b3 + 4 * b2 + 2 * b1 + b0;
            (Bit(w, 0) <==> b0 == 1) && (Bit(w, 1) <==> b1 == 1) && (Bit(w, 2) <==> b2 == 1) && (Bit(w, 3) <==> b3 == 1)
  {
    var w3 := 2 * q + b3;
    var w2 := 2 * w3 + b2;
    var w1 := 2 * w2 + b1;
    var w := 2 * w1 + b0;
    Halve(q, b3);
    Halve(w3, b2);
    Halve(w2, b1);
    Halve(w1, b0);
    assert Bit(w, 1) == Bit(w1, 0);
    assert Bit(w, 2) == Bit(w1, 1) == Bit(w2, 0);
    assert Bit(w, 3) == Bit(w1, 2) == Bit(w2, 1) == Bit(w3, 0);
  }

  /** Bit 3 is the upper half of the values modulo 16. */
  lemma BitThree(w: nat)
    ensures Bit(w, 3) <==> w % 16 >= 8
  {
    var q, r := w / 16, w % 16;
    var b3, b2, b1, b0 := r / 8, r / 4 % 2, r / 2 % 2, r % 2;
    assert w == 16 * q + 8 * b3 + 4 * b2 + 2 * b1 + b0;
    LowBits(q, b3, b2, b1, b0);
  }

  lemma {:induction false} OrWidth(a: nat, b: nat, n: nat)
    requires a < Pow2(n) && b < Pow2(n)
    ensures Or(a, b) < Pow2(n)
  {
    if a == 0 {
    } else {
      OrWidth(a / 2, b / 2, n - 1);
    }
  }

  lemma {:induction false} AndNotWidth(a: nat, b: nat)
    ensures AndNot(a, b) <= a
  {
    if a == 0 {
    } else {
      AndNotWidth(a / 2, b / 2);
    }
  }

  lemma {:induction false} Pow2Monotone(k: nat, n: nat)
    requires k < n
    ensures Pow2(k) < Pow2(n)
  {
    if k + 1 >= n {
    } else {
      Pow2Monotone(k, n - 1);
    }
  }

  lemma Pow2Plus8(k: nat)
    ensures Pow2(k + 8) == 0x100 * Pow2(k)
  {
    assert Pow2(k + 2) == 4 * Pow2(k);
    assert Pow2(k + 4) == 4 * Pow2(k + 2);
    assert Pow2(k + 6) == 4 * Pow2(k + 4);
  }

  lemma Pow2Of64()
    ensures Pow2(32) == U32 && Pow2(64) == U64
  {
    Pow2Plus8(0); Pow2Plus8(8); Pow2Plus8(16); Pow2Plus8(24);
    Pow2Plus8(32); Pow2Plus8(40); Pow2Plus8(48); Pow2Plus8(56);
  }

  /** `w | (1 << k)`. */
  method SetBit(w: Uint64, k: nat) returns (w': Uint64)
    requires k < 64
    ensures WithBit(w, k, true, w')
  {
    Pow2Of64();
    Pow2Monotone(k, 64);
    OrWidth(w, Pow2(k), 64);
    w' := Or(w, Pow2(k));
    forall j: nat ensures Bit(w', j) <==> j == k || Bit(w, j) {
      OrBit(w, Pow2(k), j);
      Pow2Bit(k, j);
    }
  }

  /** `w & ~(1 << k)`. */
  method ClearBit(w: Uint64, k: nat) returns (w': Uint64)
    requires k < 64
    ensures WithBit(w, k, false, w')
  {
    AndNotWidth(w, Pow2(k));
    w' := AndNot(w, Pow2(k));
    forall j: nat ensures Bit(w', j) <==> j != k && Bit(w, j) {
      AndNotBit(w, Pow2(k), j);
      Pow2Bit(k, j);
    }
  }

  /** `(w & (1 << k)) != 0`. */
  method TestBit(w: Uint64, k: nat) returns (b: bool)
    requires k < 64
    ensures b <==> Bit(w, k)
  {
    AndMask(w, k);
    b := And(w, Pow2(k)) != 0;
  }
}
