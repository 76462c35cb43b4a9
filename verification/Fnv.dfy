/** The 64-bit FNV-1a hash behind object identifiers and update identifiers. */
module Fnv {
  import opened Prelude

  const OFFSET_BASIS: u64 := 0xcbf2_9ce4_8422_2325
  const PRIME: u64 := 0x0000_0100_0000_01b3
  /** The inverse of the odd `PRIME` modulo 2^64. */
  const PRIME_INVERSE: u64 := 0xce96_5057_aff6_957b

  /** Exclusive or of two naturals, bit by bit. */
  function Xor(a: nat, b: nat): nat {
    if a == 0 && b == 0 then 0 else 2 * Xor(a / 2, b / 2) + (a + b) % 2
  }

  function Pow2(n: nat): (r: nat)
    ensures r > 0
  {
    if n == 0 then 1 else 2 * Pow2(n - 1)
  }

  lemma {:induction false} XorBound(a: nat, b: nat, n: nat)
    requires a < Pow2(n) && b < Pow2(n)
    ensures Xor(a, b) < Pow2(n)
    decreases n
  {
    if n > 0 {
      XorBound(a / 2, b / 2, n - 1);
    }
  }

  lemma XorParts(a: nat, b: nat)
    ensures Xor(a, b) / 2 == Xor(a / 2, b / 2)
    ensures Xor(a, b) % 2 == (a + b) % 2
  {
    var high := Xor(a / 2, b / 2);
    assert Xor(a, b) == 2 * high + (a + b) % 2;
  }

  lemma {:induction false} XorUndo(a: nat, b: nat)
    ensures Xor(Xor(a, b), b) == a
    decreases a + b
  {
    if a != 0 || b != 0 {
      var x := Xor(a, b);
      XorUndo(a / 2, b / 2);
      XorParts(a, b);
      XorParts(x, b);
      ParityUndo(a, b, x);
    }
  }

  lemma ParityUndo(a: nat, b: nat, x: nat)
    requires x % 2 == (a + b) % 2
    ensures (x + b) % 2 == a % 2
  {
  }

  lemma {:induction false} XorSymmetric(a: nat, b: nat)
    ensures Xor(a, b) == Xor(b, a)
    decreases a + b
  {
    if a != 0 || b != 0 {
      XorSymmetric(a / 2, b / 2);
    }
  }

  lemma {:induction false} Pow2Sum(m: nat, n: nat)
    ensures Pow2(m + n) == Pow2(m) * Pow2(n)
    decreases m
  {
    if m > 0 {
      Pow2Sum(m - 1, n);
      TwiceProduct(Pow2(m - 1), Pow2(n));
    }
  }

  lemma TwiceProduct(a: nat, b: nat)
    ensures 2 * (a * b) == 2 * a * b
  {
  }

  lemma Pow2Is32Bits()
    ensures Pow2(32) == U32_COUNT
  {
    assert Pow2(8) == 0x100;
    hide Pow2;
    Pow2Sum(8, 8);
    Pow2Sum(16, 16);
  }

  lemma Pow2Is64Bits()
    ensures Pow2(64) == U64_COUNT
  {
    Pow2Is32Bits();
    hide Pow2;
    Pow2Sum(32, 32);
  }

  function Xor64(a: u64, b: u64): (r: u64)
    ensures r == Xor(a, b)
  {
    Pow2Is64Bits();
    XorBound(a, b, 64);
    Xor(a, b)
  }

  function WrappingMul(a: u64, b: u64): u64 {
    a * b % U64_COUNT
  }

  /** One byte of FNV-1a. */
  function Step(h: u64, b: byte): u64 {
    WrappingMul(Xor64(h, b), PRIME)
  }

  /** The state before a step on `b` that led to `h`. */
  function Unstep(h: u64, b: byte): u64 {
    Xor64(WrappingMul(h, PRIME_INVERSE), b)
  }

  lemma MulInverse(x: u64)
    ensures WrappingMul(WrappingMul(x, PRIME), PRIME_INVERSE) == x
    ensures WrappingMul(WrappingMul(x, PRIME_INVERSE), PRIME) == x
  {
    assert PRIME * PRIME_INVERSE % U64_COUNT == 1;
    ModMul(x, PRIME, PRIME_INVERSE);
    ModMul(x, PRIME_INVERSE, PRIME);
  }

  lemma ModMul(x: u64, p: u64, q: u64)
    requires p * q % U64_COUNT == 1
    ensures WrappingMul(WrappingMul(x, p), q) == x
  {
    var k := x * p / U64_COUNT;
    var r := x * p % U64_COUNT;
    var j := p * q / U64_COUNT;
    assert x * p == k * U64_COUNT + r;
    assert p * q == j * U64_COUNT + 1;
    calc {
      r * q;
      (x * p - k * U64_COUNT) * q;
      x * p * q - k * U64_COUNT * q;
      { assert x * p * q == x * (p * q); assert k * U64_COUNT * q == (k * q) * U64_COUNT; }
      x * (j * U64_COUNT + 1) - (k * q) * U64_COUNT;
      { assert x * (j * U64_COUNT + 1) == (x * j) * U64_COUNT + x; }
      x + (x * j - k * q) * U64_COUNT;
    }
    ModUnique(r * q, x, x * j - k * q);
  }

  lemma ModUnique(n: int, r: u64, k: int)
    requires n == r + k * U64_COUNT
    ensures n % U64_COUNT == r
  {
  }

  /** For each byte the step is a bijection on 64-bit states. */
  lemma StepBijective(h: u64, b: byte)
    ensures Unstep(Step(h, b), b) == h
    ensures Step(Unstep(h, b), b) == h
  {
    MulInverse(Xor64(h, b));
    XorUndo(h, b);
    var m := WrappingMul(h, PRIME_INVERSE);
    MulInverse(h);
    XorUndo(m, b);
  }

  /** From one state, different bytes lead to different states. */
  lemma StepSeparatesBytes(h: u64, b: byte, c: byte)
    requires Step(h, b) == Step(h, c)
    ensures b == c
  {
    MulInverse(Xor64(h, b));
    MulInverse(Xor64(h, c));
    XorSymmetric(h, b);
    XorSymmetric(h, c);
    XorUndo(b, h);
    XorUndo(c, h);
  }

  function Extended(h: u64, value: seq<byte>): u64
    decreases |value|
  {
    if value == [] then h else Step(Extended(h, value[..|value| - 1]), value[|value| - 1])
  }

  lemma {:induction false} ExtendedConcat(h: u64, a: seq<byte>, b: seq<byte>)
    ensures Extended(h, a + b) == Extended(Extended(h, a), b)
    decreases |b|
  {
    if b == [] {
      assert a + b == a;
    } else {
      var front := b[..|b| - 1];
      assert (a + b)[..|a + b| - 1] == a + front;
      ExtendedConcat(h, a, front);
    }
  }

  /** Common suffixes cancel: hashing the same bytes keeps different states different. */
  lemma {:induction false} ExtendedInjective(g: u64, h: u64, value: seq<byte>)
    ensures Extended(g, value) == Extended(h, value) <==> g == h
    decreases |value|
  {
    if value != [] {
      var front, last := value[..|value| - 1], value[|value| - 1];
      StepBijective(Extended(g, front), last);
      StepBijective(Extended(h, front), last);
      ExtendedInjective(g, h, front);
    }
  }

  /** Byte strings of one length that differ in exactly one byte never hash alike. */
  lemma OneByteChangesHash(h: u64, a: seq<byte>, b: byte, c: byte, z: seq<byte>)
    requires b != c
    ensures Extended(h, a + [b] + z) != Extended(h, a + [c] + z)
  {
    ExtendedConcat(h, a + [b], z);
    ExtendedConcat(h, a + [c], z);
    ExtendedConcat(h, a, [b]);
    ExtendedConcat(h, a, [c]);
    var g := Extended(h, a);
    assert Extended(g, [b]) == Step(Extended(g, []), b) by { assert [b][..0] == []; }
    assert Extended(g, [c]) == Step(Extended(g, []), c) by { assert [c][..0] == []; }
    if Step(g, b) == Step(g, c) {
      StepSeparatesBytes(g, b, c);
    }
    ExtendedInjective(Step(g, b), Step(g, c), z);
  }

  /** `extend_hash`. */
  method ExtendHash(hash: u64, value: seq<byte>) returns (r: u64)
    ensures r == Extended(hash, value)
  {
    r := hash;
    for i := 0 to |value|
      invariant r == Extended(hash, value[..i])
    {
      r := WrappingMul(Xor64(r, value[i]), PRIME);
      assert value[..i + 1][..i] == value[..i];
    }
    assert value[..|value|] == value;
  }

  /** `hash_value`: the bytes of one field followed by the terminator 0xff. */
  method HashValue(hash: u64, value: seq<byte>) returns (r: u64)
    ensures r == Extended(hash, value + [0xff])
  {
    r := ExtendHash(hash, value);
    r := WrappingMul(Xor64(r, 0xff), PRIME);
    assert (value + [0xff])[..|value|] == value;
  }

  /** `fold_update_id`: the low 32 bits of the hash xor its high half. */
  function FoldUpdateId(hash: u64): (r: u32) {
    Xor64(hash, hash / U32_COUNT) % U32_COUNT
  }

  // --- Bits of the update identifier ---------------------------------------------------------

  /** Bit `k` of a number: its parity after halving it `k` times. */
  function Bit(n: nat, k: nat): nat {
    if k == 0 then n % 2 else Bit(n / 2, k - 1)
  }

  lemma SameParity(a: nat, b: nat, r: nat, v: nat)
    requires a % 2 == r % 2 && b % 2 == v % 2
    ensures (a + b) % 2 == (r + v) % 2
  {
  }

  lemma {:induction false} XorBits(a: nat, b: nat, k: nat)
    ensures Bit(Xor(a, b), k) == (Bit(a, k) + Bit(b, k)) % 2
    decreases k
  {
    XorParts(a, b);
    hide Xor;
    if k == 0 {
      SameParity(a, b, Bit(a, 0), Bit(b, 0));
    } else {
      XorBits(a / 2, b / 2, k - 1);
    }
  }

  /** What halving does to a number split into a high part and `j` low bits. */
  lemma HalfOfSplit(q: nat, r: nat, j: nat)
    requires j > 0 && r < Pow2(j)
    ensures var n, t := q * Pow2(j) + r, q * Pow2(j - 1);
            t >= 0 && n / 2 == t + r / 2 && n % 2 == r % 2 && r / 2 < Pow2(j - 1)
  {
    assert q * Pow2(j) == 2 * (q * Pow2(j - 1));
  }

  /** The bits of a number split in two are those of its low part and then those of its high part. */
  lemma {:induction false} SplitBits(q: nat, r: nat, j: nat, k: nat)
    requires r < Pow2(j)
    ensures Bit(q * Pow2(j) + r, k) == if k < j then Bit(r, k) else Bit(q, k - j)
    decreases j
  {
    if j > 0 {
      HalfOfSplit(q, r, j);
      if k > 0 {
        SplitBits(q, r / 2, j - 1, k - 1);
      }
    }
  }

  lemma XorFromHalves(a: nat, b: nat)
    ensures Xor(a, b) == 2 * Xor(a / 2, b / 2) + (a + b) % 2
  {
  }

  /** Exclusive or works on the two parts separately. */
  lemma {:induction false} SplitXor(q: nat, r: nat, u: nat, v: nat, j: nat)
    requires r < Pow2(j) && v < Pow2(j)
    ensures Xor(q * Pow2(j) + r, u * Pow2(j) + v) == Xor(q, u) * Pow2(j) + Xor(r, v)
    decreases j
  {
    if j == 0 {
      assert Pow2(j) == 1 && r == 0 && v == 0;
    } else {
      HalfOfSplit(q, r, j);
      HalfOfSplit(u, v, j);
      SplitXor(q, r / 2, u, v / 2, j - 1);
      assert Pow2(j) == 2 * Pow2(j - 1);
      hide *;
      var (a, b) := (q * Pow2(j) + r, u * Pow2(j) + v);
      XorFromHalves(r, v);
      XorFromHalves(a, b);
      SameParity(a, b, r, v);
      JoinHalves(Xor(a, b), Xor(a / 2, b / 2), Xor(q, u), Pow2(j - 1), Xor(r / 2, v / 2), Xor(r, v), (r + v) % 2);
    }
  }

  lemma JoinHalves(whole: int, half: int, high: int, p: int, lowHalf: int, low: int, parity: int)
    requires whole == 2 * half + parity && half == high * p + lowHalf && low == 2 * lowHalf + parity
    ensures whole == high * (2 * p) + low
  {
  }

  /** The update identifier is the exclusive or of the two halves. */
  lemma FoldOfHalves(hash: u64)
    ensures FoldUpdateId(hash) == Xor(hash % U32_COUNT, hash / U32_COUNT)
  {
    var (high, low) := (hash / U32_COUNT, hash % U32_COUNT);
    assert hash == high * U32_COUNT + low && high < U32_COUNT;
    hide Xor, Pow2;
    Pow2Is32Bits();
    SplitXor(high, low, 0, high, 32);
    XorBound(low, high, 32);
    LowPart(Xor(high, 0), Xor(low, high));
  }

  lemma LowPart(high: nat, low: nat)
    requires low < U32_COUNT
    ensures (high * U32_COUNT + low) % U32_COUNT == low
  {
  }

  /** Each bit of the update identifier is the parity of the two bits of the hash that meet there. */
  lemma FoldedBits(hash: u64, k: nat)
    requires k < 32
    ensures Bit(FoldUpdateId(hash), k) == (Bit(hash, k) + Bit(hash, k + 32)) % 2
  {
    var (high, low) := (hash / U32_COUNT, hash % U32_COUNT);
    Pow2Is32Bits();
    FoldOfHalves(hash);
    hide Xor, Pow2, Bit, FoldUpdateId;
    XorBits(low, high, k);
    SplitBits(high, low, 32, k);
    SplitBits(high, low, 32, k + 32);
  }

  lemma {:induction false} XorZero(a: nat)
    ensures Xor(a, 0) == a
  {
    if a > 0 {
      XorZero(a / 2);
    }
  }

  /**
   * A hash of 32 bits is its own update identifier, and hashes that agree in one half and differ in
   * the other have different identifiers.
   */
  lemma FoldSeparates(g: u64, h: u64)
    ensures g < U32_COUNT ==> FoldUpdateId(g) == g
    ensures (g % U32_COUNT == h % U32_COUNT) != (g / U32_COUNT == h / U32_COUNT) ==>
      FoldUpdateId(g) != FoldUpdateId(h)
  {
    FoldOfHalves(g);
    FoldOfHalves(h);
    hide Xor, FoldUpdateId;
    XorZero(g);
    var (a, b, c, d) := (g % U32_COUNT, g / U32_COUNT, h % U32_COUNT, h / U32_COUNT);
    XorUndo(a, b);
    XorUndo(c, d);
    XorSymmetric(a, b);
    XorSymmetric(c, d);
    XorUndo(b, a);
    XorUndo(d, c);
  }

  // --- Published values ----------------------------------------------------------------------

  lemma XorOfLowByte(q: nat, r: nat, b: byte)
    requires r < 0x100
    ensures Xor(q * 0x100 + r, b) == q * 0x100 + Xor(r, b)
  {
    assert Pow2(8) == 0x100;
    hide Xor, Pow2;
    SplitXor(q, r, 0, b, 8);
    XorZero(q);
  }

  lemma XorOfDigits(x: nat, y: nat, b: byte)
    requires x < 0x10 && y < 0x10
    ensures Xor(x * 0x10 + y, b) == Xor(x, b / 0x10) * 0x10 + Xor(y, b % 0x10)
  {
    assert Pow2(4) == 0x10;
    hide Xor, Pow2;
    assert b == b / 0x10 * 0x10 + b % 0x10;
    SplitXor(x, y, b / 0x10, b % 0x10, 4);
  }

  /** The hashes of the empty string, "a" and "foobar" are those published for 64-bit FNV-1a. */
  lemma PublishedHashes()
    ensures Extended(OFFSET_BASIS, []) == 0xcbf2_9ce4_8422_2325
    ensures Extended(OFFSET_BASIS, [0x61]) == 0xaf63_dc4c_8601_ec8c
    ensures Extended(OFFSET_BASIS, [0x66, 0x6f, 0x6f, 0x62, 0x61, 0x72]) == 0x8594_4171_f739_67e8
  {
    Digits();
    assert Extended(OFFSET_BASIS, []) == OFFSET_BASIS;
    hide Xor, Extended;
    Round(0xcbf2_9ce4_8422_2325, 0xcb_f29c_e484_2223, 0x2, 0x5, 0x61, 0x4, 0x4, 0xcb_f29c_e5de, 0xaf63_dc4c_8601_ec8c);
    Round(0xcbf2_9ce4_8422_2325, 0xcb_f29c_e484_2223, 0x2, 0x5, 0x66, 0x4, 0x3, 0xcb_f29c_e5de, 0xaf63_db4c_8601_ead9);
    Round(0xaf63_db4c_8601_ead9, 0xaf_63db_4c86_01ea, 0xd, 0x9, 0x6f, 0xb, 0x6, 0xaf_63db_4db0, 0x898_5907_b541_d342);
    Round(0x898_5907_b541_d342, 0x8_9859_07b5_41d3, 0x4, 0x2, 0x6f, 0x2, 0xd, 0x8_9859_07c3, 0xdcb2_7518_fed9_d577);
    Round(0xdcb2_7518_fed9_d577, 0xdc_b275_18fe_d9d5, 0x7, 0x7, 0x62, 0x1, 0x5, 0xdc_b275_1a75, 0xdd12_0e79_0c25_12af);
    Round(0xdd12_0e79_0c25_12af, 0xdd_120e_790c_2512, 0xa, 0xf, 0x61, 0xc, 0xe, 0xdd_120e_7a83, 0xcac1_65af_a2fe_f40a);
    Round(0xcac1_65af_a2fe_f40a, 0xca_c165_afa2_fef4, 0x0, 0xa, 0x72, 0x7, 0x8, 0xca_c165_b0fb, 0x8594_4171_f739_67e8);
    HashSix(OFFSET_BASIS, 0x66, 0x6f, 0x6f, 0x62, 0x61, 0x72);
  }

  lemma Digits()
    ensures
      && Xor(0, 7) == 7
      && Xor(2, 6) == 4
      && Xor(2, 15) == 13
      && Xor(4, 6) == 2
      && Xor(5, 1) == 4
      && Xor(5, 6) == 3
      && Xor(7, 2) == 5
      && Xor(7, 6) == 1
      && Xor(9, 15) == 6
      && Xor(10, 2) == 8
      && Xor(10, 6) == 12
      && Xor(13, 6) == 11
      && Xor(15, 1) == 14
  {
  }

  /** One byte hashed: `x` and `y` are the last digits of the state, `high` and `low` those of the exclusive or. */
  lemma Round(h: u64, q: nat, x: nat, y: nat, b: byte, high: nat, low: nat, overflow: nat, next: u64)
    requires x < 0x10 && y < 0x10 && h == q * 0x100 + (x * 0x10 + y)
    requires Xor(x, b / 0x10) == high && Xor(y, b % 0x10) == low
    requires (q * 0x100 + (high * 0x10 + low)) * PRIME == overflow * U64_COUNT + next
    ensures Extended(h, [b]) == next
  {
    hide *;
    XorOfLowByte(q, x * 0x10 + y, b);
    XorOfDigits(x, y, b);
    HashOne(h, b);
    ModUnique(Xor(h, b) * PRIME, next, overflow);
  }

  lemma HashOne(h: u64, b: byte)
    ensures Extended(h, [b]) == Xor(h, b) * PRIME % U64_COUNT
  {
    assert [b][..0] == [];
  }

  lemma HashSix(h: u64, a: byte, b: byte, c: byte, d: byte, e: byte, f: byte)
    ensures Extended(h, [a, b, c, d, e, f])
         == Extended(Extended(Extended(Extended(Extended(Extended(h, [a]), [b]), [c]), [d]), [e]), [f])
  {
    ExtendedConcat(h, [a], [b]);
    ExtendedConcat(h, [a, b], [c]);
    ExtendedConcat(h, [a, b, c], [d]);
    ExtendedConcat(h, [a, b, c, d], [e]);
    ExtendedConcat(h, [a, b, c, d, e], [f]);
    hide Extended;
    assert [a] + [b] == [a, b] && [a, b] + [c] == [a, b, c] && [a, b, c] + [d] == [a, b, c, d];
    assert [a, b, c, d] + [e] == [a, b, c, d, e] && [a, b, c, d, e] + [f] == [a, b, c, d, e, f];
  }

  function Pow256(k: nat): nat {
    if k == 0 then 1 else 0x100 * Pow256(k - 1)
  }

  /** The `k` low bytes of `n`, least significant first. */
  function LowBytes(n: nat, k: nat): (r: seq<byte>)
    ensures |r| == k
  {
    if k == 0 then [] else [n % 0x100] + LowBytes(n / 0x100, k - 1)
  }

  /** `u64::to_le_bytes`. */
  function LittleEndian(n: u64): (r: seq<byte>)
    ensures |r| == 8
  {
    LowBytes(n, 8)
  }

  /** The number that bytes denote, least significant first. */
  function Denoted(s: seq<byte>): nat {
    if s == [] then 0 else s[0] + 0x100 * Denoted(s[1..])
  }

  lemma {:induction false} LowBytesDenote(n: nat, k: nat)
    requires n < Pow256(k)
    ensures Denoted(LowBytes(n, k)) == n
    decreases k
  {
    if k > 0 {
      LowBytesDenote(n / 0x100, k - 1);
      assert LowBytes(n, k)[1..] == LowBytes(n / 0x100, k - 1);
    }
  }

  lemma LittleEndianDenotes(n: u64)
    ensures Denoted(LittleEndian(n)) == n
  {
    assert Pow256(8) == U64_COUNT;
    hide LowBytes, Denoted;
    LowBytesDenote(n, 8);
  }

  lemma LittleEndianInjective(m: u64, n: u64)
    requires LittleEndian(m) == LittleEndian(n)
    ensures m == n
  {
    LittleEndianDenotes(m);
    LittleEndianDenotes(n);
  }
}
