/**
  Fixed-width unsigned values and the C bit operators on them, defined bit by bit on natural
  numbers, with the facts that let masks, shifts and disjoint ORs be read as arithmetic.
 */
module Bytes {

  type u8 = x: int | 0 <= x < 0x100
  type u16 = x: int | 0 <= x < 0x1_0000
  type u32 = x: int | 0 <= x < 0x1_0000_0000

  const U32_MODULUS: nat := 0x1_0000_0000

  /** The cast to `u8`. */
  function ToByte(x: int): (b: u8)
    ensures 0 <= x < 0x100 ==> b == x
  {
    x % 0x100
  }

  function Pow2(k: nat): (p: nat)
    ensures p > 0
  {
    if k == 0 then 1 else 2 * Pow2(k - 1)
  }

  function Shl(x: nat, k: nat): nat
    decreases k
  {
    if k == 0 then x else 2 * Shl(x, k - 1)
  }

  function Shr(x: nat, k: nat): nat
    decreases k
  {
    if k == 0 then x else Shr(x / 2, k - 1)
  }

  function Or(x: nat, y: nat): (z: nat)
    decreases x + y
  {
    if x == 0 && y == 0 then 0
    else 2 * Or(x / 2, y / 2) + (if x % 2 == 1 || y % 2 == 1 then 1 else 0)
  }

  function And(x: nat, y: nat): (z: nat)
    decreases x
  {
    if x == 0 then 0
    else 2 * And(x / 2, y / 2) + (if x % 2 == 1 && y % 2 == 1 then 1 else 0)
  }

  function Xor(x: nat, y: nat): (z: nat)
    decreases x + y
  {
    if x == 0 && y == 0 then 0
    else 2 * Xor(x / 2, y / 2) + (x + y) % 2
  }

  /** Bit k of x, as the source reads it with `x >> k & 1`. */
  function Bit(x: nat, k: nat): nat {
    Shr(x, k) % 2
  }

  lemma {:induction false} BitOr(x: nat, y: nat, k: nat)
    ensures Bit(Or(x, y), k) == if Bit(x, k) == 1 || Bit(y, k) == 1 then 1 else 0
    decreases k
  {
    if k == 0 {
    } else if x == 0 && y == 0 {
      BitOr(0, 0, k - 1);
    } else {
      BitOr(x / 2, y / 2, k - 1);
    }
  }

  lemma {:induction false} BitShlOne(j: nat, k: nat)
    ensures Bit(Shl(1, j), k) == if j == k then 1 else 0
    decreases k
  {
    if k == 0 {
      assert Shl(1, j) % 2 == if j == 0 then 1 else 0;
    } else if j == 0 {
      BitZero(k - 1);
    } else {
      assert Shl(1, j) / 2 == Shl(1, j - 1);
      BitShlOne(j - 1, k - 1);
    }
  }

  lemma {:induction false} BitZero(k: nat)
    ensures Bit(0, k) == 0
    decreases k
  {
    if k != 0 {
      BitZero(k - 1);
    }
  }

  lemma {:induction false} BitAnd(x: nat, y: nat, k: nat)
    ensures Bit(And(x, y), k) == if Bit(x, k) == 1 && Bit(y, k) == 1 then 1 else 0
    decreases k
  {
    if x == 0 {
      BitZero(k);
    } else if k != 0 {
      BitAnd(x / 2, y / 2, k - 1);
    }
  }

  lemma ParityOfSum(x: nat, y: nat)
    ensures (x + y) % 2 == (x % 2 + y % 2) % 2
  {
  }

  lemma {:induction false} BitXor(x: nat, y: nat, k: nat)
    ensures Bit(Xor(x, y), k) == (Bit(x, k) + Bit(y, k)) % 2
    decreases k
  {
    hide Xor;
    XorHalves(x, y);
    if k == 0 {
      ParityOfSum(x, y);
    } else {
      BitXor(x / 2, y / 2, k - 1);
    }
  }

  lemma {:induction false} OrBound(x: nat, y: nat, k: nat)
    requires x < Pow2(k) && y < Pow2(k)
    ensures Or(x, y) < Pow2(k)
    decreases k
  {
    if k != 0 && (x != 0 || y != 0) {
      OrBound(x / 2, y / 2, k - 1);
    }
  }

  lemma {:induction false} ShlIsScaling(x: nat, k: nat)
    ensures Shl(x, k) == x * Pow2(k)
    decreases k
  {
    if k != 0 {
      ShlIsScaling(x, k - 1);
    }
  }

  /** An OR of operands with no common bit position is their sum. */
  lemma {:induction false} OrDisjoint(high: nat, low: nat, k: nat)
    requires low < Pow2(k)
    ensures Or(Shl(high, k), low) == Shl(high, k) + low
    decreases k
  {
    if k == 0 {
      OrZero(high);
    } else {
      OrDisjoint(high, low / 2, k - 1);
    }
  }

  lemma {:induction false} OrZero(x: nat)
    ensures Or(x, 0) == x
    decreases x
  {
    if x != 0 {
      OrZero(x / 2);
    }
  }

  lemma {:induction false} OrZeroLeft(x: nat)
    ensures Or(0, x) == x
    decreases x
  {
    if x != 0 {
      OrZeroLeft(x / 2);
    }
  }

  /** A mask of k low ones keeps the remainder modulo 2^k. */
  lemma {:induction false} AndLowMask(x: nat, k: nat)
    ensures And(x, Pow2(k) - 1) == x % Pow2(k)
    decreases k
  {
    if k == 0 {
      AndZero(x);
    } else if x != 0 {
      AndLowMask(x / 2, k - 1);
      assert (Pow2(k) - 1) / 2 == Pow2(k - 1) - 1;
      ModHalve(x, Pow2(k - 1));
    }
  }

  lemma LowBit(x: nat)
    ensures And(x, 1) == x % 2
  {
    assert Pow2(1) - 1 == 1;
    AndLowMask(x, 1);
  }

  lemma {:induction false} AndZero(x: nat)
    ensures And(x, 0) == 0
    decreases x
  {
    if x != 0 {
      AndZero(x / 2);
    }
  }

  lemma ModHalve(x: nat, m: nat)
    requires m > 0
    ensures x % (2 * m) == 2 * (x / 2 % m) + x % 2
  {
    var q, r := x / 2 / m, x / 2 % m;
    assert x / 2 == q * m + r;
    assert x == q * (2 * m) + (2 * r + x % 2);
    DivModUnique(x, 2 * m, q, 2 * r + x % 2);
  }

  lemma DivModUnique(x: int, m: int, q: int, r: int)
    requires 0 <= r < m && x == q * m + r
    ensures x / m == q && x % m == r
  {
    var q' := x / m;
    assert x == q' * m + x % m;
    assert (q - q') * m == x % m - r;
    assert (q' - q) * m == r - x % m;
    if q > q' {
      MulAtLeast(q - q', m);
    } else if q < q' {
      MulAtLeast(q' - q, m);
    }
  }

  lemma MulAtLeast(k: int, m: int)
    requires k >= 1 && m >= 0
    ensures k * m >= m
  {
    assert (k - 1) * m >= 0;
  }

  /** Common low zeros stay zero under a mask. */
  lemma {:induction false} AndShl(x: nat, y: nat, k: nat)
    ensures And(Shl(x, k), Shl(y, k)) == Shl(And(x, y), k)
    decreases k
  {
    if k != 0 {
      AndShl(x, y, k - 1);
    }
  }

  /** Shifting and masking a byte apart into its two nibbles. */
  lemma NibbleFields(val: u8)
    ensures And(Shl(val, 8), 0xf00) == val % 0x10 * 0x100
    ensures Shr(val, 4) == val / 0x10
  {
    assert Shl(0xf, 8) == 0xf00 && Pow2(4) == 0x10 && Pow2(8) == 0x100;
    AndShl(val, 0xf, 8);
    AndLowMask(val, 4);
    ShlIsScaling(val % 0x10, 8);
    assert Shr(val, 4) == val / 2 / 2 / 2 / 2;
  }

  lemma ShrByte(x: nat)
    ensures Shr(x, 8) == x / 0x100
  {
    assert Shr(x, 8) == Shr(x / 2 / 2 / 2 / 2, 4) == x / 2 / 2 / 2 / 2 / 2 / 2 / 2 / 2;
  }

  lemma {:induction false} ShrShr(x: nat, j: nat, k: nat)
    ensures Shr(x, j + k) == Shr(Shr(x, j), k)
    decreases j
  {
    if j != 0 {
      ShrShr(x / 2, j - 1, k);
    }
  }

  /** The bytes of a word, as shifts pick them out. */
  lemma ShrBytes(word: nat)
    ensures Shr(word, 8) == word / 0x100
    ensures Shr(word, 16) == word / 0x100 / 0x100
    ensures Shr(word, 24) == word / 0x100 / 0x100 / 0x100
  {
    ShrByte(word);
    ShrByte(word / 0x100);
    ShrByte(word / 0x100 / 0x100);
    ShrShr(word, 8, 8);
    ShrShr(word, 16, 8);
  }

  /** XOR on bytes; applying the same key twice changes nothing. */
  function XorByte(x: u8, key: u8): (y: u8) {
    XorBound(x, key, 8);
    Xor(x, key)
  }

  lemma {:induction false} XorBound(x: nat, y: nat, k: nat)
    requires x < Pow2(k) && y < Pow2(k)
    ensures Xor(x, y) < Pow2(k)
    decreases k
  {
    if k != 0 && (x != 0 || y != 0) {
      XorBound(x / 2, y / 2, k - 1);
    }
  }

  lemma {:induction false} XorZero(x: nat)
    ensures Xor(x, 0) == x
    decreases x
  {
    if x != 0 {
      XorZero(x / 2);
    }
  }

  lemma {:induction false} XorTwice(x: nat, key: nat)
    ensures Xor(Xor(x, key), key) == x
    decreases x + key
  {
    hide Xor;
    if x == 0 && key == 0 {
      XorZero(0);
    } else {
      var y := Xor(x, key);
      XorHalves(x, key);
      XorTwice(x / 2, key / 2);
      XorHalves(y, key);
      XorParity(x, key, y);
      Halves(Xor(y, key), x);
    }
  }

  lemma XorParity(x: nat, key: nat, y: nat)
    requires y % 2 == (x + key) % 2
    ensures (y + key) % 2 == x % 2
  {
  }

  lemma Halves(x: nat, y: nat)
    requires x / 2 == y / 2 && x % 2 == y % 2
    ensures x == y
  {
  }

  lemma XorHalves(x: nat, y: nat)
    ensures Xor(x, y) / 2 == Xor(x / 2, y / 2) && Xor(x, y) % 2 == (x + y) % 2
  {
  }

  // Big-endian and little-endian words, as `Bytes::Read`, `readU32` and `writeU32` lay them out.

  function BigEndian(bytes: seq<u8>): (word: u32)
    requires |bytes| == 4
  {
    bytes[0] as int * 0x100_0000 + bytes[1] as int * 0x1_0000 + bytes[2] as int * 0x100 + bytes[3] as int
  }

  function LittleEndian(bytes: seq<u8>): (word: u32)
    requires |bytes| == 4
  {
    bytes[3] as int * 0x100_0000 + bytes[2] as int * 0x1_0000 + bytes[1] as int * 0x100 + bytes[0] as int
  }

  function BigEndianBytes(word: u32): (bytes: seq<u8>)
    ensures |bytes| == 4
    ensures BigEndian(bytes) == word
  {
    var upper24: int := word / 0x100;
    var upper16 := upper24 / 0x100;
    [upper16 / 0x100, upper16 % 0x100, upper24 % 0x100, word % 0x100]
  }
}
