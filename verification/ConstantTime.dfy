/** The mask helpers of ssl/s3_cbc.c. An `unsigned int` is a number below 2^32;
    a mask of it is 0 or all ones, and a byte mask 0x00 or 0xff. */
module ConstantTime {
  type uint32 = x: int | 0 <= x < 0x1_0000_0000

  function Sub32(a: uint32, b: uint32): uint32 {
    if a >= b then a - b else a - b + 0x1_0000_0000
  }

  function Not32(a: uint32): uint32 { 0xffff_ffff - a }

  /** DUPLICATE_MSB_TO_ALL: the arithmetic shift by 31. */
  function DuplicateMsb(x: uint32): uint32 {
    if x >= 0x8000_0000 then 0xffff_ffff else 0
  }

  /** DUPLICATE_MSB_TO_ALL_8, and the conversion of a mask to `unsigned char`. */
  function DuplicateMsb8(x: uint32): bv8 {
    if x >= 0x8000_0000 then 0xff else 0
  }

  /** constant_time_lt: right exactly while the difference fits a signed int. */
  function ConstantTimeLt(a: uint32, b: uint32): (mask: uint32)
    ensures mask == 0 || mask == 0xffff_ffff
    ensures ((mask == 0xffff_ffff) == (a < b)) <==> -0x8000_0000 <= a - b < 0x8000_0000
  {
    DuplicateMsb(Sub32(a, b))
  }

  /** constant_time_ge: right exactly while the difference fits a signed int. */
  function ConstantTimeGe(a: uint32, b: uint32): (mask: uint32)
    ensures mask == 0 || mask == 0xffff_ffff
    ensures ((mask == 0xffff_ffff) == (a >= b)) <==> -0x8000_0000 <= a - b < 0x8000_0000
  {
    DuplicateMsb(Not32(Sub32(a, b)))
  }

  /** Bitwise exclusive or of two naturals. */
  function Xor(a: nat, b: nat): nat
    decreases a + b
  {
    if a == 0 && b == 0 then 0
    else (if a % 2 == b % 2 then 0 else 1) + 2 * Xor(a / 2, b / 2)
  }

  function Pow2(n: nat): (p: nat)
    ensures p >= 1
  {
    if n == 0 then 1 else 2 * Pow2(n - 1)
  }

  lemma {:induction false} XorZero(a: nat, b: nat)
    ensures Xor(a, b) == 0 <==> a == b
    decreases a + b
  {
    if a != 0 || b != 0 {
      XorZero(a / 2, b / 2);
    }
  }

  lemma {:induction false} XorBound(a: nat, b: nat, bits: nat)
    requires a < Pow2(bits) && b < Pow2(bits)
    ensures Xor(a, b) < Pow2(bits)
    decreases bits
  {
    if bits > 0 {
      XorBound(a / 2, b / 2, bits - 1);
    }
  }

  lemma Pow2Of31()
    ensures Pow2(31) == 0x8000_0000
  {
    assert Pow2(8) == 256;
    assert Pow2(16) == 0x1_0000;
    assert Pow2(24) == 0x100_0000;
  }

  lemma XorStep(a: nat, b: nat)
    ensures Xor(a, b) == (if a % 2 == b % 2 then 0 else 1) + 2 * Xor(a / 2, b / 2)
  {
  }

  /** A number with a bit above it. */
  function Topped(p: bool, top: nat, a: nat): nat { if p then top + a else a }

  lemma ToppedHalf(p: bool, half: nat, a: nat)
    ensures Topped(p, 2 * half, a) / 2 == Topped(p, half, a / 2) && Topped(p, 2 * half, a) % 2 == a % 2
  {
  }

  /** The top bits are compared apart from the others. */
  lemma {:induction false} XorTop(a: nat, b: nat, p: bool, q: bool, bits: nat)
    requires a < Pow2(bits) && b < Pow2(bits)
    ensures Xor(Topped(p, Pow2(bits), a), Topped(q, Pow2(bits), b)) == Topped(p != q, Pow2(bits), Xor(a, b))
    decreases bits
  {
    if bits == 0 {
      assert Xor(0, 0) == 0;
    } else {
      var half := Pow2(bits - 1);
      ToppedHalf(p, half, a);
      ToppedHalf(q, half, b);
      XorTop(a / 2, b / 2, p, q, bits - 1);
      XorStep(Topped(p, 2 * half, a), Topped(q, 2 * half, b));
      XorStep(a, b);
    }
  }

  /** The top bit and the rest of a word. */
  function Low31(a: uint32): nat { if a >= 0x8000_0000 then a - 0x8000_0000 else a }

  lemma XorOfWords(a: uint32, b: uint32)
    ensures Xor(Low31(a), Low31(b)) < 0x8000_0000 && (Xor(Low31(a), Low31(b)) == 0 <==> Low31(a) == Low31(b))
    ensures Xor(a, b) == (if (a >= 0x8000_0000) == (b >= 0x8000_0000) then 0 else 0x8000_0000) + Xor(Low31(a), Low31(b))
  {
    Pow2Of31();
    XorTop(Low31(a), Low31(b), a >= 0x8000_0000, b >= 0x8000_0000, 31);
    XorBound(Low31(a), Low31(b), 31);
    XorZero(Low31(a), Low31(b));
  }

  /** constant_time_eq_8: wrong exactly for words that differ in the top bit and elsewhere. */
  function ConstantTimeEq8(a: uint32, b: uint32): (mask: bv8)
    ensures mask == 0 || mask == 0xff
    ensures ((mask == 0xff) == (a == b)) <==> (a >= 0x8000_0000) == (b >= 0x8000_0000) || Low31(a) == Low31(b)
  {
    XorOfWords(a, b);
    Pow2Of31();
    assert Xor(a, b) < 0x1_0000_0000;
    DuplicateMsb8(Sub32(Xor(a, b), 1))
  }

  /** Two words more than 2^31 apart that every mask gets wrong: 0 does not count as less, and counts as greater and as equal. */
  lemma MasksFarApart()
    ensures var far: uint32 := 0x8000_0001;
            ConstantTimeLt(0, far) == 0 && ConstantTimeGe(0, far) == 0xffff_ffff && ConstantTimeEq8(0, far) == 0xff
  {
  }

  /** A 32-bit value ANDed with a mask. */
  function And32(x: uint32, mask: uint32): uint32
    requires mask == 0 || mask == 0xffff_ffff
  {
    if mask == 0 then 0 else x
  }

}
