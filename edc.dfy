/**
 * The error detection code (EDC) of a CD-ROM Mode 1 sector, clause 14 of
 * ECMA-130, as src/edc_ecc/edcre.rs computes it: a bit-mirroring helper, the
 * 256-entry CRC table for the polynomial 0x8001801B built by mirroring,
 * shifting and mirroring back, the byte-wise table-driven CRC, and the
 * little-endian store of that CRC after the user data.
 *
 * Every shift, mask and comparison on a 32-bit word is written once, as a
 * small named function below; loops and lemmas are stated in terms of those
 * names.
 */
module Edc {

  /** EDC_POLY: (x^16 + x^15 + x^2 + 1) * (x^16 + x^2 + x + 1). */
  const EdcPoly: bv32 := 0x8001801B

  /** Offset of the four EDC bytes in a Mode 1 sector; the CRC covers all
      bytes before it (sync, header and user data). */
  const EdcOffset := 2064

  // ---------------------------------------------------------------------
  // 32-bit word operations (u32 semantics: shifted-out bits are lost)
  // ---------------------------------------------------------------------

  function Shl1(x: bv32): bv32 { x << 1 }
  function Shr1(x: bv32): bv32 { x >> 1 }
  function Shl24(x: bv32): bv32 { x << 24 }
  function Shr8(x: bv32): bv32 { x >> 8 }
  function SetLow(x: bv32): bv32 { x | 1 }
  /** Bit 0 is set. */
  predicate Odd(x: bv32) { x & 1 != 0 }
  /** Bit 31 is set. */
  predicate Top(x: bv32) { x & 0x8000_0000 != 0 }
  /** x and the mask p share a set bit. */
  predicate Has(x: bv32, p: bv32) { x & p != 0 }
  /** Unsigned comparison. */
  predicate AtMost(a: bv32, b: bv32) { a <= b }

  // ---------------------------------------------------------------------
  // mirror_bits
  // ---------------------------------------------------------------------

  /** The value of d after t rounds of mirror_bits: shifted right t times. */
  function MirrorRest(d: bv32, t: nat): bv32
  {
    if t == 0 then d else Shr1(MirrorRest(d, t - 1))
  }

  /** The result register of mirror_bits after t rounds: shift left, then
      append the lowest remaining bit of d. */
  function Mirror(d: bv32, t: nat): bv32
  {
    if t == 0 then 0
    else if Odd(MirrorRest(d, t - 1)) then SetLow(Shl1(Mirror(d, t - 1)))
    else Shl1(Mirror(d, t - 1))
  }

  /** mirror_bits: the lowest `bits` bits of d in reverse order. */
  method MirrorBits(d: bv32, bits: nat) returns (r: bv32)
    ensures r == Mirror(d, bits)
  {
    r := 0;
    var x := d;
    for i := 0 to bits
      invariant r == Mirror(d, i)
      invariant x == MirrorRest(d, i)
    {
      r := Shl1(r);
      if Odd(x) {
        r := SetLow(r);
      }
      x := Shr1(x);
    }
  }

  /** Bit k of x (false from bit 32 on). */
  predicate Bit(x: bv32, k: nat)
  {
    if k == 0 then Odd(x) else Bit(Shr1(x), k - 1)
  }

  /** The single-bit mask of bit t (0 from t = 32 on). */
  function Pow(t: nat): bv32
  {
    if t == 0 then 1 else Shl1(Pow(t - 1))
  }

  lemma {:induction false} RestCommute(d: bv32, t: nat)
    ensures MirrorRest(Shr1(d), t) == MirrorRest(d, t + 1)
  {
    if t > 0 {
      RestCommute(d, t - 1);
    }
  }

  /** Bit k of d is the low bit of what is left of d after k rounds. */
  lemma {:induction false} RestBit(d: bv32, k: nat)
    ensures Bit(d, k) == Odd(MirrorRest(d, k))
  {
    if k > 0 {
      RestBit(Shr1(d), k - 1);
      RestCommute(d, k - 1);
    }
  }

  lemma ShrMask(x: bv32, p: bv32)
    ensures Has(Shr1(x), p) == Has(x, Shl1(p))
  {
  }

  lemma {:induction false} RestMask(x: bv32, t: nat)
    ensures Odd(MirrorRest(x, t)) == Has(x, Pow(t))
  {
    if t > 0 {
      RestMask(Shr1(x), t - 1);
      RestCommute(x, t - 1);
      ShrMask(x, Pow(t - 1));
    }
  }

  lemma PowTop()
    ensures Pow(31) == 0x8000_0000
  {
    assert Pow(4) == 0x10;
    assert Pow(8) == 0x100;
    assert Pow(12) == 0x1000;
    assert Pow(16) == 0x1_0000;
    assert Pow(20) == 0x10_0000;
    assert Pow(24) == 0x100_0000;
    assert Pow(28) == 0x1000_0000;
  }

  lemma TopIsBit31(x: bv32)
    ensures Bit(x, 31) == Top(x)
  {
    RestBit(x, 31);
    RestMask(x, 31);
    PowTop();
  }

  /** Shifting left a word whose bit 31 is clear loses nothing. */
  lemma ShlBits(m: bv32)
    requires !Top(m)
    ensures Shr1(Shl1(m)) == m && Shr1(SetLow(Shl1(m))) == m
    ensures !Odd(Shl1(m)) && Odd(SetLow(Shl1(m)))
  {
  }

  lemma {:induction false} ZeroBits(k: nat)
    ensures !Bit(0, k)
  {
    if k > 0 {
      assert Shr1(0) == 0;
      ZeroBits(k - 1);
    }
  }

  /** mirror_bits(d, n) for n <= 32: bit k of the result is bit n-1-k of d,
      and bits n..31 are clear, so the result is below 2^n. */
  lemma {:induction false} MirrorReverses(d: bv32, n: nat)
    requires n <= 32
    ensures forall k: nat :: k < n ==> Bit(Mirror(d, n), k) == Bit(d, n - 1 - k)
    ensures forall k: nat :: n <= k < 32 ==> !Bit(Mirror(d, n), k)
  {
    if n == 0 {
      forall k: nat { ZeroBits(k); }
    } else {
      var m := Mirror(d, n - 1);
      MirrorReverses(d, n - 1);
      TopIsBit31(m);
      ShlBits(m);
      var y := Mirror(d, n);
      forall k: nat | k < 32
        ensures Bit(y, k) == (k < n && Bit(d, n - 1 - k))
      {
        if k == 0 {
          RestBit(d, n - 1);
        } else {
          assert Bit(y, k) == Bit(m, k - 1);
        }
      }
    }
  }

  lemma BitsAgreeStep(a: bv32, b: bv32)
    requires Odd(a) == Odd(b)
    requires Shr1(a) == Shr1(b)
    ensures a == b
  {
  }

  lemma ShiftedAgree(a: bv32, b: bv32, n: nat)
    requires n > 0
    requires forall k: nat :: k < n ==> Bit(a, k) == Bit(b, k)
    ensures forall k: nat :: k < n - 1 ==> Bit(Shr1(a), k) == Bit(Shr1(b), k)
  {
    forall k: nat | k < n - 1
      ensures Bit(Shr1(a), k) == Bit(Shr1(b), k)
    {
      assert Bit(a, k + 1) == Bit(b, k + 1);
    }
  }

  /** Words that agree on bits 0..n-1 and on what is left after n shifts
      are equal. */
  lemma {:induction false} BitsAgree(a: bv32, b: bv32, n: nat)
    requires forall k: nat :: k < n ==> Bit(a, k) == Bit(b, k)
    requires MirrorRest(a, n) == MirrorRest(b, n)
    ensures a == b
  {
    if n > 0 {
      ShiftedAgree(a, b, n);
      RestCommute(a, n - 1);
      RestCommute(b, n - 1);
      BitsAgree(Shr1(a), Shr1(b), n - 1);
      assert Bit(a, 0) == Bit(b, 0);
      BitsAgreeStep(a, b);
    }
  }

  lemma ShrMono(a: bv32, b: bv32)
    requires AtMost(a, b)
    ensures AtMost(Shr1(a), Shr1(b))
  {
  }

  lemma ZeroBelow(a: bv32)
    requires AtMost(a, 0)
    ensures a == 0 && !Odd(a)
  {
  }

  lemma {:induction false} RestMono(a: bv32, b: bv32, n: nat)
    requires AtMost(a, b)
    ensures AtMost(MirrorRest(a, n), MirrorRest(b, n))
  {
    if n > 0 {
      RestMono(a, b, n - 1);
      ShrMono(MirrorRest(a, n - 1), MirrorRest(b, n - 1));
    }
  }

  lemma {:induction false} RestStaysZero(c: bv32, n: nat, k: nat)
    requires n <= k && MirrorRest(c, n) == 0
    ensures MirrorRest(c, k) == 0
  {
    if k > n {
      RestStaysZero(c, n, k - 1);
      assert Shr1(0) == 0;
    }
  }

  lemma RestAllOnes()
    ensures MirrorRest(0xFFFF_FFFF, 32) == 0
  {
    assert MirrorRest(0xFFFF_FFFF, 4) == 0x0FFF_FFFF;
    assert MirrorRest(0xFFFF_FFFF, 8) == 0x00FF_FFFF;
    assert MirrorRest(0xFFFF_FFFF, 12) == 0x000F_FFFF;
    assert MirrorRest(0xFFFF_FFFF, 16) == 0x0000_FFFF;
    assert MirrorRest(0xFFFF_FFFF, 20) == 0x0000_0FFF;
    assert MirrorRest(0xFFFF_FFFF, 24) == 0x0000_00FF;
    assert MirrorRest(0xFFFF_FFFF, 28) == 0x0000_000F;
  }

  /** Two words with the same 32 bits are equal. */
  lemma Extensionality(a: bv32, b: bv32)
    requires forall k: nat :: k < 32 ==> Bit(a, k) == Bit(b, k)
    ensures a == b
  {
    RestAllOnes();
    RestMono(a, 0xFFFF_FFFF, 32);
    RestMono(b, 0xFFFF_FFFF, 32);
    ZeroBelow(MirrorRest(a, 32));
    ZeroBelow(MirrorRest(b, 32));
    BitsAgree(a, b, 32);
  }

  /** A value below 256 has no bits at positions 8 and up. */
  lemma ByteHighBits(x: bv32, k: nat)
    requires x <= 0xFF && 8 <= k
    ensures !Bit(x, k)
  {
    assert MirrorRest(0xFF, 4) == 0x0F;
    assert MirrorRest(0xFF, 8) == 0;
    RestStaysZero(0xFF, 8, k);
    RestMono(x, 0xFF, k);
    ZeroBelow(MirrorRest(x, k));
    RestBit(x, k);
  }

  /** Mirroring an 8-bit value twice gives it back. */
  lemma MirrorTwice8(x: bv32)
    requires x <= 0xFF
    ensures Mirror(Mirror(x, 8), 8) == x
  {
    var y := Mirror(x, 8);
    MirrorReverses(x, 8);
    MirrorReverses(y, 8);
    forall k: nat | k < 32
      ensures Bit(Mirror(y, 8), k) == Bit(x, k)
    {
      if 8 <= k {
        ByteHighBits(x, k);
      }
    }
    Extensionality(Mirror(y, 8), x);
  }

  /** Mirroring 0 gives 0, for any count. */
  lemma {:induction false} MirrorZero(t: nat)
    ensures Mirror(0, t) == 0 && MirrorRest(0, t) == 0
  {
    if t > 0 {
      MirrorZero(t - 1);
      assert Shr1(0) == 0 && Shl1(0) == 0;
    }
  }

  // ---------------------------------------------------------------------
  // init_crc_table
  // ---------------------------------------------------------------------

  /** One round of polynomial division: shift left, and xor in the
      polynomial when the bit shifted out was set. */
  function CrcRound(r: bv32): bv32 {
    if Top(r) then Shl1(r) ^ EdcPoly else Shl1(r)
  }

  /** t rounds of CrcRound. */
  function CrcRounds(r: bv32, t: nat): bv32 {
    if t == 0 then r else CrcRound(CrcRounds(r, t - 1))
  }

  /** The CRC table entry for byte value i: mirror i into the top byte,
      divide by the polynomial for eight bits, mirror the 32-bit remainder
      back. */
  function CrcEntry(i: bv32): bv32 {
    Mirror(CrcRounds(Shl24(Mirror(i, 8)), 8), 32)
  }

  /** The 32-bit word of a table index below 256 (`i as u32`), built by
      counting so that no int-to-bit-vector conversion is needed. */
  function ToWord(i: int): bv32
    requires 0 <= i < 256
  {
    if i == 0 then 0 else ToWord(i - 1) + 1
  }

  /** ToWord is `i as u32`. */
  lemma {:induction false} ToWordValue(i: int)
    requires 0 <= i < 256
    ensures ToWord(i) as int == i
  {
    if i > 0 {
      ToWordValue(i - 1);
    }
  }

  /** The 256-entry reflected CRC table. */
  function CrcTable(): (t: seq<bv32>)
    ensures |t| == 256
  {
    seq(256, i requires 0 <= i < 256 => CrcEntry(ToWord(i)))
  }

  /** The eight division rounds of one entry, as the inner loop of
      init_crc_table does them. */
  method DivideRounds(start: bv32) returns (r: bv32)
    ensures r == CrcRounds(start, 8)
  {
    r := start;
    for k := 0 to 8
      invariant r == CrcRounds(start, k)
    {
      if Top(r) {
        r := Shl1(r);
        r := r ^ EdcPoly;
      } else {
        r := Shl1(r);
      }
    }
  }

  /** The first n entries of s are those of the CRC table. */
  ghost predicate CrcFilled(s: seq<bv32>, n: int)
    requires |s| == 256 && 0 <= n <= 256
  {
    forall j :: 0 <= j < n ==> s[j] == CrcTable()[j]
  }

  lemma CrcFillStep(s: seq<bv32>, i: int, v: bv32)
    requires |s| == 256 && 0 <= i < 256 && CrcFilled(s, i)
    requires v == CrcEntry(ToWord(i))
    ensures CrcFilled(s[i := v], i + 1)
  {
  }

  lemma CrcFillDone(s: seq<bv32>)
    requires |s| == 256 && CrcFilled(s, 256)
    ensures s == CrcTable()
  {
  }

  /** The body of the init_crc_table loop for byte i: mirror it into the top
      byte, run the eight division rounds and mirror the word back. */
  method ComputeEntry(i: bv32) returns (r: bv32)
    ensures r == CrcEntry(i)
  {
    r := MirrorBits(i, 8);
    r := Shl24(r);
    r := DivideRounds(r);
    r := MirrorBits(r, 32);
  }

  /** init_crc_table: fills each entry by mirroring, eight division rounds
      and mirroring back. */
  method InitCrcTable() returns (table: seq<bv32>)
    ensures table == CrcTable()
  {
    var t := new bv32[256](_ => 0);
    for i := 0 to 256
      invariant CrcFilled(t[..], i)
    {
      var r := ComputeEntry(ToWord(i));
      CrcFillStep(t[..], i, r);
      t[i] := r;
    }
    table := t[..];
    CrcFillDone(table);
  }

  /** The division rounds keep 0 at 0. */
  lemma {:induction false} CrcRoundsZero(t: nat)
    ensures CrcRounds(0, t) == 0
  {
    if t > 0 {
      CrcRoundsZero(t - 1);
      assert Shl1(0) == 0;
    }
  }

  /** The table entry of byte 0 is 0. */
  lemma CrcTableZero()
    ensures CrcTable()[0] == 0
  {
    MirrorZero(8);
    assert Shl24(0) == 0;
    CrcRoundsZero(8);
    MirrorZero(32);
  }

  // ---------------------------------------------------------------------
  // The table as a reflected CRC
  // ---------------------------------------------------------------------

  /** The polynomial with its 32 bits reversed, the divisor of the
      LSB-first form of the CRC. */
  const ReflectedPoly: bv32 := 0xD8018001

  /** One LSB-first round: shift right, and xor in the reversed polynomial
      when the bit shifted out was set. */
  function ReflectedRound(c: bv32): bv32 {
    if Odd(c) then Xor32(Shr1(c), ReflectedPoly) else Shr1(c)
  }

  /** t rounds of ReflectedRound. */
  function ReflectedRounds(c: bv32, t: nat): bv32 {
    if t == 0 then c else ReflectedRound(ReflectedRounds(c, t - 1))
  }

  /** n shifts left by one. */
  function ShlN(x: bv32, n: nat): bv32 {
    if n == 0 then x else Shl1(ShlN(x, n - 1))
  }

  lemma {:induction false} ShlNAdd(x: bv32, a: nat, b: nat)
    ensures ShlN(x, a + b) == ShlN(ShlN(x, a), b)
    decreases b
  {
    if b > 0 {
      ShlNAdd(x, a, b - 1);
    }
  }

  lemma FourShifts(x: bv32)
    ensures Shl1(Shl1(Shl1(Shl1(x)))) == x << 4
  {
  }

  lemma ShlN4(x: bv32)
    ensures ShlN(x, 4) == x << 4
  {
    assert ShlN(x, 1) == Shl1(x);
    assert ShlN(x, 2) == Shl1(Shl1(x));
    assert ShlN(x, 4) == Shl1(Shl1(ShlN(x, 2)));
    FourShifts(x);
  }

  /** Twenty-four single shifts are the shift by 24. */
  lemma ShlN24(x: bv32)
    ensures ShlN(x, 24) == Shl24(x)
  {
    var y4 := ShlN(x, 4);
    ShlN4(x);
    ShlNAdd(x, 4, 4);
    ShlN4(y4);
    var y8 := ShlN(x, 8);
    ShlNAdd(x, 8, 4);
    ShlN4(y8);
    var y12 := ShlN(x, 12);
    ShlNAdd(x, 12, 4);
    ShlN4(y12);
    var y16 := ShlN(x, 16);
    ShlNAdd(x, 16, 4);
    ShlN4(y16);
    var y20 := ShlN(x, 20);
    ShlNAdd(x, 20, 4);
    ShlN4(y20);
  }

  /** The bitwise exclusive or of two words. */
  function Xor32(a: bv32, b: bv32): bv32 { a ^ b }

  lemma XorLow(a: bv32, b: bv32)
    ensures Odd(Xor32(a, b)) == (Odd(a) != Odd(b))
  {
  }

  lemma XorShr(a: bv32, b: bv32)
    ensures Shr1(Xor32(a, b)) == Xor32(Shr1(a), Shr1(b))
  {
  }

  lemma {:induction false} RestXor(a: bv32, b: bv32, t: nat)
    ensures MirrorRest(Xor32(a, b), t) == Xor32(MirrorRest(a, t), MirrorRest(b, t))
  {
    if t > 0 {
      RestXor(a, b, t - 1);
      XorShr(MirrorRest(a, t - 1), MirrorRest(b, t - 1));
    }
  }

  /** Bit k of a ^ b is the exclusive or of the bits. */
  lemma BitXor(a: bv32, b: bv32, k: nat)
    ensures Bit(Xor32(a, b), k) == (Bit(a, k) != Bit(b, k))
  {
    RestXor(a, b, k);
    RestBit(Xor32(a, b), k);
    RestBit(a, k);
    RestBit(b, k);
    XorLow(MirrorRest(a, k), MirrorRest(b, k));
  }

  /** A word has no bit 32. */
  lemma NoBit32(x: bv32)
    ensures !Bit(x, 32)
  {
    RestAllOnes();
    RestMono(x, 0xFFFF_FFFF, 32);
    ZeroBelow(MirrorRest(x, 32));
    RestBit(x, 32);
  }

  /** Mirroring 1 over t bits sets bit t - 1 only. */
  lemma {:induction false} MirrorOne(t: nat)
    requires 1 <= t
    ensures Mirror(1, t) == Pow(t - 1)
  {
    if t > 1 {
      MirrorOne(t - 1);
      assert MirrorRest(1, 1) == 0;
      RestStaysZero(1, 1, t - 1);
    } else {
      assert Shl1(0) == 0;
    }
  }

  /** 0x8000_0000 has no bit below 31. */
  lemma TopOnly(j: nat)
    requires j < 31
    ensures !Bit(0x8000_0000, j)
  {
    MirrorOne(32);
    PowTop();
    MirrorReverses(1, 32);
    assert Bit(1, 31 - j) == Bit(0, 30 - j);
    ZeroBits(30 - j);
  }

  function ClearTop(r: bv32): bv32 { r & 0x7FFF_FFFF }

  lemma ClearTopShl(r: bv32)
    ensures Shl1(r) == Shl1(ClearTop(r))
  {
  }

  lemma ClearTopShr(r: bv32)
    ensures Shr1(Shl1(ClearTop(r))) == ClearTop(r)
  {
  }

  lemma ClearTopXor(r: bv32)
    ensures r == ClearTop(r) || r == Xor32(ClearTop(r), 0x8000_0000)
  {
  }

  /** Shifting left moves every bit up by one. */
  lemma BitShl(r: bv32, k: nat)
    requires 0 < k < 32
    ensures Bit(Shl1(r), k) == Bit(r, k - 1)
  {
    var low := ClearTop(r);
    ClearTopShl(r);
    ClearTopShr(r);
    ClearTopXor(r);
    BitXor(low, 0x8000_0000, k - 1);
    TopOnly(k - 1);
  }

  /** The reversed polynomial is EdcPoly mirrored over 32 bits. */
  lemma MirrorPoly()
    ensures Mirror(EdcPoly, 32) == ReflectedPoly
  {
    assert MirrorRest(EdcPoly, 4) == 0x0800_1801 && Mirror(EdcPoly, 4) == 0xD;
    assert MirrorRest(EdcPoly, 8) == 0x0080_0180 && Mirror(EdcPoly, 8) == 0xD8;
    assert MirrorRest(EdcPoly, 12) == 0x0008_0018 && Mirror(EdcPoly, 12) == 0xD80;
    assert MirrorRest(EdcPoly, 16) == 0x0000_8001 && Mirror(EdcPoly, 16) == 0xD801;
    assert MirrorRest(EdcPoly, 20) == 0x0000_0800 && Mirror(EdcPoly, 20) == 0xD_8018;
    assert MirrorRest(EdcPoly, 24) == 0x0000_0080 && Mirror(EdcPoly, 24) == 0xD8_0180;
    assert MirrorRest(EdcPoly, 28) == 0x0000_0008 && Mirror(EdcPoly, 28) == 0xD80_1800;
  }

  /** Mirroring over 32 bits turns an MSB-first division round into an
      LSB-first one with the reversed polynomial. */
  lemma MirrorRound(r: bv32)
    ensures Mirror(CrcRound(r), 32) == ReflectedRound(Mirror(r, 32))
  {
    var c := Mirror(r, 32);
    var lhs := Mirror(CrcRound(r), 32);
    var rhs := ReflectedRound(c);
    MirrorReverses(r, 32);
    MirrorReverses(CrcRound(r), 32);
    MirrorReverses(EdcPoly, 32);
    MirrorPoly();
    TopIsBit31(r);
    assert Bit(c, 0) == Bit(r, 31);
    assert Odd(c) == Top(r);
    assert Top(r) ==> CrcRound(r) == Xor32(Shl1(r), EdcPoly);
    forall k: nat | k < 32
      ensures Bit(lhs, k) == Bit(rhs, k)
    {
      var m := 31 - k;
      BitXor(Shl1(r), EdcPoly, m);
      BitXor(Shr1(c), ReflectedPoly, k);
      assert Bit(Shr1(c), k) == Bit(c, k + 1);
      if m > 0 {
        BitShl(r, m);
      } else {
        NoBit32(c);
      }
    }
    Extensionality(lhs, rhs);
  }

  lemma {:induction false} MirrorRounds(s: bv32, t: nat)
    ensures Mirror(CrcRounds(s, t), 32) == ReflectedRounds(Mirror(s, 32), t)
  {
    if t > 0 {
      MirrorRounds(s, t - 1);
      MirrorRound(CrcRounds(s, t - 1));
    }
  }

  /** Mirroring over 32 bits twice gives the word back. */
  lemma MirrorTwice32(x: bv32)
    ensures Mirror(Mirror(x, 32), 32) == x
  {
    var y := Mirror(x, 32);
    MirrorReverses(x, 32);
    MirrorReverses(y, 32);
    Extensionality(Mirror(y, 32), x);
  }

  /** For a byte, mirroring over 32 bits adds n zero bits after the 8
      mirrored ones. */
  lemma {:induction false} MirrorPad(d: bv32, n: nat)
    requires d <= 0xFF
    ensures Mirror(d, 8 + n) == ShlN(Mirror(d, 8), n)
  {
    if n > 0 {
      MirrorPad(d, n - 1);
      RestBit(d, 7 + n);
      ByteHighBits(d, 7 + n);
    }
  }

  /** For a byte, the mirror into the top byte of init_crc_table is the
      32-bit mirror, so mirroring the start word back gives the byte. */
  lemma StartWord(i: bv32)
    requires i <= 0xFF
    ensures Shl24(Mirror(i, 8)) == Mirror(i, 32)
    ensures Mirror(Shl24(Mirror(i, 8)), 32) == i
  {
    MirrorPad(i, 24);
    ShlN24(Mirror(i, 8));
    MirrorTwice32(i);
  }

  /** init_crc_table builds the reflected CRC table of 0x8001801B: entry i
      is eight LSB-first rounds with 0xD8018001 starting from i. */
  lemma CrcTableReflected(i: int)
    requires 0 <= i < 256
    ensures CrcTable()[i] == ReflectedRounds(ToWord(i), 8)
  {
    var w := ToWord(i);
    ToWordValue(i);
    assert w <= 0xFF;
    StartWord(w);
    MirrorRounds(Shl24(Mirror(w, 8)), 8);
  }

  // ---------------------------------------------------------------------
  // calc_edc
  // ---------------------------------------------------------------------

  /** The table index of one calc_edc step: the low byte of crc ^ b. */
  function EdcIndex(crc: bv32, b: bv8): (k: int)
    ensures 0 <= k < 256
  {
    ((crc ^ b as bv32) & 0xff) as int
  }

  /** One byte of calc_edc: look up the low byte of crc ^ b and xor in the
      CRC shifted down by eight. */
  function EdcStep(table: seq<bv32>, crc: bv32, b: bv8): bv32
    requires |table| == 256
  {
    table[EdcIndex(crc, b)] ^ Shr8(crc)
  }

  /** The CRC after feeding data into a register holding crc. */
  function EdcFrom(table: seq<bv32>, crc: bv32, data: seq<bv8>): bv32
    requires |table| == 256
    decreases |data|
  {
    if |data| == 0 then crc else EdcFrom(table, EdcStep(table, crc, data[0]), data[1..])
  }

  /** The EDC of data: the CRC from a zero register. */
  function Edc(table: seq<bv32>, data: seq<bv8>): bv32
    requires |table| == 256
  {
    EdcFrom(table, 0, data)
  }

  /** calc_edc: the byte-wise table-driven CRC of data. */
  method CalcEdc(table: seq<bv32>, data: seq<bv8>) returns (crc: bv32)
    requires |table| == 256
    ensures crc == Edc(table, data)
  {
    crc := 0;
    for i := 0 to |data|
      invariant EdcFrom(table, crc, data[i..]) == Edc(table, data)
    {
      assert data[i..][1..] == data[i + 1..];
      crc := table[EdcIndex(crc, data[i])] ^ Shr8(crc);
    }
    assert data[|data|..] == [];
  }

  /** Feeding a + b is feeding a, then b. */
  lemma {:induction false} EdcFromAppend(table: seq<bv32>, crc: bv32, a: seq<bv8>, b: seq<bv8>)
    requires |table| == 256
    ensures EdcFrom(table, crc, a + b) == EdcFrom(table, EdcFrom(table, crc, a), b)
    decreases |a|
  {
    if |a| > 0 {
      assert (a + b)[1..] == a[1..] + b;
      EdcFromAppend(table, EdcStep(table, crc, a[0]), a[1..], b);
    } else {
      assert a + b == b;
    }
  }

  /** calc_edc extends byte by byte: the EDC of s ++ [b] is one table step
      from the EDC of s. */
  lemma EdcSnoc(table: seq<bv32>, s: seq<bv8>, b: bv8)
    requires |table| == 256
    ensures Edc(table, s + [b]) == EdcStep(table, Edc(table, s), b)
  {
    EdcFromAppend(table, 0, s, [b]);
    assert [b][1..] == [];
  }

  /** n zero bytes of input. */
  function Zeros(n: nat): (z: seq<bv8>)
    ensures |z| == n && forall i :: 0 <= i < n ==> z[i] == 0
  {
    seq(n, _ => 0)
  }

  /** With table[0] == 0, zero bytes keep a zero register at zero. */
  lemma {:induction false} EdcFromZeros(table: seq<bv32>, data: seq<bv8>)
    requires |table| == 256 && table[0] == 0
    requires forall i :: 0 <= i < |data| ==> data[i] == 0
    ensures EdcFrom(table, 0, data) == 0
    decreases |data|
  {
    if |data| > 0 {
      assert EdcIndex(0, 0) == 0 && Shr8(0) == 0;
      EdcFromZeros(table, data[1..]);
    }
  }

  /** The EDC of any number of zero bytes is 0. */
  lemma EdcOfZeros(n: nat)
    ensures Edc(CrcTable(), Zeros(n)) == 0
  {
    CrcTableZero();
    EdcFromZeros(CrcTable(), Zeros(n));
  }

  // ---------------------------------------------------------------------
  // calc_mode1_edc
  // ---------------------------------------------------------------------

  function Shr16(x: bv32): bv32 { x >> 16 }
  function Shr24(x: bv32): bv32 { x >> 24 }
  /** The low byte, `(x & 0xff) as u8`. */
  function LowByte(x: bv32): bv8 { (x & 0xff) as bv8 }

  /** A 32-bit word as four bytes, least significant first. */
  function Le32(x: bv32): (b: seq<bv8>)
    ensures |b| == 4
  {
    [LowByte(x), LowByte(Shr8(x)), LowByte(Shr16(x)), LowByte(Shr24(x))]
  }

  /** Four little-endian bytes read back as a 32-bit word. */
  function FromLe32(b: seq<bv8>): bv32
    requires |b| == 4
  {
    (b[0] as bv32) | ((b[1] as bv32) << 8) | ((b[2] as bv32) << 16) | ((b[3] as bv32) << 24)
  }

  /** The little-endian encoding loses nothing. */
  lemma Le32RoundTrip(x: bv32)
    ensures FromLe32(Le32(x)) == x
  {
  }

  /** The sector after calc_mode1_edc: bytes 2064..2067 hold the EDC of bytes
      0..2063, little-endian; every other byte is as before. */
  function WithMode1Edc(table: seq<bv32>, s: seq<bv8>): seq<bv8>
    requires |table| == 256 && |s| >= EdcOffset + 4
  {
    s[..EdcOffset] + Le32(Edc(table, s[..EdcOffset])) + s[EdcOffset + 4..]
  }

  /** WithMode1Edc keeps the length, stores a word that reads back as the EDC
      of the first 2064 bytes, and changes no byte outside 2064..2067. */
  lemma WithMode1EdcLayout(table: seq<bv32>, s: seq<bv8>)
    requires |table| == 256 && |s| >= EdcOffset + 4
    ensures var r := WithMode1Edc(table, s);
      |r| == |s| &&
      FromLe32(r[EdcOffset..EdcOffset + 4]) == Edc(table, s[..EdcOffset]) &&
      (forall i :: 0 <= i < |s| && !(EdcOffset <= i < EdcOffset + 4) ==> r[i] == s[i])
  {
    var r := WithMode1Edc(table, s);
    assert r[EdcOffset..EdcOffset + 4] == Le32(Edc(table, s[..EdcOffset]));
    Le32RoundTrip(Edc(table, s[..EdcOffset]));
  }

  /** A sector whose EDC field already holds the EDC of its first 2064 bytes
      is left as it is. */
  lemma Mode1EdcFixed(table: seq<bv32>, s: seq<bv8>)
    requires |table| == 256 && |s| >= EdcOffset + 4
    requires s[EdcOffset..EdcOffset + 4] == Le32(Edc(table, s[..EdcOffset]))
    ensures WithMode1Edc(table, s) == s
  {
    assert s == s[..EdcOffset] + s[EdcOffset..EdcOffset + 4] + s[EdcOffset + 4..];
  }

  /** Four byte stores at 2064..2067 give the same sector as the splice. */
  lemma FourStores(s: seq<bv8>, w: seq<bv8>)
    requires |s| >= EdcOffset + 4 && |w| == 4
    ensures s[EdcOffset := w[0]][EdcOffset + 1 := w[1]][EdcOffset + 2 := w[2]][EdcOffset + 3 := w[3]]
      == s[..EdcOffset] + w + s[EdcOffset + 4..]
  {
  }

  /** calc_mode1_edc: compute the EDC of bytes 0..2063 and store it
      little-endian at 2064..2067. The source panics on a sector shorter than
      2068 bytes; here that is the precondition. */
  method CalcMode1Edc(table: seq<bv32>, sector: array<bv8>)
    requires |table| == 256 && sector.Length >= EdcOffset + 4
    modifies sector
    ensures sector[..] == WithMode1Edc(table, old(sector[..]))
  {
    ghost var s := sector[..];
    var crc := CalcEdc(table, sector[..EdcOffset]);
    FourStores(s, Le32(crc));
    sector[EdcOffset] := LowByte(crc);
    sector[EdcOffset + 1] := LowByte(Shr8(crc));
    sector[EdcOffset + 2] := LowByte(Shr16(crc));
    sector[EdcOffset + 3] := LowByte(Shr24(crc));
  }
}
