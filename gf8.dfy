/**
 * GF(2^8) arithmetic of the CD-ROM Mode 1 L-EC encoder (src/edc_ecc/edcre.rs):
 * the log and antilog tables for the primitive polynomial
 * x^8 + x^4 + x^3 + x^2 + 1 (0x11D), field addition, and the table-driven
 * field division used while the parity-coefficient table is built.
 */
module Gf8 {

  /** GF8_PRIM_POLY: x^8 + x^4 + x^3 + x^2 + 1. */
  const Gf8PrimPoly: bv16 := 0x11D

  /** The byte value of a loop index below 256 (the u8 loop variable of
      init_gf8_tables), built by counting so that no int-to-bit-vector
      conversion is needed. */
  function ToByte(k: int): (r: bv8)
    requires 0 <= k < 256
    ensures r as int == k
  {
    if k == 0 then 0 else ToByte(k - 1) + 1
  }

  /** A byte used as a table index (`b as usize`). */
  function Ix(b: bv8): (r: int)
    ensures 0 <= r < 256
  {
    b as int
  }

  /** ToByte undoes Ix. */
  lemma ToByteIx(b: bv8)
    ensures ToByte(Ix(b)) == b
  {
  }

  /** Ix undoes ToByte. */
  lemma IxToByte(k: int)
    requires 0 <= k < 256
    ensures Ix(ToByte(k)) == k
  {
  }

  /** Multiplication by the generator alpha = x: shift left and reduce by the
      primitive polynomial when bit 8 comes out. */
  function MulX(b: bv8): bv8 {
    if b & 0x80 != 0 then (b << 1) ^ 0x1D else b << 1
  }

  /** alpha^k: the value of `b` at the start of iteration k of init_gf8_tables. */
  function Exp(k: nat): (r: bv8)
    ensures r != 0
  {
    if k == 0 then 1 else MulX(Exp(k - 1))
  }

  lemma MulXInjective(x: bv8, y: bv8)
    requires MulX(x) == MulX(y)
    ensures x == y
  {
  }

  /** Equal powers cancel: alpha^i == alpha^j with i <= j gives alpha^(j - i) == 1. */
  lemma {:induction false} ExpCancel(i: nat, j: nat)
    requires i <= j && Exp(i) == Exp(j)
    ensures Exp(j - i) == 1
  {
    if i > 0 {
      MulXInjective(Exp(i - 1), Exp(j - 1));
      ExpCancel(i - 1, j - 1);
    }
  }

  /** None of alpha^k, ..., alpha^(n-1) equals 1. */
  ghost predicate NoUnitIn(k: nat, n: nat)
    decreases n - k
  {
    k >= n || (Exp(k) != 1 && NoUnitIn(k + 1, n))
  }

  lemma {:induction false} NoUnitInSound(k: nat, n: nat, d: nat)
    requires NoUnitIn(k, n) && k <= d < n
    ensures Exp(d) != 1
    decreases d - k
  {
    if k < d {
      NoUnitInSound(k + 1, n, d);
    }
  }

  /** The powers alpha^1 .. alpha^127, evaluated eight at a time: none is 1. */
  lemma LowerPowers()
    ensures Exp(128) == 0x85 && NoUnitIn(1, 128)
  {
    assert Exp(8) == 0x1D;
    assert Exp(16) == 0x4C;
    assert Exp(24) == 0x8F;
    assert Exp(32) == 0x9D;
    assert Exp(40) == 0x6A;
    assert Exp(48) == 0x46;
    assert Exp(56) == 0x5D;
    assert Exp(64) == 0x5F;
    assert Exp(72) == 0x65;
    assert Exp(80) == 0xFD;
    assert Exp(88) == 0xFE;
    assert Exp(96) == 0xD9;
    assert Exp(104) == 0x0D;
    assert Exp(112) == 0x81;
    assert Exp(120) == 0x3B;
    assert Exp(128) == 0x85;
    assert NoUnitIn(120, 128);
    assert NoUnitIn(112, 128);
    assert NoUnitIn(104, 128);
    assert NoUnitIn(96, 128);
    assert NoUnitIn(88, 128);
    assert NoUnitIn(80, 128);
    assert NoUnitIn(72, 128);
    assert NoUnitIn(64, 128);
    assert NoUnitIn(56, 128);
    assert NoUnitIn(48, 128);
    assert NoUnitIn(40, 128);
    assert NoUnitIn(32, 128);
    assert NoUnitIn(24, 128);
    assert NoUnitIn(16, 128);
    assert NoUnitIn(8, 128);
    assert NoUnitIn(1, 128);
  }

  /** The powers alpha^128 .. alpha^254 are not 1, and alpha^255 is. */
  lemma UpperPowers()
    ensures Exp(255) == 1 && NoUnitIn(128, 255)
  {
    LowerPowers();
    assert Exp(136) == 0x4F;
    assert Exp(144) == 0xA8;
    assert Exp(152) == 0x49;
    assert Exp(160) == 0xE6;
    assert Exp(168) == 0xFC;
    assert Exp(176) == 0xE3;
    assert Exp(184) == 0x95;
    assert Exp(192) == 0x82;
    assert Exp(200) == 0x1C;
    assert Exp(208) == 0x51;
    assert Exp(216) == 0xC3;
    assert Exp(224) == 0x12;
    assert Exp(232) == 0xF7;
    assert Exp(240) == 0x2C;
    assert Exp(248) == 0x1B;
    assert NoUnitIn(248, 255);
    assert NoUnitIn(240, 255);
    assert NoUnitIn(232, 255);
    assert NoUnitIn(224, 255);
    assert NoUnitIn(216, 255);
    assert NoUnitIn(208, 255);
    assert NoUnitIn(200, 255);
    assert NoUnitIn(192, 255);
    assert NoUnitIn(184, 255);
    assert NoUnitIn(176, 255);
    assert NoUnitIn(168, 255);
    assert NoUnitIn(160, 255);
    assert NoUnitIn(152, 255);
    assert NoUnitIn(144, 255);
    assert NoUnitIn(136, 255);
    assert NoUnitIn(128, 255);
  }

  /** alpha has multiplicative order 255, i.e. 0x11D is primitive. */
  lemma GeneratorOrder()
    ensures Exp(255) == 1
    ensures forall d :: 0 < d < 255 ==> Exp(d) != 1
  {
    LowerPowers();
    UpperPowers();
    forall d | 0 < d < 255
      ensures Exp(d) != 1
    {
      if d < 128 {
        NoUnitInSound(1, 128, d);
      } else {
        NoUnitInSound(128, 255, d);
      }
    }
  }

  /** The 255 powers alpha^0 .. alpha^254 are pairwise distinct. */
  lemma ExpInjective(i: nat, j: nat)
    requires i < 255 && j < 255 && Exp(i) == Exp(j)
    ensures i == j
  {
    GeneratorOrder();
    if i < j {
      ExpCancel(i, j);
    } else if j < i {
      ExpCancel(j, i);
    }
  }

  /** What init_gf8_tables has stored in log_table[x] after its first n
      iterations: the last k < n with alpha^k == x, or 0 when there is none. */
  ghost function LogUpTo(x: int, n: nat): (r: nat)
    ensures r == 0 || r < n
  {
    if n == 0 then 0 else if Exp(n - 1) as int == x then n - 1 else LogUpTo(x, n - 1)
  }

  /** The discrete logarithm of x: the k below 255 with alpha^k == x, or 0
      when there is none, which among the bytes is only the case for 0
      (ExpLogOf). */
  ghost function LogOf(x: int): (r: nat)
    ensures r < 255
  {
    if exists k :: 0 <= k < 255 && Exp(k) as int == x then
      var k :| 0 <= k < 255 && Exp(k) as int == x; k
    else
      0
  }

  /** The antilog table: ilog[k] = alpha^k for k < 255; entry 255 is never written. */
  ghost function IlogTable(): (t: seq<bv8>)
    ensures |t| == 256
  {
    seq(256, k requires 0 <= k < 256 => if k < 255 then Exp(k) else 0)
  }

  /** The log table: log[x] is the discrete logarithm of x. */
  ghost function LogTable(): (t: seq<bv8>)
    ensures |t| == 256
  {
    seq(256, x requires 0 <= x < 256 => ToByte(LogOf(x)))
  }

  lemma {:induction false} LogUpToPower(k: nat, n: nat)
    requires k < n <= 255
    ensures LogUpTo(Exp(k) as int, n) == k
    decreases n
  {
    if n - 1 != k {
      if Exp(n - 1) == Exp(k) {
        ExpInjective(n - 1, k);
      }
      LogUpToPower(k, n - 1);
    }
  }

  lemma {:induction false} LogUpToAbsent(x: int, n: nat)
    requires forall k :: 0 <= k < n ==> Exp(k) as int != x
    ensures LogUpTo(x, n) == 0
  {
    if n > 0 {
      LogUpToAbsent(x, n - 1);
    }
  }

  /** The discrete logarithm is the exponent of any power of alpha equal to x. */
  lemma LogOfIs(x: int, k: nat)
    requires k < 255 && Exp(k) as int == x
    ensures LogOf(x) == k
  {
    var j := LogOf(x);
    assert Exp(j) as int == x;
    ExpInjective(j, k);
  }

  /** After all 255 iterations the loop has stored the discrete logarithm. */
  lemma LogUpToIsLogOf(x: int)
    ensures LogUpTo(x, 255) == LogOf(x)
  {
    if exists k :: 0 <= k < 255 && Exp(k) as int == x {
      var k :| 0 <= k < 255 && Exp(k) as int == x;
      LogUpToPower(k, 255);
      LogOfIs(x, k);
    } else {
      LogUpToAbsent(x, 255);
    }
  }

  /** The values of the powers alpha^0 .. alpha^(n-1). */
  ghost function PowersBelow(n: nat): set<int>
  {
    set k: nat | k < n :: Exp(k) as int
  }

  /** The numbers 1 .. n-1. */
  ghost function PositiveBelow(n: nat): (r: set<int>)
    ensures forall y :: y in r <==> 1 <= y < n
  {
    if n <= 1 then {} else PositiveBelow(n - 1) + {n - 1}
  }

  /** The first n powers are n distinct values, for n <= 255. */
  lemma {:induction false} PowersBelowSize(n: nat)
    requires n <= 255
    ensures |PowersBelow(n)| == n
  {
    if n > 0 {
      PowersBelowSize(n - 1);
      PowersBelowStep(n);
      NewPower(n);
    }
  }

  lemma PowersBelowStep(n: nat)
    requires 0 < n
    ensures PowersBelow(n) == PowersBelow(n - 1) + {Exp(n - 1) as int}
  {
  }

  /** alpha^(n-1) is none of the powers before it, for n <= 255. */
  lemma NewPower(n: nat)
    requires 0 < n <= 255
    ensures Exp(n - 1) as int !in PowersBelow(n - 1)
  {
    if Exp(n - 1) as int in PowersBelow(n - 1) {
      var k: nat :| k < n - 1 && Exp(k) as int == Exp(n - 1) as int;
      ExpInjective(k, n - 1);
      assert false;
    }
  }

  lemma {:induction false} PositiveBelowSize(n: nat)
    requires 1 <= n
    ensures |PositiveBelow(n)| == n - 1
  {
    if n > 1 {
      PositiveBelowSize(n - 1);
    }
  }

  /** A set inside another of the same size is all of it. */
  lemma SameSizeSubset(a: set<int>, b: set<int>, x: int)
    requires a <= b && |a| == |b| && x in b
    ensures x in a
  {
    assert a + (b - a) == b;
    assert b - a == {};
  }

  /** Every nonzero byte is a power of alpha: the 255 distinct powers are
      nonzero bytes, and there are only 255 of those. */
  lemma PowersCoverBytes(x: int)
    requires 1 <= x < 256
    ensures exists k :: 0 <= k < 255 && Exp(k) as int == x
  {
    PowersBelowSize(255);
    PositiveBelowSize(256);
    assert PowersBelow(255) <= PositiveBelow(256);
    assert x in PositiveBelow(256);
    SameSizeSubset(PowersBelow(255), PositiveBelow(256), x);
  }

  /** alpha to the discrete logarithm of a nonzero byte is that byte. */
  lemma ExpLogOf(x: int)
    requires 1 <= x < 256
    ensures Exp(LogOf(x)) as int == x
  {
    PowersCoverBytes(x);
  }

  /** The discrete logarithm of alpha^k is k. */
  lemma LogOfExp(k: nat)
    requires k < 255
    ensures LogOf(Exp(k) as int) == k
  {
    LogOfIs(Exp(k) as int, k);
  }

  /** init_gf8_tables: log_table[ilog_table[k]] == k and ilog_table[k] != 0 for
      every k in 0..254, and ilog_table[log_table[x]] == x for every nonzero x;
      ilog starts 1, 2; log_table[0] and ilog_table[255] stay 0; every log
      value is below 255. */
  lemma LogIlogInverse()
    ensures forall k :: 0 <= k < 255 ==>
      IlogTable()[k] != 0 && LogTable()[IlogTable()[k] as int] as int == k
    ensures forall x :: 1 <= x < 256 ==> IlogTable()[LogTable()[x] as int] as int == x
    ensures IlogTable()[0] == 1 && IlogTable()[1] == 2
    ensures LogTable()[0] == 0 && IlogTable()[255] == 0
    ensures forall x :: 0 <= x < 256 ==> LogTable()[x] < 255
  {
    forall k | 0 <= k < 255
      ensures IlogTable()[k] != 0 && LogTable()[IlogTable()[k] as int] as int == k
    {
      LogOfExp(k);
    }
    forall x | 1 <= x < 256
      ensures IlogTable()[LogTable()[x] as int] as int == x
    {
      ExpLogOf(x);
      IxToByte(LogOf(x));
    }
  }

  /** A byte in the 16-bit accumulator of init_gf8_tables. */
  function Widen(y: bv8): bv16 { y as bv16 }
  /** `b <<= 1` on the accumulator. */
  function Twice(b: bv16): bv16 { b << 1 }
  /** Bit 8 of the accumulator is set. */
  predicate Overflow(b: bv16) { b & 0x100 != 0 }

  /** One step of the 16-bit accumulator of init_gf8_tables is MulX. */
  lemma AccumulatorStep(y: bv8)
    ensures var s := Twice(Widen(y)); (if Overflow(s) then s ^ Gf8PrimPoly else s) == Widen(MulX(y))
  {
  }

  /** `b as usize`. */
  function Slot(b: bv16): int { b as int }
  /** `b as u8`, which keeps the low byte. */
  function Narrow(b: bv16): bv8 { (b & 0xFF) as bv8 }

  /** The accumulator reads as the byte it holds, as an index and as a u8. */
  lemma WidenValue(y: bv8)
    ensures Slot(Widen(y)) == Ix(y) && Narrow(Widen(y)) == y
  {
  }

  /** The state of init_gf8_tables after its first k iterations. */
  ghost predicate TablesAfter(log: seq<bv8>, ilog: seq<bv8>, k: nat)
  {
    |log| == 256 && |ilog| == 256 &&
    (forall x :: 0 <= x < 256 ==> log[x] as int == LogUpTo(x, k)) &&
    (forall x :: 0 <= x < 256 ==> ilog[x] == if x < k then Exp(x) else 0)
  }

  /** Iteration k stores k at log[alpha^k] and alpha^k at ilog[k]. */
  lemma TablesStep(log: seq<bv8>, ilog: seq<bv8>, k: nat, idx: int)
    requires k < 255 && TablesAfter(log, ilog, k) && idx == Ix(Exp(k))
    ensures TablesAfter(log[idx := ToByte(k)], ilog[k := Exp(k)], k + 1)
  {
  }

  /** Builds the log and antilog tables by walking the powers of alpha in a
      16-bit accumulator, as init_gf8_tables does. */
  method InitGf8Tables() returns (log: seq<bv8>, ilog: seq<bv8>)
    ensures log == LogTable() && ilog == IlogTable()
  {
    var logTable := new bv8[256](_ => 0);
    var ilogTable := new bv8[256](_ => 0);
    var b: bv16 := 1;
    for k := 0 to 255
      invariant b == Widen(Exp(k))
      invariant TablesAfter(logTable[..], ilogTable[..], k)
    {
      WidenValue(Exp(k));
      TablesStep(logTable[..], ilogTable[..], k, Ix(Exp(k)));
      AccumulatorStep(Exp(k));
      logTable[Slot(b)] := ToByte(k);
      ilogTable[k] := Narrow(b);
      b := Twice(b);
      if Overflow(b) {
        b := b ^ Gf8PrimPoly;
      }
    }
    log := logTable[..];
    ilog := ilogTable[..];
    FinalTables(log, ilog);
  }

  /** After all 255 iterations the tables are the log and antilog tables. */
  lemma FinalTables(log: seq<bv8>, ilog: seq<bv8>)
    requires TablesAfter(log, ilog, 255)
    ensures log == LogTable() && ilog == IlogTable()
  {
    forall x | 0 <= x < 256
      ensures log[x] == LogTable()[x]
    {
      LogUpToIsLogOf(x);
    }
  }

  /** gf8_add: addition in GF(2^8) is XOR, so adding b again undoes it. */
  function Gf8Add(a: bv8, b: bv8): (r: bv8)
    ensures r ^ b == a && r ^ a == b
  {
    a ^ b
  }

  /** The antilog index gf8_div reads for a difference of two logarithms:
      255 is added to a negative difference, which is reduction mod 255. */
  function DivIndex(d: int): (r: int)
    requires -256 < d < 256
    ensures 0 <= r < 256
    ensures d < 255 ==> r == d % 255
  {
    if d < 0 then d + 255 else d
  }

  /** gf8_div through the given tables: 0 for a zero dividend, otherwise
      ilog[log a - log b] with 255 added to a negative difference. The source
      panics on a zero divisor; here that is the precondition. */
  function Gf8Div(log: seq<bv8>, ilog: seq<bv8>, a: bv8, b: bv8): bv8
    requires |log| == 256 && |ilog| == 256
    requires b != 0
  {
    if a == 0 then 0 else ilog[DivIndex(Ix(log[Ix(a)]) - Ix(log[Ix(b)]))]
  }

  /** The difference of two logarithms reduced mod 255. */
  function ModDiff(x: int, y: int): int
  {
    (x - y) % 255
  }

  /** For logarithms in 0..254, DivIndex is the difference mod 255, in 0..254. */
  lemma DivIndexRange(la: int, lb: int)
    requires 0 <= la < 255 && 0 <= lb < 255
    ensures 0 <= ModDiff(la, lb) < 255 && DivIndex(la - lb) == ModDiff(la, lb)
  {
  }

  /** With the real tables, gf8_div returns 0 for a zero dividend, and otherwise
      ilog[(log a - log b) mod 255], a nonzero value read at an index in 0..254. */
  lemma Gf8DivTables(a: bv8, b: bv8)
    requires b != 0
    ensures a == 0 ==> Gf8Div(LogTable(), IlogTable(), a, b) == 0
    ensures a != 0 ==>
      var s := ModDiff(LogOf(Ix(a)), LogOf(Ix(b)));
      0 <= s < 255 && Gf8Div(LogTable(), IlogTable(), a, b) == IlogTable()[s] &&
      Gf8Div(LogTable(), IlogTable(), a, b) != 0
  {
    if a != 0 {
      var la, lb := LogOf(Ix(a)), LogOf(Ix(b));
      assert LogTable()[Ix(a)] == ToByte(la) && LogTable()[Ix(b)] == ToByte(lb);
      IxToByte(la);
      IxToByte(lb);
      DivIndexRange(la, lb);
    }
  }

  /** gf8_div is division in the field: alpha^i / alpha^j == alpha^((i - j) mod 255). */
  lemma Gf8DivPowers(i: nat, j: nat)
    requires i < 255 && j < 255
    ensures Gf8Div(LogTable(), IlogTable(), Exp(i), Exp(j)) == Exp((i - j) % 255)
  {
    LogOfExp(i);
    LogOfExp(j);
  }

  /** alpha^254 is the inverse of alpha. */
  lemma ExpInverse()
    ensures Exp(254) == 0x8E
  {
    GeneratorOrder();
    assert MulX(Exp(254)) == MulX(0x8E);
    MulXInjective(Exp(254), 0x8E);
  }

  /** A nonzero value divided by itself is 1. */
  lemma Gf8DivSelf(a: bv8)
    requires a != 0
    ensures Gf8Div(LogTable(), IlogTable(), a, a) == 1
  {
  }

  /** The sum of two logarithms reduced mod 255. */
  function ModSum(x: int, y: int): int
  {
    (x + y) % 255
  }

  /** Field multiplication, the reference the coefficient table is checked
      against: 0 when a factor is 0, otherwise alpha^((log a + log b) mod 255). */
  ghost function Gf8Mul(a: bv8, b: bv8): bv8
  {
    if a == 0 || b == 0 then 0 else Exp(ModSum(LogOf(Ix(a)), LogOf(Ix(b))))
  }

  /** Gf8Mul multiplies powers of alpha by adding exponents. */
  lemma Gf8MulPowers(i: nat, j: nat)
    requires i < 255 && j < 255
    ensures Gf8Mul(Exp(i), Exp(j)) == Exp((i + j) % 255)
  {
    LogOfExp(i);
    LogOfExp(j);
    assert Ix(Exp(i)) == Exp(i) as int && Ix(Exp(j)) == Exp(j) as int;
  }
}
