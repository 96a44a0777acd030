/**
 * The Q-parity coefficient table of the CD-ROM Mode 1 L-EC encoder, as
 * init_gf8_q_coeffs_table in src/edc_ecc/edcre.rs builds it. The two rows of
 * the matrix H (all ones, and alpha^(44 - j)) are combined and normalised into
 * the coefficients of the two parity bytes, and the 43 x 256 table packs the
 * products of every byte value with the coefficients: the product with the
 * parity-0 coefficient in the low byte and with the parity-1 coefficient in
 * the high byte.
 */
module QCoeffs {
  import opened Gf8

  /** Number of coefficient columns computed (45) and kept in the table (43). */
  const Columns := 45
  const TableRows := 43

  // ---------------------------------------------------------------------
  // The coefficient rows, step by step
  // ---------------------------------------------------------------------

  /** Row 1 of H: alpha^(44 - j), read from the antilog table. Row 0 of H is
      all ones. */
  function Help1(ilog: seq<bv8>, j: int): bv8
    requires |ilog| == 256 && 0 <= j < Columns
  {
    ilog[44 - j]
  }

  /** e1' = e1 + e0. */
  function Q1Sum(ilog: seq<bv8>, j: int): bv8
    requires |ilog| == 256 && 0 <= j < Columns
  {
    Gf8Add(Help1(ilog, j), 1)
  }

  /** e0' = e0 + e1 / ilog[1]. */
  function Q0Sum(log: seq<bv8>, ilog: seq<bv8>, j: int): bv8
    requires |log| == 256 && |ilog| == 256 && ilog[1] != 0 && 0 <= j < Columns
  {
    Gf8Add(1, Gf8Div(log, ilog, Help1(ilog, j), ilog[1]))
  }

  /** The tables give the bootstrap nonzero divisors: ilog[1], e1'[43], the
      normalised e1'[43] and e0'[44]. */
  ghost predicate Divisible(log: seq<bv8>, ilog: seq<bv8>)
  {
    |log| == 256 && |ilog| == 256 && ilog[1] != 0 &&
    Q1Sum(ilog, 43) != 0 && Gf8Div(log, ilog, Q1Sum(ilog, 43), Q1Sum(ilog, 43)) != 0 &&
    Q0Sum(log, ilog, 44) != 0
  }

  /** The divisor the in-place loop reads from gf8_q_coeffs[1][43] when it
      divides column j: the original e1'[43] for j <= 43, and the already
      normalised value for j = 44. */
  function Q1Divisor(log: seq<bv8>, ilog: seq<bv8>, j: int): (d: bv8)
    requires Divisible(log, ilog) && 0 <= j < Columns
    ensures d != 0
  {
    if j <= 43 then Q1Sum(ilog, 43) else Gf8Div(log, ilog, Q1Sum(ilog, 43), Q1Sum(ilog, 43))
  }

  /** e1'' = e1' / e1'[43], with the divisor read as the loop reads it. */
  function Q1(log: seq<bv8>, ilog: seq<bv8>, j: int): bv8
    requires Divisible(log, ilog) && 0 <= j < Columns
  {
    Gf8Div(log, ilog, Q1Sum(ilog, j), Q1Divisor(log, ilog, j))
  }

  /** e0'' = e0' / e0'[44]. Column 44 is divided by its own value before the
      write, so every column sees the same divisor. */
  function Q0(log: seq<bv8>, ilog: seq<bv8>, j: int): bv8
    requires Divisible(log, ilog) && 0 <= j < Columns
  {
    Gf8Div(log, ilog, Q0Sum(log, ilog, j), Q0Sum(log, ilog, 44))
  }

  /** With the tables of init_gf8_tables no division of the bootstrap has a
      zero divisor: ilog[1] = alpha = 2, e1'[43] = alpha + 1 = 3, the
      normalised e1'[43] = 1, and e0'[44] = 1 + 1/alpha = 0x8F. */
  lemma DivisorsNonzero()
    ensures Divisible(LogTable(), IlogTable())
    ensures IlogTable()[1] == 2 && Q1Sum(IlogTable(), 43) == 3
    ensures Gf8Div(LogTable(), IlogTable(), 3, 3) == 1
    ensures Q0Sum(LogTable(), IlogTable(), 44) == 0x8F
  {
    LogIlogInverse();
    Gf8DivSelf(3);
    LogOfExp(0);
    LogOfExp(1);
    ExpInverse();
  }

  /** Reading the normalised gf8_q_coeffs[1][43] for column 44 does not
      change the result: e1'[44] is 0, and 0 divided by anything is 0. */
  lemma Q1ColumnQuirkHarmless()
    ensures Divisible(LogTable(), IlogTable())
    ensures Q1Divisor(LogTable(), IlogTable(), 44) != Q1Sum(IlogTable(), 43)
    ensures Q1(LogTable(), IlogTable(), 44) ==
      Gf8Div(LogTable(), IlogTable(), Q1Sum(IlogTable(), 44), Q1Sum(IlogTable(), 43)) == 0
  {
    DivisorsNonzero();
  }

  /** Row 1 of H holds alpha^(44 - j). */
  lemma Help1Power(j: int)
    requires 0 <= j < Columns
    ensures Help1(IlogTable(), j) == Exp(44 - j)
  {
  }

  /** A nonzero value divided by a nonzero value is nonzero. */
  lemma Gf8DivNonzero(a: bv8, b: bv8)
    requires a != 0 && b != 0
    ensures Gf8Div(LogTable(), IlogTable(), a, b) != 0
  {
    Gf8DivTables(a, b);
  }

  /** The parity-1 coefficients of columns 0..42 are nonzero: alpha^(44 - j)
      differs from 1 there. */
  lemma Q1Nonzero(j: int)
    requires 0 <= j < TableRows
    ensures Divisible(LogTable(), IlogTable())
    ensures Q1(LogTable(), IlogTable(), j) != 0
  {
    DivisorsNonzero();
    GeneratorOrder();
    Help1Power(j);
    assert Exp(44 - j) != 1;
    Gf8DivNonzero(Q1Sum(IlogTable(), j), Q1Divisor(LogTable(), IlogTable(), j));
  }

  /** The parity-0 coefficients of columns 0..42 are nonzero: alpha^(44 - j)
      divided by alpha is alpha^(43 - j), which differs from 1 there. */
  lemma Q0Nonzero(j: int)
    requires 0 <= j < TableRows
    ensures Divisible(LogTable(), IlogTable())
    ensures Q0(LogTable(), IlogTable(), j) != 0
  {
    DivisorsNonzero();
    var log, ilog := LogTable(), IlogTable();
    Help1Power(j);
    Gf8DivPowers(44 - j, 1);
    assert Gf8Div(log, ilog, Help1(ilog, j), ilog[1]) == Exp(43 - j);
    GeneratorOrder();
    assert Exp(43 - j) != 1;
    Gf8DivNonzero(Q0Sum(log, ilog, j), Q0Sum(log, ilog, 44));
  }

  /** Every coefficient that reaches the table (columns 0..42) is nonzero. */
  lemma CoefficientsNonzero(j: int)
    requires 0 <= j < TableRows
    ensures Divisible(LogTable(), IlogTable())
    ensures Q0(LogTable(), IlogTable(), j) != 0 && Q1(LogTable(), IlogTable(), j) != 0
  {
    Q0Nonzero(j);
    Q1Nonzero(j);
  }

  // ---------------------------------------------------------------------
  // The packed product table
  // ---------------------------------------------------------------------

  /** `w | (hi as u16) << 8`: put hi into the high byte of an entry. */
  function OrHigh(w: bv16, hi: bv8): bv16 { w | (Widen(hi) << 8) }
  /** `(e & 0xff) as u8`. */
  function LowOf(e: bv16): bv8 { (e & 0xff) as bv8 }
  /** `(e >> 8) as u8`. */
  function HighOf(e: bv16): bv8 { (e >> 8) as bv8 }

  /** Packing two bytes into an entry keeps both. */
  lemma PackBytes(lo: bv8, hi: bv8)
    ensures LowOf(OrHigh(Widen(lo), hi)) == lo && HighOf(OrHigh(Widen(lo), hi)) == hi
  {
  }

  /** The exponent c of a product: the sum of two logarithms, less 255 once
      when it reaches 255. The sum is at most 510, so the u16 never wraps. */
  function ReduceExponent(c: int): (r: int)
    requires 0 <= c <= 510
    ensures 0 <= r <= 255
  {
    if c >= 255 then c - 255 else c
  }

  /** For logarithms in 0..254, one subtraction brings the exponent below 255:
      it is their sum mod 255. */
  lemma ExponentBelow255(la: int, lb: int)
    requires 0 <= la < 255 && 0 <= lb < 255
    ensures ReduceExponent(la + lb) < 255 && ReduceExponent(la + lb) == ModSum(la, lb)
  {
  }

  /** The antilog of log x + log q through the given tables: one half of a
      table entry. */
  function LogProduct(log: seq<bv8>, ilog: seq<bv8>, x: int, q: bv8): bv8
    requires |log| == 256 && |ilog| == 256 && 0 <= x < 256
  {
    ilog[ReduceExponent(Ix(log[x]) + Ix(log[Ix(q)]))]
  }

  /** Entry i of a table row for the coefficients a and b: 0 for i = 0,
      otherwise the two log-table products packed low and high. */
  function Entry(log: seq<bv8>, ilog: seq<bv8>, a: bv8, b: bv8, i: int): bv16
    requires |log| == 256 && |ilog| == 256 && 0 <= i < 256
  {
    if i == 0 then 0 else OrHigh(Widen(LogProduct(log, ilog, i, a)), LogProduct(log, ilog, i, b))
  }

  /** The coefficients of the table, columns 0..42 of e0'' and e1''. */
  function Q0Row(log: seq<bv8>, ilog: seq<bv8>): (r: seq<bv8>)
    requires Divisible(log, ilog)
  {
    seq(TableRows, j requires 0 <= j < TableRows => Q0(log, ilog, j))
  }

  function Q1Row(log: seq<bv8>, ilog: seq<bv8>): (r: seq<bv8>)
    requires Divisible(log, ilog)
  {
    seq(TableRows, j requires 0 <= j < TableRows => Q1(log, ilog, j))
  }

  /** The 43 x 256 table of packed products for coefficient rows a and b. */
  function TableOf(log: seq<bv8>, ilog: seq<bv8>, a: seq<bv8>, b: seq<bv8>): (t: seq<seq<bv16>>)
    requires |log| == 256 && |ilog| == 256 && |a| >= TableRows && |b| >= TableRows
    ensures |t| == TableRows
    ensures forall j :: 0 <= j < TableRows ==> |t[j]| == 256
  {
    seq(TableRows, j requires 0 <= j < TableRows =>
      seq(256, i requires 0 <= i < 256 => Entry(log, ilog, a[j], b[j], i)))
  }

  /** GF8_Q_COEFFS_TABLE. */
  ghost function QCoeffTable(): (t: seq<seq<bv16>>)
    ensures |t| == TableRows
    ensures forall j :: 0 <= j < TableRows ==> |t[j]| == 256
  {
    DivisorsNonzero();
    TableOf(LogTable(), IlogTable(), Q0Row(LogTable(), IlogTable()), Q1Row(LogTable(), IlogTable()))
  }

  /** The log-table product of a nonzero byte with a nonzero coefficient is
      the field product. */
  lemma LogProductIsProduct(i: int, q: bv8)
    requires 0 < i < 256 && q != 0
    ensures LogProduct(LogTable(), IlogTable(), i, q) == Gf8Mul(ToByte(i), q)
  {
    var la, lb := LogOf(i), LogOf(Ix(q));
    assert LogTable()[i] == ToByte(la) && LogTable()[Ix(q)] == ToByte(lb);
    IxToByte(i);
    IxToByte(la);
    IxToByte(lb);
    ExponentBelow255(la, lb);
  }

  /** Entry i of row j of GF8_Q_COEFFS_TABLE is the entry for the
      coefficients of column j. */
  lemma QCoeffTableEntry(j: int, i: int)
    requires 0 <= j < TableRows && 0 <= i < 256
    ensures Divisible(LogTable(), IlogTable())
    ensures QCoeffTable()[j][i] ==
      Entry(LogTable(), IlogTable(), Q0(LogTable(), IlogTable(), j), Q1(LogTable(), IlogTable(), j), i)
  {
    DivisorsNonzero();
    var log, ilog := LogTable(), IlogTable();
    assert Q0Row(log, ilog)[j] == Q0(log, ilog, j) && Q1Row(log, ilog)[j] == Q1(log, ilog, j);
  }

  /** Every row of GF8_Q_COEFFS_TABLE starts with 0, and entry i of row j holds
      the field product of i with the parity-0 coefficient of column j in its
      low byte and with the parity-1 coefficient in its high byte. */
  lemma QCoeffTableProducts(j: int, i: int)
    requires 0 <= j < TableRows && 0 <= i < 256
    ensures Divisible(LogTable(), IlogTable())
    ensures i == 0 ==> QCoeffTable()[j][i] == 0
    ensures LowOf(QCoeffTable()[j][i]) == Gf8Mul(ToByte(i), Q0(LogTable(), IlogTable(), j))
    ensures HighOf(QCoeffTable()[j][i]) == Gf8Mul(ToByte(i), Q1(LogTable(), IlogTable(), j))
  {
    QCoeffTableEntry(j, i);
    var log, ilog := LogTable(), IlogTable();
    var a, b := Q0(log, ilog, j), Q1(log, ilog, j);
    if i == 0 {
      assert ToByte(i) == 0;
      assert LowOf(0) == 0 && HighOf(0) == 0;
    } else {
      CoefficientsNonzero(j);
      var lo, hi := LogProduct(log, ilog, i, a), LogProduct(log, ilog, i, b);
      assert Entry(log, ilog, a, b, i) == OrHigh(Widen(lo), hi);
      LogProductIsProduct(i, a);
      LogProductIsProduct(i, b);
      PackBytes(lo, hi);
    }
  }

  // ---------------------------------------------------------------------
  // init_gf8_q_coeffs_table
  // ---------------------------------------------------------------------

  /** Build H: gf8_coeffs_help[0][j] = 1 and gf8_coeffs_help[1][j] = ilog[44 - j]. */
  method FillH(ilog: seq<bv8>, help0: array<bv8>, help1: array<bv8>)
    requires |ilog| == 256 && help0.Length == Columns && help1.Length == Columns && help0 != help1
    modifies help0, help1
    ensures forall k :: 0 <= k < Columns ==> help0[k] == 1 && help1[k] == Help1(ilog, k)
  {
    for j := 0 to Columns
      invariant forall k :: 0 <= k < j ==> help0[k] == 1 && help1[k] == Help1(ilog, k)
    {
      help0[j] := 1;
      help1[j] := ilog[44 - j];
    }
  }

  /** e1' = e1 + e0, column by column. */
  method AddRows(ilog: seq<bv8>, h0: seq<bv8>, h1: seq<bv8>, q1: array<bv8>)
    requires |ilog| == 256 && |h0| == Columns && |h1| == Columns && q1.Length == Columns
    requires forall k :: 0 <= k < Columns ==> h0[k] == 1 && h1[k] == Help1(ilog, k)
    modifies q1
    ensures forall k :: 0 <= k < Columns ==> q1[k] == Q1Sum(ilog, k)
  {
    for j := 0 to Columns
      invariant forall k :: 0 <= k < j ==> q1[k] == Q1Sum(ilog, k)
    {
      q1[j] := Gf8Add(h1[j], h0[j]);
    }
  }

  /** e1'' = e1' / e1'[43], in place: the divisor is re-read from the array
      being overwritten, so column 44 is divided by the normalised value. */
  method NormaliseQ1(log: seq<bv8>, ilog: seq<bv8>, q1: array<bv8>)
    requires Divisible(log, ilog) && q1.Length == Columns
    requires forall k :: 0 <= k < Columns ==> q1[k] == Q1Sum(ilog, k)
    modifies q1
    ensures forall k :: 0 <= k < Columns ==> q1[k] == Q1(log, ilog, k)
  {
    for j := 0 to Columns
      invariant forall k :: 0 <= k < j ==> q1[k] == Q1(log, ilog, k)
      invariant forall k :: j <= k < Columns ==> q1[k] == Q1Sum(ilog, k)
    {
      assert q1[43] == Q1Divisor(log, ilog, j);
      q1[j] := Gf8Div(log, ilog, q1[j], q1[43]);
    }
  }

  /** e0' = e0 + e1 / ilog[1], column by column. */
  method SubstituteQ0(log: seq<bv8>, ilog: seq<bv8>, h0: seq<bv8>, h1: seq<bv8>, q0: array<bv8>)
    requires Divisible(log, ilog) && q0.Length == Columns
    requires |h0| == Columns && |h1| == Columns
    requires forall k :: 0 <= k < Columns ==> h0[k] == 1 && h1[k] == Help1(ilog, k)
    modifies q0
    ensures forall k :: 0 <= k < Columns ==> q0[k] == Q0Sum(log, ilog, k)
  {
    for j := 0 to Columns
      invariant forall k :: 0 <= k < j ==> q0[k] == Q0Sum(log, ilog, k)
    {
      q0[j] := Gf8Add(h0[j], Gf8Div(log, ilog, h1[j], ilog[1]));
    }
  }

  /** e0'' = e0' / e0'[44], in place. Column 44 is the last one written, so
      every column sees the unnormalised divisor. */
  method NormaliseQ0(log: seq<bv8>, ilog: seq<bv8>, q0: array<bv8>)
    requires Divisible(log, ilog) && q0.Length == Columns
    requires forall k :: 0 <= k < Columns ==> q0[k] == Q0Sum(log, ilog, k)
    modifies q0
    ensures forall k :: 0 <= k < Columns ==> q0[k] == Q0(log, ilog, k)
  {
    for j := 0 to Columns
      invariant forall k :: 0 <= k < j ==> q0[k] == Q0(log, ilog, k)
      invariant forall k :: j <= k < Columns ==> q0[k] == Q0Sum(log, ilog, k)
    {
      q0[j] := Gf8Div(log, ilog, q0[j], q0[44]);
    }
  }

  /** The five loops over the 45 columns: build H, then e1', e1'', e0' and
      e0''. Rows 0 and 1 of gf8_coeffs_help and gf8_q_coeffs are the arrays
      help0, help1, q0 and q1. */
  method SolveCoefficients(log: seq<bv8>, ilog: seq<bv8>) returns (c0: seq<bv8>, c1: seq<bv8>)
    requires Divisible(log, ilog)
    ensures |c0| == Columns && |c1| == Columns
    ensures forall j :: 0 <= j < Columns ==> c0[j] == Q0(log, ilog, j) && c1[j] == Q1(log, ilog, j)
  {
    var help0 := new bv8[Columns];
    var help1 := new bv8[Columns];
    FillH(ilog, help0, help1);
    var q0 := new bv8[Columns];
    var q1 := new bv8[Columns];
    AddRows(ilog, help0[..], help1[..], q1);
    NormaliseQ1(log, ilog, q1);
    SubstituteQ0(log, ilog, help0[..], help1[..], q0);
    NormaliseQ0(log, ilog, q0);
    c0, c1 := q0[..], q1[..];
  }

  /** Entries 0..i-1 of row are those for the coefficients a and b. */
  ghost predicate RowUpTo(log: seq<bv8>, ilog: seq<bv8>, a: bv8, b: bv8, row: seq<bv16>, i: int)
    requires |log| == 256 && |ilog| == 256 && |row| == 256 && 0 <= i <= 256
  {
    forall k :: 0 <= k < i ==> row[k] == Entry(log, ilog, a, b, k)
  }

  /** The rows 0..j-1 built so far are those of the table. */
  ghost predicate RowsUpTo(log: seq<bv8>, ilog: seq<bv8>, a: seq<bv8>, b: seq<bv8>, t: seq<seq<bv16>>, j: int)
    requires |log| == 256 && |ilog| == 256 && |a| >= TableRows && |b| >= TableRows && 0 <= j <= TableRows
  {
    |t| == j && forall r :: 0 <= r < j ==> t[r] == TableOf(log, ilog, a, b)[r]
  }

  lemma RowStep(log: seq<bv8>, ilog: seq<bv8>, a: seq<bv8>, b: seq<bv8>, t: seq<seq<bv16>>, j: int, row: seq<bv16>)
    requires |log| == 256 && |ilog| == 256 && |a| >= TableRows && |b| >= TableRows && 0 <= j < TableRows
    requires RowsUpTo(log, ilog, a, b, t, j) && |row| == 256 && RowUpTo(log, ilog, a[j], b[j], row, 256)
    ensures RowsUpTo(log, ilog, a, b, t + [row], j + 1)
  {
    assert row == TableOf(log, ilog, a, b)[j];
  }

  /** init_gf8_q_coeffs_table: the 43 rows of packed products. */
  method InitGf8QCoeffsTable(log: seq<bv8>, ilog: seq<bv8>) returns (table: seq<seq<bv16>>)
    requires log == LogTable() && ilog == IlogTable()
    ensures table == QCoeffTable()
  {
    DivisorsNonzero();
    var q0, q1 := SolveCoefficients(log, ilog);
    table := BuildTable(log, ilog, q0, q1);
    assert q0[..TableRows] == Q0Row(log, ilog) && q1[..TableRows] == Q1Row(log, ilog);
    TableOfPrefix(log, ilog, q0, q1);
  }

  /** The table depends on the first 43 coefficients only. */
  lemma TableOfPrefix(log: seq<bv8>, ilog: seq<bv8>, a: seq<bv8>, b: seq<bv8>)
    requires |log| == 256 && |ilog| == 256 && |a| >= TableRows && |b| >= TableRows
    ensures TableOf(log, ilog, a, b) == TableOf(log, ilog, a[..TableRows], b[..TableRows])
  {
  }

  /** One product of the inner loop: c = log[x] + log[q] as a u16, less 255
      once when it reaches 255, then ilog[c]. */
  method MulByLogs(log: seq<bv8>, ilog: seq<bv8>, x: int, q: bv8) returns (p: bv8)
    requires |log| == 256 && |ilog| == 256 && 0 <= x < 256
    ensures p == LogProduct(log, ilog, x, q)
  {
    var c := Ix(log[x]) + Ix(log[Ix(q)]);
    ghost var sum := c;
    if c >= 255 {
      c := c - 255;
    }
    assert c == ReduceExponent(sum);
    p := ilog[c];
  }

  /** The product loops of init_gf8_q_coeffs_table over the coefficient rows
      a and b. */
  method BuildTable(log: seq<bv8>, ilog: seq<bv8>, a: seq<bv8>, b: seq<bv8>) returns (table: seq<seq<bv16>>)
    requires |log| == 256 && |ilog| == 256 && |a| >= TableRows && |b| >= TableRows
    ensures table == TableOf(log, ilog, a, b)
  {
    table := [];
    for j := 0 to TableRows
      invariant RowsUpTo(log, ilog, a, b, table, j)
    {
      var row := new bv16[256];
      row[0] := 0;
      for i := 1 to 256
        invariant RowUpTo(log, ilog, a[j], b[j], row[..], i)
      {
        var lo := MulByLogs(log, ilog, i, a[j]);
        row[i] := Widen(lo);
        var hi := MulByLogs(log, ilog, i, b[j]);
        row[i] := OrHigh(row[i], hi);
      }
      RowStep(log, ilog, a, b, table, j, row[..]);
      table := table + [row[..]];
    }
  }
}
