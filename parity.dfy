/**
 * The Reed-Solomon Product-like Code of a CD-ROM Mode 1 sector (Annex A of
 * ECMA-130), as calc_p_parity and calc_q_parity in src/edc_ecc/edcre.rs
 * compute it in place over a flat sector buffer. Bytes 12..2075 (header,
 * user data, EDC and the zero field) are the 1032 16-bit words of the code.
 * P parity runs down the 43 columns of 24 words and is stored at 2076..2247;
 * Q parity runs along the 26 diagonals of 43 words, wrapping around the
 * 1118-word area that now includes the P parity, and is stored at 2248..2351.
 */
module Parity {
  import opened Gf8
  import opened QCoeffs

  /** LEC_HEADER_OFFSET, LEC_MODE1_P_PARITY_OFFSET, LEC_MODE1_Q_PARITY_OFFSET. */
  const HeaderOffset := 12
  const POffset := 2076
  const QOffset := 2248
  const SectorEnd := 2352

  /** P parity: 43 columns of 24 words, each word 86 bytes below the last,
      weighted by table rows 19..42. */
  const PColumns := 43
  const PRows := 24
  const PFirstRow := 19
  const PStride := 86

  /** Q parity: 26 diagonals of 43 words, each word 88 bytes on, less 2236
      (1118 words) when it reaches the Q parity offset. */
  const QDiagonals := 26
  const QStride := 88
  const QWrap := 2236

  /** The shape of GF8_Q_COEFFS_TABLE: 43 rows of 256 packed entries. */
  predicate TableShape(table: seq<seq<bv16>>)
  {
    |table| == TableRows && forall j :: 0 <= j < TableRows ==> |table[j]| == 256
  }

  /** `table[j][d as usize]`: the packed products of byte d with the two
      coefficients of row j. */
  function Lookup(table: seq<seq<bv16>>, j: int, d: bv8): bv16
    requires TableShape(table) && 0 <= j < TableRows
  {
    table[j][Ix(d)]
  }

  /** `a ^= b` on a 16-bit accumulator. */
  function Xor(a: bv16, b: bv16): bv16 { a ^ b }

  // ---------------------------------------------------------------------
  // calc_p_parity
  // ---------------------------------------------------------------------

  /** p_lsb_idx for column i at row r: 12 + 2i + 86r. */
  function PIndex(i: int, r: int): int
  {
    HeaderOffset + 2 * i + PStride * r
  }

  /** Every word P reads lies inside 12..2075, below the P parity it writes. */
  lemma PIndexRange(i: int, r: int)
    requires 0 <= i < PColumns && 0 <= r < PRows
    ensures HeaderOffset <= PIndex(i, r) && PIndex(i, r) + 1 < POffset
  {
  }

  /** p01_lsb (b = 0) or p01_msb (b = 1) of column i after its first n rows:
      the xor of the table entries of the bytes read. */
  function PAcc(table: seq<seq<bv16>>, s: seq<bv8>, i: int, b: int, n: int): bv16
    requires TableShape(table) && |s| >= POffset
    requires 0 <= i < PColumns && 0 <= b <= 1 && 0 <= n <= PRows
  {
    if n == 0 then 0
    else Xor(PAcc(table, s, i, b, n - 1), Lookup(table, PFirstRow + n - 1, s[PIndex(i, n - 1) + b]))
  }

  /** The four stores of column i: P0 (the low bytes) at 2162 + 2i and P1
      (the high bytes) at 2076 + 2i. */
  function PWrite(s: seq<bv8>, i: int, lsb: bv16, msb: bv16): (r: seq<bv8>)
    requires |s| >= QOffset && 0 <= i < PColumns
    ensures |r| == |s|
  {
    s[POffset + 2 * 43 + i * 2 := LowOf(lsb)][POffset + 2 * 43 + i * 2 + 1 := LowOf(msb)]
     [POffset + i * 2 := HighOf(lsb)][POffset + i * 2 + 1 := HighOf(msb)]
  }

  /** The sector after the first n columns of calc_p_parity, each computed
      from the sector s it started with. */
  function PUpTo(table: seq<seq<bv16>>, s: seq<bv8>, n: int): (r: seq<bv8>)
    requires TableShape(table) && |s| >= QOffset && 0 <= n <= PColumns
    ensures |r| == |s|
  {
    if n == 0 then s
    else PWrite(PUpTo(table, s, n - 1), n - 1, PAcc(table, s, n - 1, 0, PRows), PAcc(table, s, n - 1, 1, PRows))
  }

  /** The sector after calc_p_parity. */
  function WithPParity(table: seq<seq<bv16>>, s: seq<bv8>): (r: seq<bv8>)
    requires TableShape(table) && |s| >= QOffset
    ensures |r| == |s|
  {
    PUpTo(table, s, PColumns)
  }

  /** P reads only bytes 12..2075: sectors that agree there accumulate the same. */
  lemma {:induction false} PAccReads(table: seq<seq<bv16>>, s: seq<bv8>, t: seq<bv8>, i: int, b: int, n: int)
    requires TableShape(table) && |s| >= POffset && |t| >= POffset
    requires 0 <= i < PColumns && 0 <= b <= 1 && 0 <= n <= PRows
    requires forall k :: HeaderOffset <= k < POffset ==> s[k] == t[k]
    ensures PAcc(table, s, i, b, n) == PAcc(table, t, i, b, n)
  {
    if n > 0 {
      PAccReads(table, s, t, i, b, n - 1);
      PIndexRange(i, n - 1);
    }
  }

  /** The first n columns change only bytes 2076..2247. */
  lemma {:induction false} PUpToFrame(table: seq<seq<bv16>>, s: seq<bv8>, n: int)
    requires TableShape(table) && |s| >= QOffset && 0 <= n <= PColumns
    ensures forall k :: 0 <= k < |s| && !(POffset <= k < QOffset) ==> PUpTo(table, s, n)[k] == s[k]
  {
    if n > 0 {
      PUpToFrame(table, s, n - 1);
    }
  }

  /** The bytes the loop reads for column n are still those of s. */
  lemma PUpToKeepsData(table: seq<seq<bv16>>, s: seq<bv8>, n: int, b: int)
    requires TableShape(table) && |s| >= QOffset && 0 <= n < PColumns && 0 <= b <= 1
    ensures PAcc(table, PUpTo(table, s, n), n, b, PRows) == PAcc(table, s, n, b, PRows)
  {
    PUpToFrame(table, s, n);
    PAccReads(table, PUpTo(table, s, n), s, n, b, PRows);
  }

  /** The accumulation down one column, the inner loop of calc_p_parity. */
  method PColumn(table: seq<seq<bv16>>, sector: array<bv8>, i: int) returns (lsb: bv16, msb: bv16)
    requires TableShape(table) && sector.Length >= POffset && 0 <= i < PColumns
    ensures lsb == PAcc(table, sector[..], i, 0, PRows) && msb == PAcc(table, sector[..], i, 1, PRows)
  {
    ghost var s := sector[..];
    var idx := HeaderOffset + i * 2;
    lsb, msb := 0, 0;
    for r := 0 to PRows
      invariant idx == PIndex(i, r)
      invariant lsb == PAcc(table, s, i, 0, r) && msb == PAcc(table, s, i, 1, r)
    {
      var d0 := sector[idx];
      var d1 := sector[idx + 1];
      lsb := Xor(lsb, Lookup(table, PFirstRow + r, d0));
      msb := Xor(msb, Lookup(table, PFirstRow + r, d1));
      idx := idx + 2 * 43;
    }
  }

  /** calc_p_parity. The source panics on a buffer that ends before the last
      P byte; here that is the precondition. */
  method CalcPParity(table: seq<seq<bv16>>, sector: array<bv8>)
    requires TableShape(table) && sector.Length >= QOffset
    modifies sector
    ensures sector[..] == WithPParity(table, old(sector[..]))
  {
    ghost var s := sector[..];
    for i := 0 to PColumns
      invariant sector[..] == PUpTo(table, s, i)
    {
      var lsb, msb := PColumn(table, sector, i);
      PUpToKeepsData(table, s, i, 0);
      PUpToKeepsData(table, s, i, 1);
      sector[POffset + 2 * 43 + i * 2] := LowOf(lsb);
      sector[POffset + 2 * 43 + i * 2 + 1] := LowOf(msb);
      sector[POffset + i * 2] := HighOf(lsb);
      sector[POffset + i * 2 + 1] := HighOf(msb);
    }
  }

  /** The stores of column i put the low and high bytes of the accumulators
      at its four positions. */
  lemma PWriteOwn(s: seq<bv8>, i: int, lsb: bv16, msb: bv16)
    requires |s| >= QOffset && 0 <= i < PColumns
    ensures var r := PWrite(s, i, lsb, msb);
      r[POffset + PStride + 2 * i] == LowOf(lsb) && r[POffset + PStride + 2 * i + 1] == LowOf(msb) &&
      r[POffset + 2 * i] == HighOf(lsb) && r[POffset + 2 * i + 1] == HighOf(msb)
  {
  }

  /** The stores of column j leave the bytes of every other column alone. */
  lemma PWriteKeeps(s: seq<bv8>, j: int, lsb: bv16, msb: bv16, i: int)
    requires |s| >= QOffset && 0 <= i < PColumns && 0 <= j < PColumns && i != j
    ensures var r := PWrite(s, j, lsb, msb);
      r[POffset + PStride + 2 * i] == s[POffset + PStride + 2 * i] &&
      r[POffset + PStride + 2 * i + 1] == s[POffset + PStride + 2 * i + 1] &&
      r[POffset + 2 * i] == s[POffset + 2 * i] && r[POffset + 2 * i + 1] == s[POffset + 2 * i + 1]
  {
  }

  /** After the first n columns, each column i < n holds its parity: the low
      bytes of p01_lsb and p01_msb at 2162 + 2i and 2163 + 2i, the high bytes
      at 2076 + 2i and 2077 + 2i. */
  lemma {:induction false} PUpToColumn(table: seq<seq<bv16>>, s: seq<bv8>, n: int, i: int)
    requires TableShape(table) && |s| >= QOffset && 0 <= i < n <= PColumns
    ensures var r, lsb, msb := PUpTo(table, s, n), PAcc(table, s, i, 0, PRows), PAcc(table, s, i, 1, PRows);
      r[POffset + PStride + 2 * i] == LowOf(lsb) && r[POffset + PStride + 2 * i + 1] == LowOf(msb) &&
      r[POffset + 2 * i] == HighOf(lsb) && r[POffset + 2 * i + 1] == HighOf(msb)
  {
    var lsb, msb := PAcc(table, s, n - 1, 0, PRows), PAcc(table, s, n - 1, 1, PRows);
    if i == n - 1 {
      PWriteOwn(PUpTo(table, s, n - 1), i, lsb, msb);
    } else {
      PUpToColumn(table, s, n - 1, i);
      PWriteKeeps(PUpTo(table, s, n - 1), n - 1, PAcc(table, s, n - 1, 0, PRows), PAcc(table, s, n - 1, 1, PRows), i);
    }
  }

  /** calc_p_parity stores, for each column i, P0 = the low bytes of the two
      accumulators at 2162 + 2i and P1 = the high bytes at 2076 + 2i. */
  lemma PParityLayout(table: seq<seq<bv16>>, s: seq<bv8>, i: int)
    requires TableShape(table) && |s| >= QOffset && 0 <= i < PColumns
    ensures var r, lsb, msb := WithPParity(table, s), PAcc(table, s, i, 0, PRows), PAcc(table, s, i, 1, PRows);
      r[POffset + PStride + 2 * i] == LowOf(lsb) && r[POffset + PStride + 2 * i + 1] == LowOf(msb) &&
      r[POffset + 2 * i] == HighOf(lsb) && r[POffset + 2 * i + 1] == HighOf(msb)
  {
    PUpToColumn(table, s, PColumns, i);
  }

  /** calc_p_parity changes no byte outside 2076..2247. */
  lemma PParityFrame(table: seq<seq<bv16>>, s: seq<bv8>)
    requires TableShape(table) && |s| >= QOffset
    ensures forall k :: 0 <= k < |s| && !(POffset <= k < QOffset) ==> WithPParity(table, s)[k] == s[k]
  {
    PUpToFrame(table, s, PColumns);
  }

  /** Byte 2076 + off of the P parity belongs to column `(off mod 86) / 2`. */
  lemma PByteReads(table: seq<seq<bv16>>, s: seq<bv8>, t: seq<bv8>, off: int)
    requires TableShape(table) && |s| >= QOffset && |t| == |s| && 0 <= off < 2 * PStride
    requires forall k :: HeaderOffset <= k < POffset ==> s[k] == t[k]
    ensures WithPParity(table, s)[POffset + off] == WithPParity(table, t)[POffset + off]
  {
    var h := if off < PStride then 0 else PStride;
    var i := (off - h) / 2;
    assert off == h + 2 * i || off == h + 2 * i + 1;
    PParityLayout(table, s, i);
    PParityLayout(table, t, i);
    PAccReads(table, s, t, i, 0, PRows);
    PAccReads(table, s, t, i, 1, PRows);
  }

  /** The P parity depends on bytes 12..2075 only: sectors that agree there
      get the same bytes 2076..2247. */
  lemma PParityReads(table: seq<seq<bv16>>, s: seq<bv8>, t: seq<bv8>)
    requires TableShape(table) && |s| >= QOffset && |t| == |s|
    requires forall k :: HeaderOffset <= k < POffset ==> s[k] == t[k]
    ensures WithPParity(table, s)[POffset..QOffset] == WithPParity(table, t)[POffset..QOffset]
  {
    forall k | POffset <= k < QOffset
      ensures WithPParity(table, s)[k] == WithPParity(table, t)[k]
    {
      PByteReads(table, s, t, k - POffset);
    }
  }

  // ---------------------------------------------------------------------
  // calc_q_parity
  // ---------------------------------------------------------------------

  /** One step of q_lsb_idx: 88 bytes on, less 2236 when it reaches the Q
      parity offset. */
  function QStep(idx: int): int
  {
    if idx + QStride >= QOffset then idx + QStride - QWrap else idx + QStride
  }

  /** q_lsb_idx for diagonal i at row r. It stays even and within 12..2246, so
      both bytes of every word Q reads lie below the Q parity. */
  function QIndex(i: int, r: int): (x: int)
    requires 0 <= i < QDiagonals && 0 <= r
    ensures HeaderOffset <= x <= QOffset - 2 && x % 2 == 0
    decreases r
  {
    if r == 0 then HeaderOffset + i * 2 * 43 else QStep(QIndex(i, r - 1))
  }

  /** The wrap is reduction mod 2236 of the distance from byte 12. */
  function QDistance(i: int, r: int): int
  {
    (2 * 43 * i + QStride * r) % QWrap
  }

  /** The stepped index is the closed form 12 + (86i + 88r) mod 2236. */
  lemma {:induction false} QIndexClosed(i: int, r: int)
    requires 0 <= i < QDiagonals && 0 <= r
    ensures QIndex(i, r) == HeaderOffset + QDistance(i, r)
    decreases r
  {
    if r > 0 {
      QIndexClosed(i, r - 1);
      QDistanceStep(i, r);
    }
  }

  /** x mod 2236 is the r in 0..2235 with x = 2236q + r. */
  lemma ModWrap(x: int, q: int, r: int)
    requires 0 <= r < QWrap && x == QWrap * q + r
    ensures x % QWrap == r
  {
  }

  lemma QDistanceStep(i: int, r: int)
    requires 0 <= i < QDiagonals && 0 < r
    ensures var d := QDistance(i, r - 1);
      QDistance(i, r) == if d + QStride >= QWrap then d + QStride - QWrap else d + QStride
  {
    var x := 2 * 43 * i + QStride * (r - 1);
    var q, d := x / QWrap, x % QWrap;
    assert x == QWrap * q + d;
    assert 2 * 43 * i + QStride * r == x + QStride;
    if d + QStride >= QWrap {
      ModWrap(x + QStride, q + 1, d + QStride - QWrap);
    } else {
      ModWrap(x + QStride, q, d + QStride);
    }
  }

  /** Q reads into the P parity: word 24 of diagonal 0 is at byte 2124. */
  lemma QReadsPParity()
    ensures QIndex(0, 24) == 2124 && POffset <= QIndex(0, 24) < QOffset
  {
    QIndexClosed(0, 24);
  }

  /** q01_lsb (b = 0) or q01_msb (b = 1) of diagonal i after its first n rows. */
  function QAcc(table: seq<seq<bv16>>, s: seq<bv8>, i: int, b: int, n: int): bv16
    requires TableShape(table) && |s| >= QOffset
    requires 0 <= i < QDiagonals && 0 <= b <= 1 && 0 <= n <= TableRows
  {
    if n == 0 then 0
    else Xor(QAcc(table, s, i, b, n - 1), Lookup(table, n - 1, s[QIndex(i, n - 1) + b]))
  }

  /** The four stores of diagonal i: Q0 (the low bytes) at 2300 + 2i and Q1
      (the high bytes) at 2248 + 2i. */
  function QWrite(s: seq<bv8>, i: int, lsb: bv16, msb: bv16): (r: seq<bv8>)
    requires |s| >= SectorEnd && 0 <= i < QDiagonals
    ensures |r| == |s|
  {
    s[QOffset + 2 * 26 + i * 2 := LowOf(lsb)][QOffset + 2 * 26 + i * 2 + 1 := LowOf(msb)]
     [QOffset + i * 2 := HighOf(lsb)][QOffset + i * 2 + 1 := HighOf(msb)]
  }

  /** The sector after the first n diagonals of calc_q_parity. */
  function QUpTo(table: seq<seq<bv16>>, s: seq<bv8>, n: int): (r: seq<bv8>)
    requires TableShape(table) && |s| >= SectorEnd && 0 <= n <= QDiagonals
    ensures |r| == |s|
  {
    if n == 0 then s
    else QWrite(QUpTo(table, s, n - 1), n - 1, QAcc(table, s, n - 1, 0, TableRows), QAcc(table, s, n - 1, 1, TableRows))
  }

  /** The sector after calc_q_parity. */
  function WithQParity(table: seq<seq<bv16>>, s: seq<bv8>): (r: seq<bv8>)
    requires TableShape(table) && |s| >= SectorEnd
    ensures |r| == |s|
  {
    QUpTo(table, s, QDiagonals)
  }

  /** Q reads only bytes 12..2247, P parity included. */
  lemma {:induction false} QAccReads(table: seq<seq<bv16>>, s: seq<bv8>, t: seq<bv8>, i: int, b: int, n: int)
    requires TableShape(table) && |s| >= QOffset && |t| >= QOffset
    requires 0 <= i < QDiagonals && 0 <= b <= 1 && 0 <= n <= TableRows
    requires forall k :: HeaderOffset <= k < QOffset ==> s[k] == t[k]
    ensures QAcc(table, s, i, b, n) == QAcc(table, t, i, b, n)
  {
    if n > 0 {
      QAccReads(table, s, t, i, b, n - 1);
    }
  }

  /** The first n diagonals change only bytes 2248..2351. */
  lemma {:induction false} QUpToFrame(table: seq<seq<bv16>>, s: seq<bv8>, n: int)
    requires TableShape(table) && |s| >= SectorEnd && 0 <= n <= QDiagonals
    ensures forall k :: 0 <= k < |s| && !(QOffset <= k < SectorEnd) ==> QUpTo(table, s, n)[k] == s[k]
  {
    if n > 0 {
      QUpToFrame(table, s, n - 1);
    }
  }

  lemma QUpToKeepsData(table: seq<seq<bv16>>, s: seq<bv8>, n: int, b: int)
    requires TableShape(table) && |s| >= SectorEnd && 0 <= n < QDiagonals && 0 <= b <= 1
    ensures QAcc(table, QUpTo(table, s, n), n, b, TableRows) == QAcc(table, s, n, b, TableRows)
  {
    QUpToFrame(table, s, n);
    QAccReads(table, QUpTo(table, s, n), s, n, b, TableRows);
  }

  /** The accumulation along one diagonal, the inner loop of calc_q_parity. */
  method QDiagonal(table: seq<seq<bv16>>, sector: array<bv8>, i: int) returns (lsb: bv16, msb: bv16)
    requires TableShape(table) && sector.Length >= QOffset && 0 <= i < QDiagonals
    ensures lsb == QAcc(table, sector[..], i, 0, TableRows) && msb == QAcc(table, sector[..], i, 1, TableRows)
  {
    ghost var s := sector[..];
    var idx := HeaderOffset + i * 2 * 43;
    lsb, msb := 0, 0;
    for r := 0 to TableRows
      invariant idx == QIndex(i, r)
      invariant lsb == QAcc(table, s, i, 0, r) && msb == QAcc(table, s, i, 1, r)
    {
      var d0 := sector[idx];
      var d1 := sector[idx + 1];
      lsb := Xor(lsb, Lookup(table, r, d0));
      msb := Xor(msb, Lookup(table, r, d1));
      ghost var prev := idx;
      idx := idx + 2 * 44;
      if idx >= QOffset {
        idx := idx - 2 * 1118;
      }
      assert idx == QStep(prev);
    }
  }

  /** calc_q_parity. The source panics on a buffer shorter than 2352 bytes;
      here that is the precondition. */
  method CalcQParity(table: seq<seq<bv16>>, sector: array<bv8>)
    requires TableShape(table) && sector.Length >= SectorEnd
    modifies sector
    ensures sector[..] == WithQParity(table, old(sector[..]))
  {
    ghost var s := sector[..];
    for i := 0 to QDiagonals
      invariant sector[..] == QUpTo(table, s, i)
    {
      var lsb, msb := QDiagonal(table, sector, i);
      QUpToKeepsData(table, s, i, 0);
      QUpToKeepsData(table, s, i, 1);
      sector[QOffset + 2 * 26 + i * 2] := LowOf(lsb);
      sector[QOffset + 2 * 26 + i * 2 + 1] := LowOf(msb);
      sector[QOffset + i * 2] := HighOf(lsb);
      sector[QOffset + i * 2 + 1] := HighOf(msb);
    }
  }

  /** The stores of diagonal i put the low and high bytes of the accumulators
      at its four positions. */
  lemma QWriteOwn(s: seq<bv8>, i: int, lsb: bv16, msb: bv16)
    requires |s| >= SectorEnd && 0 <= i < QDiagonals
    ensures var r := QWrite(s, i, lsb, msb);
      r[QOffset + 52 + 2 * i] == LowOf(lsb) && r[QOffset + 52 + 2 * i + 1] == LowOf(msb) &&
      r[QOffset + 2 * i] == HighOf(lsb) && r[QOffset + 2 * i + 1] == HighOf(msb)
  {
  }

  /** The stores of diagonal j leave the bytes of every other diagonal alone. */
  lemma QWriteKeeps(s: seq<bv8>, j: int, lsb: bv16, msb: bv16, i: int)
    requires |s| >= SectorEnd && 0 <= i < QDiagonals && 0 <= j < QDiagonals && i != j
    ensures var r := QWrite(s, j, lsb, msb);
      r[QOffset + 52 + 2 * i] == s[QOffset + 52 + 2 * i] &&
      r[QOffset + 52 + 2 * i + 1] == s[QOffset + 52 + 2 * i + 1] &&
      r[QOffset + 2 * i] == s[QOffset + 2 * i] && r[QOffset + 2 * i + 1] == s[QOffset + 2 * i + 1]
  {
  }

  /** After the first n diagonals, each diagonal i < n holds its parity. */
  lemma {:induction false} QUpToDiagonal(table: seq<seq<bv16>>, s: seq<bv8>, n: int, i: int)
    requires TableShape(table) && |s| >= SectorEnd && 0 <= i < n <= QDiagonals
    ensures var r, lsb, msb := QUpTo(table, s, n), QAcc(table, s, i, 0, TableRows), QAcc(table, s, i, 1, TableRows);
      r[QOffset + 52 + 2 * i] == LowOf(lsb) && r[QOffset + 52 + 2 * i + 1] == LowOf(msb) &&
      r[QOffset + 2 * i] == HighOf(lsb) && r[QOffset + 2 * i + 1] == HighOf(msb)
  {
    var lsb, msb := QAcc(table, s, n - 1, 0, TableRows), QAcc(table, s, n - 1, 1, TableRows);
    if i == n - 1 {
      QWriteOwn(QUpTo(table, s, n - 1), i, lsb, msb);
    } else {
      QUpToDiagonal(table, s, n - 1, i);
      QWriteKeeps(QUpTo(table, s, n - 1), n - 1, QAcc(table, s, n - 1, 0, TableRows), QAcc(table, s, n - 1, 1, TableRows), i);
    }
  }

  /** calc_q_parity stores, for each diagonal i, Q0 = the low bytes of the two
      accumulators at 2300 + 2i and Q1 = the high bytes at 2248 + 2i. */
  lemma QParityLayout(table: seq<seq<bv16>>, s: seq<bv8>, i: int)
    requires TableShape(table) && |s| >= SectorEnd && 0 <= i < QDiagonals
    ensures var r, lsb, msb := WithQParity(table, s), QAcc(table, s, i, 0, TableRows), QAcc(table, s, i, 1, TableRows);
      r[QOffset + 52 + 2 * i] == LowOf(lsb) && r[QOffset + 52 + 2 * i + 1] == LowOf(msb) &&
      r[QOffset + 2 * i] == HighOf(lsb) && r[QOffset + 2 * i + 1] == HighOf(msb)
  {
    QUpToDiagonal(table, s, QDiagonals, i);
  }

  /** calc_q_parity changes no byte outside 2248..2351. */
  lemma QParityFrame(table: seq<seq<bv16>>, s: seq<bv8>)
    requires TableShape(table) && |s| >= SectorEnd
    ensures forall k :: 0 <= k < |s| && !(QOffset <= k < SectorEnd) ==> WithQParity(table, s)[k] == s[k]
  {
    QUpToFrame(table, s, QDiagonals);
  }

  /** Byte 2248 + off of the Q parity belongs to diagonal `(off mod 52) / 2`. */
  lemma QByteReads(table: seq<seq<bv16>>, s: seq<bv8>, t: seq<bv8>, off: int)
    requires TableShape(table) && |s| >= SectorEnd && |t| == |s| && 0 <= off < 104
    requires forall k :: HeaderOffset <= k < QOffset ==> s[k] == t[k]
    ensures WithQParity(table, s)[QOffset + off] == WithQParity(table, t)[QOffset + off]
  {
    var h := if off < 52 then 0 else 52;
    var i := (off - h) / 2;
    assert off == h + 2 * i || off == h + 2 * i + 1;
    QParityLayout(table, s, i);
    QParityLayout(table, t, i);
    QAccReads(table, s, t, i, 0, TableRows);
    QAccReads(table, s, t, i, 1, TableRows);
  }

  /** The Q parity depends on bytes 12..2247 only, the P parity included. */
  lemma QParityReads(table: seq<seq<bv16>>, s: seq<bv8>, t: seq<bv8>)
    requires TableShape(table) && |s| >= SectorEnd && |t| == |s|
    requires forall k :: HeaderOffset <= k < QOffset ==> s[k] == t[k]
    ensures WithQParity(table, s)[QOffset..SectorEnd] == WithQParity(table, t)[QOffset..SectorEnd]
  {
    forall k | QOffset <= k < SectorEnd
      ensures WithQParity(table, s)[k] == WithQParity(table, t)[k]
    {
      QByteReads(table, s, t, k - QOffset);
    }
  }

  /** A sector whose P field already holds its own P parity is left as it is. */
  lemma PParityFixed(table: seq<seq<bv16>>, s: seq<bv8>)
    requires TableShape(table) && |s| >= QOffset
    requires WithPParity(table, s)[POffset..QOffset] == s[POffset..QOffset]
    ensures WithPParity(table, s) == s
  {
    var r := WithPParity(table, s);
    PParityFrame(table, s);
    forall k | POffset <= k < QOffset
      ensures r[k] == s[k]
    {
      assert r[k] == r[POffset..QOffset][k - POffset];
    }
  }

  /** A sector whose Q field already holds its own Q parity is left as it is. */
  lemma QParityFixed(table: seq<seq<bv16>>, s: seq<bv8>)
    requires TableShape(table) && |s| >= SectorEnd
    requires WithQParity(table, s)[QOffset..SectorEnd] == s[QOffset..SectorEnd]
    ensures WithQParity(table, s) == s
  {
    var r := WithQParity(table, s);
    QParityFrame(table, s);
    forall k | QOffset <= k < SectorEnd
      ensures r[k] == s[k]
    {
      assert r[k] == r[QOffset..SectorEnd][k - QOffset];
    }
  }

  // ---------------------------------------------------------------------
  // What the accumulations compute
  // ---------------------------------------------------------------------

  /** The table built by init_gf8_q_coeffs_table has the shape the parity
      routines require. */
  lemma QCoeffTableShape()
    ensures TableShape(QCoeffTable())
  {
  }

  /** The GF(2^8) dot product of the first n coefficients c with the first n
      data bytes d. */
  ghost function Gf8Dot(c: seq<bv8>, d: seq<bv8>, n: nat): bv8
    requires n <= |c| && n <= |d|
  {
    if n == 0 then 0 else Gf8Add(Gf8Dot(c, d, n - 1), Gf8Mul(d[n - 1], c[n - 1]))
  }

  /** Xor of packed entries is GF(2^8) addition in each byte. */
  lemma XorBytes(a: bv16, e: bv16)
    ensures LowOf(Xor(a, e)) == Gf8Add(LowOf(a), LowOf(e))
    ensures HighOf(Xor(a, e)) == Gf8Add(HighOf(a), HighOf(e))
  {
  }

  /** table is a packed product table for the coefficient rows c0 and c1:
      entry x of row j holds x * c0[j] in its low byte and x * c1[j] in its
      high byte. */
  ghost predicate ProductTable(table: seq<seq<bv16>>, c0: seq<bv8>, c1: seq<bv8>)
  {
    TableShape(table) && |c0| == TableRows && |c1| == TableRows &&
    forall j, x :: 0 <= j < TableRows ==>
      LowOf(Lookup(table, j, x)) == Gf8Mul(x, c0[j]) && HighOf(Lookup(table, j, x)) == Gf8Mul(x, c1[j])
  }

  /** One entry of a product table. */
  lemma ProductAt(table: seq<seq<bv16>>, c0: seq<bv8>, c1: seq<bv8>, j: int, x: bv8)
    requires ProductTable(table, c0, c1) && 0 <= j < TableRows
    ensures LowOf(Lookup(table, j, x)) == Gf8Mul(x, c0[j]) && HighOf(Lookup(table, j, x)) == Gf8Mul(x, c1[j])
  {
  }

  /** A lookup in GF8_Q_COEFFS_TABLE multiplies the byte by the two
      coefficients of its row. */
  lemma LookupProducts(j: int, x: bv8)
    requires 0 <= j < TableRows
    ensures TableShape(QCoeffTable()) && Divisible(LogTable(), IlogTable())
    ensures LowOf(Lookup(QCoeffTable(), j, x)) == Gf8Mul(x, Q0Row(LogTable(), IlogTable())[j])
    ensures HighOf(Lookup(QCoeffTable(), j, x)) == Gf8Mul(x, Q1Row(LogTable(), IlogTable())[j])
  {
    QCoeffTableShape();
    QCoeffTableProducts(j, Ix(x));
    ToByteIx(x);
  }

  /** GF8_Q_COEFFS_TABLE is the product table of the Q coefficients. */
  lemma QCoeffTableIsProductTable()
    ensures Divisible(LogTable(), IlogTable())
    ensures ProductTable(QCoeffTable(), Q0Row(LogTable(), IlogTable()), Q1Row(LogTable(), IlogTable()))
  {
    DivisorsNonzero();
    QCoeffTableShape();
    forall j, x | 0 <= j < TableRows
      ensures LowOf(Lookup(QCoeffTable(), j, x)) == Gf8Mul(x, Q0Row(LogTable(), IlogTable())[j])
      ensures HighOf(Lookup(QCoeffTable(), j, x)) == Gf8Mul(x, Q1Row(LogTable(), IlogTable())[j])
    {
      LookupProducts(j, x);
    }
  }

  /** Byte b of the 24 words of column i, top to bottom. */
  ghost function PColumnBytes(s: seq<bv8>, i: int, b: int): (w: seq<bv8>)
    requires |s| >= POffset && 0 <= i < PColumns && 0 <= b <= 1
    ensures |w| == PRows
  {
    seq(PRows, r requires 0 <= r < PRows => s[PIndex(i, r) + b])
  }

  /** Over a product table the P accumulators are dot products: the low byte
      with the parity-0 coefficients of rows 19..42, the high byte with the
      parity-1 coefficients. */
  lemma {:induction false} PAccProducts(table: seq<seq<bv16>>, c0: seq<bv8>, c1: seq<bv8>, s: seq<bv8>, i: int, b: int, n: int)
    requires ProductTable(table, c0, c1)
    requires |s| >= POffset && 0 <= i < PColumns && 0 <= b <= 1 && 0 <= n <= PRows
    ensures var acc := PAcc(table, s, i, b, n);
      LowOf(acc) == Gf8Dot(c0[PFirstRow..], PColumnBytes(s, i, b), n) &&
      HighOf(acc) == Gf8Dot(c1[PFirstRow..], PColumnBytes(s, i, b), n)
  {
    if n > 0 {
      PAccProducts(table, c0, c1, s, i, b, n - 1);
      PAccStep(table, c0, c1, s, i, b, n);
    }
  }

  /** One row of a P accumulation adds the row's product to each byte. */
  lemma PAccStep(table: seq<seq<bv16>>, c0: seq<bv8>, c1: seq<bv8>, s: seq<bv8>, i: int, b: int, n: int)
    requires ProductTable(table, c0, c1)
    requires |s| >= POffset && 0 <= i < PColumns && 0 <= b <= 1 && 0 < n <= PRows
    ensures var acc, prev, w := PAcc(table, s, i, b, n), PAcc(table, s, i, b, n - 1), PColumnBytes(s, i, b);
      LowOf(acc) == Gf8Add(LowOf(prev), Gf8Mul(w[n - 1], c0[PFirstRow..][n - 1])) &&
      HighOf(acc) == Gf8Add(HighOf(prev), Gf8Mul(w[n - 1], c1[PFirstRow..][n - 1]))
  {
    var x := s[PIndex(i, n - 1) + b];
    var prev, e := PAcc(table, s, i, b, n - 1), Lookup(table, PFirstRow + n - 1, x);
    XorBytes(prev, e);
    ProductAt(table, c0, c1, PFirstRow + n - 1, x);
    assert PColumnBytes(s, i, b)[n - 1] == x;
    assert c0[PFirstRow..][n - 1] == c0[PFirstRow + n - 1] && c1[PFirstRow..][n - 1] == c1[PFirstRow + n - 1];
  }

  /** Over a product table, calc_p_parity stores as P0 of column i (byte b of
      word 43 + i) the dot product of the column with the parity-0
      coefficients of rows 19..42, and as P1 (word i) that with the parity-1
      coefficients. */
  lemma PParityCode(table: seq<seq<bv16>>, c0: seq<bv8>, c1: seq<bv8>, s: seq<bv8>, i: int, b: int)
    requires ProductTable(table, c0, c1)
    requires |s| >= QOffset && 0 <= i < PColumns && 0 <= b <= 1
    ensures var r, w := WithPParity(table, s), PColumnBytes(s, i, b);
      r[POffset + PStride + 2 * i + b] == Gf8Dot(c0[PFirstRow..], w, PRows) &&
      r[POffset + 2 * i + b] == Gf8Dot(c1[PFirstRow..], w, PRows)
  {
    PParityLayout(table, s, i);
    PAccProducts(table, c0, c1, s, i, b, PRows);
  }

  /** Byte b of the 43 words of diagonal i, in the order Q reads them. */
  ghost function QDiagonalBytes(s: seq<bv8>, i: int, b: int): (w: seq<bv8>)
    requires |s| >= QOffset && 0 <= i < QDiagonals && 0 <= b <= 1
    ensures |w| == TableRows
  {
    seq(TableRows, r requires 0 <= r < TableRows => s[QIndex(i, r) + b])
  }

  /** Over a product table the Q accumulators are dot products with the
      coefficients of rows 0..42. */
  lemma {:induction false} QAccProducts(table: seq<seq<bv16>>, c0: seq<bv8>, c1: seq<bv8>, s: seq<bv8>, i: int, b: int, n: int)
    requires ProductTable(table, c0, c1)
    requires |s| >= QOffset && 0 <= i < QDiagonals && 0 <= b <= 1 && 0 <= n <= TableRows
    ensures var acc := QAcc(table, s, i, b, n);
      LowOf(acc) == Gf8Dot(c0, QDiagonalBytes(s, i, b), n) &&
      HighOf(acc) == Gf8Dot(c1, QDiagonalBytes(s, i, b), n)
  {
    if n > 0 {
      QAccProducts(table, c0, c1, s, i, b, n - 1);
      QAccStep(table, c0, c1, s, i, b, n);
    }
  }

  /** One row of a Q accumulation adds the row's product to each byte. */
  lemma QAccStep(table: seq<seq<bv16>>, c0: seq<bv8>, c1: seq<bv8>, s: seq<bv8>, i: int, b: int, n: int)
    requires ProductTable(table, c0, c1)
    requires |s| >= QOffset && 0 <= i < QDiagonals && 0 <= b <= 1 && 0 < n <= TableRows
    ensures var acc, prev, w := QAcc(table, s, i, b, n), QAcc(table, s, i, b, n - 1), QDiagonalBytes(s, i, b);
      LowOf(acc) == Gf8Add(LowOf(prev), Gf8Mul(w[n - 1], c0[n - 1])) &&
      HighOf(acc) == Gf8Add(HighOf(prev), Gf8Mul(w[n - 1], c1[n - 1]))
  {
    var x := s[QIndex(i, n - 1) + b];
    var prev, e := QAcc(table, s, i, b, n - 1), Lookup(table, n - 1, x);
    XorBytes(prev, e);
    ProductAt(table, c0, c1, n - 1, x);
    assert QDiagonalBytes(s, i, b)[n - 1] == x;
  }

  /** Over a product table, calc_q_parity stores as Q0 of diagonal i the dot
      product of the diagonal with the parity-0 coefficients, and as Q1 that
      with the parity-1 coefficients. */
  lemma QParityCode(table: seq<seq<bv16>>, c0: seq<bv8>, c1: seq<bv8>, s: seq<bv8>, i: int, b: int)
    requires ProductTable(table, c0, c1)
    requires |s| >= SectorEnd && 0 <= i < QDiagonals && 0 <= b <= 1
    ensures var r, w := WithQParity(table, s), QDiagonalBytes(s, i, b);
      r[QOffset + 52 + 2 * i + b] == Gf8Dot(c0, w, TableRows) &&
      r[QOffset + 2 * i + b] == Gf8Dot(c1, w, TableRows)
  {
    QParityLayout(table, s, i);
    QAccProducts(table, c0, c1, s, i, b, TableRows);
  }
}
