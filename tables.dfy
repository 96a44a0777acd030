/**
 * The lookup tables of src/edc_ecc/edcre.rs. The source keeps them in
 * lazily initialised globals, filled once by ensure_tables_initialized; here
 * they are one value, built by the same four initialisers, which the EDC and
 * ECC routines receive as a parameter.
 */
module Tables {
  import opened Edc
  import opened Gf8
  import opened QCoeffs
  import opened Parity

  /** CRC_TABLE, GF8_LOG, GF8_ILOG and GF8_Q_COEFFS_TABLE. */
  datatype Tables = Tables(crc: seq<bv32>, log: seq<bv8>, ilog: seq<bv8>, qcoeffs: seq<seq<bv16>>)

  /** The sizes the routines index by. */
  predicate Shaped(t: Tables)
  {
    |t.crc| == 256 && |t.log| == 256 && |t.ilog| == 256 && TableShape(t.qcoeffs)
  }

  /** The tables hold the values their initialisers compute. */
  ghost predicate Initialized(t: Tables)
  {
    t.crc == CrcTable() && t.log == LogTable() && t.ilog == IlogTable() && t.qcoeffs == QCoeffTable()
  }

  /** Initialized tables have the right sizes, and the Q coefficient table is
      the product table of the Q coefficients. */
  lemma InitializedShaped(t: Tables)
    requires Initialized(t)
    ensures Shaped(t)
    ensures Divisible(LogTable(), IlogTable())
    ensures ProductTable(t.qcoeffs, Q0Row(LogTable(), IlogTable()), Q1Row(LogTable(), IlogTable()))
  {
    QCoeffTableShape();
    QCoeffTableIsProductTable();
  }

  /** ensure_tables_initialized: the GF(2^8) tables first, then the CRC table,
      then the Q coefficient table, which is built from the GF(2^8) tables. */
  method EnsureTablesInitialized() returns (t: Tables)
    ensures Initialized(t) && Shaped(t)
  {
    var log, ilog := InitGf8Tables();
    var crc := InitCrcTable();
    var qcoeffs := InitGf8QCoeffsTable(log, ilog);
    t := Tables(crc, log, ilog, qcoeffs);
    InitializedShaped(t);
  }
}
