# CD-ROM Mode 1 sector encoder in Dafny

This project models the part of the ISO-to-raw converter that turns one
2048-byte ISO block and its logical block address (LBA) into a 2352-byte
CD-ROM Mode 1 raw sector. The sector holds:

- a 12-byte sync pattern;
- a 4-byte header: the BCD minute:second:frame address and the mode byte 0x01;
- the 2048 user bytes;
- a 4-byte EDC (the 32-bit CRC of clause 14 of ECMA-130, polynomial 0x8001801B, stored little-endian);
- 8 zero bytes;
- 172 bytes of P parity and 104 bytes of Q parity, from the Reed-Solomon product-like code of Annex A of ECMA-130 over GF(2^8) with polynomial 0x11D.

Modules, one per concern of src/edc_ecc/edcre.rs and src/converter/mod.rs:

- `Edc` (edc.dfy):
  - `mirror_bits` as a loop;
  - the CRC table and the loop that builds it, proved to be the reflected (LSB-first) table of the polynomial;
  - `calc_edc` as a loop proved against a byte-by-byte fold;
  - `calc_mode1_edc` as four in-place stores into the sector array.
- `Gf8` (gf8.dfy):
  - `init_gf8_tables`, proved to produce the log and antilog tables of the generator alpha = x, which is shown to have order 255;
  - `gf8_add`, and `gf8_div` with the tables as parameters.
- `QCoeffs` (qcoeffs.dfy):
  - `init_gf8_q_coeffs_table`: the five 45-column passes over the coefficient arrays, including the in-place divisor quirk, followed by the 43x256 table of packed products.
- `Parity` (parity.dfy):
  - `calc_p_parity` and `calc_q_parity` as in-place loops over a sector array;
  - each is proved equal to a function on the byte sequence;
  - index bounds, the Q wrap and the read and write regions are proved;
  - every parity byte is shown to be a GF(2^8) dot product of the bytes it covers.
- `Tables` (tables.dfy):
  - the four lazily initialised tables, as one value;
  - the `ensure_tables_initialized` sequence that builds them.
- `Converter` (converter.dfy):
  - `SectorAddress` as a datatype;
  - `Mode1Sector` as a class with one sequence field per struct field;
  - `to_bytes` writing a caller's array through a running offset;
  - `calculate_edc_ecc` running the three routines on a scratch array;
  - `convert_iso_to_raw`.

Rust's `u8`, `u16` and `u32` are `bv8`, `bv16` and `bv32` wherever the code
depends on bits being dropped (the shifts in `mirror_bits` and the CRC table,
the 16-bit accumulator of `init_gf8_tables`, the `(x & 0xff) as u8`
narrowings). Index arithmetic is on `int`. A Rust slice or `Vec` the code
changes (`sector: &mut [u8]`, the `to_bytes` buffer) is an `array<bv8>`. A
fixed table the code only reads is a `seq`.

Every routine takes the tables it reads as parameters:

- `CalcEdc` and `CalcMode1Edc` take the CRC table;
- `CalcPParity` and `CalcQParity` take the Q coefficient table;
- `Mode1Sector.CalculateEdcEcc` and `ConvertIsoToRaw` take a `Tables` value.

Their contracts hold for any tables of the right shape. The values the
source uses are the ones `Tables.EnsureTablesInitialized` returns
(`Initialized`).

## Model

| member | source | states |
|---|---|---|
| Edc.MirrorBits | src/edc_ecc/edcre.rs:21-34 | The loop returns `Mirror(d, bits)`, the value built by shifting `d`'s bits out low-first. |
| Edc.MirrorReverses | src/edc_ecc/edcre.rs:21-34 | For `n <= 32`, bit k of `mirror_bits(d, n)` is bit n-1-k of d for k < n, and bits n..31 are 0, so the result is below 2^n. |
| Edc.MirrorTwice8 | src/edc_ecc/edcre.rs:21-34 | Mirroring a value below 256 over 8 bits twice returns it. |
| Edc.MirrorZero | src/edc_ecc/edcre.rs:21-34 | Mirroring 0 gives 0 for any width. |
| Edc.DivideRounds | src/edc_ecc/edcre.rs:43-50 | The inner 8-round loop equals eight rounds of shift-and-conditionally-xor with 0x8001801B, the top bit dropping out of the u32. |
| Edc.ComputeEntry | src/edc_ecc/edcre.rs:40-53 | One table entry: mirror i over 8 bits, shift left by 24, divide for 8 rounds, mirror over 32 bits. |
| Edc.ToWordValue | src/edc_ecc/edcre.rs:39-40 | The `i as u32` index conversion preserves i for 0..255. |
| Edc.CrcFillStep | src/edc_ecc/edcre.rs:39-54 | Storing entry i in a table whose first i entries are right makes the first i+1 right. |
| Edc.CrcFillDone | src/edc_ecc/edcre.rs:36-57 | A 256-entry table with all entries right is `CrcTable()`. |
| Edc.InitCrcTable | src/edc_ecc/edcre.rs:36-57 | `init_crc_table` returns exactly `CrcTable()`, entry i being `ComputeEntry(i)`. |
| Edc.CrcTableZero | src/edc_ecc/edcre.rs:36-57 | Entry 0 of the CRC table is 0. |
| Edc.CrcEntry | src/edc_ecc/edcre.rs:40-53 | The entry the loop body computes for byte i. What it is, independently of the mirroring, is stated by `Edc.CrcTableReflected`. |
| Edc.CrcTable | src/edc_ecc/edcre.rs:36-57 | The 256 entries `init_crc_table` fills. `Edc.InitCrcTable` proves the loop builds it, and `Edc.CrcTableReflected` proves it is the reflected CRC table. |
| Edc.MirrorPoly | src/edc_ecc/edcre.rs:14 | 0x8001801B mirrored over 32 bits is 0xD8018001. |
| Edc.MirrorRound | src/edc_ecc/edcre.rs:43-50 | Mirroring over 32 bits turns one MSB-first division round with 0x8001801B into one LSB-first round with 0xD8018001: shift right, and xor in 0xD8018001 when the bit shifted out was set. |
| Edc.MirrorRounds | src/edc_ecc/edcre.rs:43-50 | The same holds for any number of rounds. |
| Edc.MirrorTwice32 | src/edc_ecc/edcre.rs:21-34 | Mirroring a word over 32 bits twice returns it. |
| Edc.StartWord | src/edc_ecc/edcre.rs:40-41 | For a byte i, the start word `mirror_bits(i, 8) << 24` is i mirrored over 32 bits, so mirroring it back gives i. |
| Edc.CrcTableReflected | src/edc_ecc/edcre.rs:36-57 | For every i < 256, entry i is eight LSB-first rounds with 0xD8018001 starting from i. This is the reflected table of the CRC polynomial 0x8001801B. |
| Edc.Edc | src/edc_ecc/edcre.rs:179-190 | The byte-by-byte fold that models `calc_edc`. `Edc.CalcEdc` proves the loop computes it. `Edc.EdcFromAppend` and `Edc.EdcSnoc` state how it extends. |
| Edc.CalcEdc | src/edc_ecc/edcre.rs:179-190 | The loop over the data returns `Edc(table, data)`, the fold of `crc = table[(crc ^ b) & 0xff] ^ (crc >> 8)` from 0. |
| Edc.EdcFromAppend | src/edc_ecc/edcre.rs:183-189 | Folding `a + b` is folding `b` from the result of folding `a`. |
| Edc.EdcSnoc | src/edc_ecc/edcre.rs:185-187 | `calc_edc(s ++ [b])` is one step `table[(crc ^ b) & 0xff] ^ (crc >> 8)` from `calc_edc(s)`. |
| Edc.EdcFromZeros | src/edc_ecc/edcre.rs:183-189 | With `table[0] == 0`, a run of zero bytes leaves a zero CRC at 0. |
| Edc.EdcOfZeros | tests/edc_ecc_test.rs:7-9 | With the real CRC table, the EDC of any number of zero bytes is 0. |
| Edc.Le32RoundTrip | src/edc_ecc/edcre.rs:195-198 | The four bytes stored by `calc_mode1_edc` read back, little-endian, as the CRC. |
| Edc.WithMode1Edc | src/edc_ecc/edcre.rs:192-199 | `calc_mode1_edc` as a function on the sector bytes. Its layout is stated by `Edc.WithMode1EdcLayout`, and its fixed point by `Edc.Mode1EdcFixed`. |
| Edc.WithMode1EdcLayout | src/edc_ecc/edcre.rs:192-199 | After `calc_mode1_edc` the length is the same, bytes 2064..2067 read back as the EDC of bytes 0..2063, and no other byte changes. |
| Edc.Mode1EdcFixed | src/edc_ecc/edcre.rs:192-199 | A sector whose EDC field already holds its EDC comes back unchanged. |
| Edc.FourStores | src/edc_ecc/edcre.rs:195-198 | The four byte stores equal splicing the little-endian word into bytes 2064..2067. |
| Edc.CalcMode1Edc | src/edc_ecc/edcre.rs:192-199 | The in-place routine leaves the array equal to `WithMode1Edc` of its old contents. The source panics on a sector shorter than 2068 bytes, which is the precondition here. |
| Gf8.ToByteIx | src/edc_ecc/edcre.rs:66-67 | Reading a byte as an index and narrowing it back gives the byte. |
| Gf8.IxToByte | src/edc_ecc/edcre.rs:66-67 | Narrowing an index below 256 to a byte and reading it back gives the index. |
| Gf8.Exp | src/edc_ecc/edcre.rs:63-74 | alpha^k, the accumulator `b` at iteration k, is never 0. |
| Gf8.MulXInjective | src/edc_ecc/edcre.rs:69-73 | Multiplication by alpha (shift, reduce by 0x11D) is injective on bytes. |
| Gf8.AccumulatorStep | src/edc_ecc/edcre.rs:69-73 | The u16 step `b <<= 1; if b & 0x100 != 0 { b ^= 0x11d }` is multiplication by alpha on the low byte. |
| Gf8.WidenValue | src/edc_ecc/edcre.rs:63-67 | The u16 accumulator holds a byte value, and `b as u8` returns it. |
| Gf8.ExpCancel | src/edc_ecc/edcre.rs:63-74 | `Exp(i) == Exp(j)` with i <= j implies `Exp(j - i) == 1`. |
| Gf8.NoUnitInSound | src/edc_ecc/edcre.rs:63-74 | The power-by-power check has no power equal to 1 in its range. |
| Gf8.LowerPowers | src/edc_ecc/edcre.rs:63-74 | alpha^128 = 0x85 and no power in 1..127 is 1. |
| Gf8.UpperPowers | src/edc_ecc/edcre.rs:63-74 | alpha^255 = 1 and no power in 128..254 is 1. |
| Gf8.GeneratorOrder | src/edc_ecc/edcre.rs:13 | alpha has order exactly 255 modulo 0x11D: alpha^255 = 1 and alpha^d != 1 for 0 < d < 255. |
| Gf8.ExpInjective | src/edc_ecc/edcre.rs:65-67 | The 255 powers alpha^0..alpha^254 are distinct, so no log_table slot is written twice. |
| Gf8.LogUpTo | src/edc_ecc/edcre.rs:65-67 | The log_table entry for x after n iterations: an exponent below n (the one whose power is x), or the initial 0. |
| Gf8.LogOf | src/edc_ecc/edcre.rs:65-67 | The discrete logarithm is below 255. |
| Gf8.LogUpToPower | src/edc_ecc/edcre.rs:65-67 | The search finds k for alpha^k when k < n <= 255. |
| Gf8.LogUpToAbsent | src/edc_ecc/edcre.rs:60 | A value that is no power below n gets 0, the initial log_table entry. |
| Gf8.LogOfIs | src/edc_ecc/edcre.rs:65-67 | The logarithm of alpha^k is k, for k < 255. |
| Gf8.LogUpToIsLogOf | src/edc_ecc/edcre.rs:65-67 | The search over all 255 exponents is the logarithm. |
| Gf8.LogOfExp | src/edc_ecc/edcre.rs:65-67 | log(alpha^k) = k for k < 255. |
| Gf8.PowersBelowSize | src/edc_ecc/edcre.rs:63-74 | The first n powers of alpha are n distinct values, for n <= 255. |
| Gf8.NewPower | src/edc_ecc/edcre.rs:63-74 | alpha^(n-1) differs from every earlier power, for n <= 255. |
| Gf8.PowersCoverBytes | src/edc_ecc/edcre.rs:63-74 | Every nonzero byte is a power alpha^k with k < 255. The loop's 255 powers therefore enumerate the whole multiplicative group. |
| Gf8.ExpLogOf | src/edc_ecc/edcre.rs:65-67 | For every nonzero byte x, alpha^log(x) = x. |
| Gf8.TablesStep | src/edc_ecc/edcre.rs:65-74 | One iteration stores `log_table[alpha^k] = k` and `ilog_table[k] = alpha^k`, keeping the partial-table invariant. |
| Gf8.FinalTables | src/edc_ecc/edcre.rs:59-77 | After 255 iterations the two arrays are `LogTable()` and `IlogTable()`. |
| Gf8.InitGf8Tables | src/edc_ecc/edcre.rs:59-77 | `init_gf8_tables` returns exactly `(LogTable(), IlogTable())`. |
| Gf8.LogIlogInverse | src/edc_ecc/edcre.rs:59-77 | For every log in 0..254, `ilog[log]` is nonzero and `log_table[ilog[log]] == log`. For every nonzero x, `ilog[log_table[x]] == x`. Also `ilog[0] == 1`, `ilog[1] == 2`, `log_table[0] == 0`, `ilog[255] == 0`, and every log entry is below 255. |
| Gf8.Gf8Add | src/edc_ecc/edcre.rs:79-81 | Addition is xor: subtracting either operand (xor again) yields the other. |
| Gf8.DivIndex | src/edc_ecc/edcre.rs:95-99 | The i16 difference plus 255 when negative lies in 0..255 and is the difference mod 255 when that is below 255. |
| Gf8.DivIndexRange | src/edc_ecc/edcre.rs:95-101 | For logs of nonzero values the index lies in 0..254 and is (log a - log b) mod 255. |
| Gf8.Gf8Div | src/edc_ecc/edcre.rs:83-102 | `gf8_div` through the given tables. Its meaning is stated by `Gf8.Gf8DivTables`, `Gf8.Gf8DivPowers` and `Gf8.Gf8DivSelf`. |
| Gf8.Gf8DivTables | src/edc_ecc/edcre.rs:83-102 | With the real tables and b != 0: a == 0 gives 0; otherwise the result is `ilog[(log a - log b) mod 255]`, which is nonzero. b == 0 (the panic) is the precondition. |
| Gf8.Gf8DivPowers | src/edc_ecc/edcre.rs:83-102 | alpha^i / alpha^j = alpha^((i - j) mod 255). |
| Gf8.ExpInverse | src/edc_ecc/edcre.rs:83-102 | alpha^254, the inverse of alpha, is 0x8E. |
| Gf8.Gf8DivSelf | src/edc_ecc/edcre.rs:83-102 | a / a = 1 for a != 0. |
| Gf8.Gf8MulPowers | src/edc_ecc/edcre.rs:150-161 | The log-add multiplication used for the products maps alpha^i, alpha^j to alpha^((i + j) mod 255). |
| QCoeffs.Q1 | src/edc_ecc/edcre.rs:122-129 | Column j of e1'', divided by the divisor as the loop reads it. `QCoeffs.SolveCoefficients` proves the loops compute it, and `QCoeffs.Q1Nonzero` proves it is nonzero. |
| QCoeffs.Q0 | src/edc_ecc/edcre.rs:132-142 | Column j of e0'' = e0' / e0'[44]. `QCoeffs.SolveCoefficients` proves the loops compute it, and `QCoeffs.Q0Nonzero` proves it is nonzero. |
| QCoeffs.Q1Divisor | src/edc_ecc/edcre.rs:127-129 | The divisor read for column j is e1'[43] for j <= 43, and the already-normalised e1''[43] for j = 44. It is nonzero whenever the tables are `Divisible`. |
| QCoeffs.DivisorsNonzero | src/edc_ecc/edcre.rs:126-142 | With the real tables every divisor `init_gf8_q_coeffs_table` passes to `gf8_div` is nonzero: `ilog[1] = 2`, e1'[43] = 3, e1''[43] = 3/3 = 1, e0'[44] = 0x8F. Bootstrap never panics. |
| QCoeffs.Q1ColumnQuirkHarmless | src/edc_ecc/edcre.rs:127-129 | Column 44 is divided by the normalised value, not by e1'[43], and gets 0. Only columns 0..42 reach the table. |
| QCoeffs.Help1Power | src/edc_ecc/edcre.rs:114-117 | Row 1 of H is alpha^(44-j). |
| QCoeffs.Gf8DivNonzero | src/edc_ecc/edcre.rs:83-102 | A quotient of nonzero values is nonzero. |
| QCoeffs.Q1Nonzero | src/edc_ecc/edcre.rs:122-129 | Each Q1 coefficient of columns 0..42 is nonzero. |
| QCoeffs.Q0Nonzero | src/edc_ecc/edcre.rs:132-142 | Each Q0 coefficient of columns 0..42 is nonzero. |
| QCoeffs.CoefficientsNonzero | src/edc_ecc/edcre.rs:122-142 | Both coefficients of each column 0..42 are nonzero. |
| QCoeffs.PackBytes | src/edc_ecc/edcre.rs:155-161 | Packing the Q0 product in the low byte and the Q1 product in the high byte keeps both. |
| QCoeffs.ReduceExponent | src/edc_ecc/edcre.rs:151-154 | One conditional subtraction of 255 leaves the exponent sum in 0..255. |
| QCoeffs.ExponentBelow255 | src/edc_ecc/edcre.rs:151-160 | For logs below 255 the exponent `c` is below 255 after the subtraction and equals their sum mod 255. |
| QCoeffs.TableOf | src/edc_ecc/edcre.rs:145-163 | The product table has 43 rows of 256 entries. |
| QCoeffs.QCoeffTable | src/edc_ecc/edcre.rs:104-166 | `GF8_Q_COEFFS_TABLE` is 43 x 256. |
| QCoeffs.LogProductIsProduct | src/edc_ecc/edcre.rs:150-161 | `ilog[(log i + log q) reduced]` is the GF(2^8) product i * q for i, q nonzero. |
| QCoeffs.QCoeffTableEntry | src/edc_ecc/edcre.rs:147-163 | Each entry is the packed pair of products of i with the column's Q0 and Q1. |
| QCoeffs.QCoeffTableProducts | src/edc_ecc/edcre.rs:144-163 | Entry 0 of every row is 0; the low byte of entry [j][i] is i * Q0[j] and the high byte is i * Q1[j]. |
| QCoeffs.FillH | src/edc_ecc/edcre.rs:114-117 | The H loop sets row 0 to ones and row 1 to `ilog[44 - j]`. |
| QCoeffs.AddRows | src/edc_ecc/edcre.rs:122-124 | e1' = e1 + e0, column by column. |
| QCoeffs.NormaliseQ1 | src/edc_ecc/edcre.rs:127-129 | The in-place division by `gf8_q_coeffs[1][43]` yields Q1 for every column, the quirk of column 44 included. |
| QCoeffs.SubstituteQ0 | src/edc_ecc/edcre.rs:132-137 | e0' = e0 + e1 / ilog[1]. |
| QCoeffs.NormaliseQ0 | src/edc_ecc/edcre.rs:140-142 | e0'' = e0' / e0'[44]. |
| QCoeffs.SolveCoefficients | src/edc_ecc/edcre.rs:108-142 | The five passes return Q0 and Q1 for all 45 columns. |
| QCoeffs.RowStep | src/edc_ecc/edcre.rs:147-163 | Appending a finished row keeps the rows-so-far invariant. |
| QCoeffs.MulByLogs | src/edc_ecc/edcre.rs:151-155 | The log-add-reduce-antilog step computes `LogProduct`. |
| QCoeffs.TableOfPrefix | src/edc_ecc/edcre.rs:147 | Only the first 43 columns of the coefficient arrays reach the table. |
| QCoeffs.BuildTable | src/edc_ecc/edcre.rs:144-165 | The nested loops build `TableOf` the coefficients. |
| QCoeffs.InitGf8QCoeffsTable | src/edc_ecc/edcre.rs:104-166 | With the real GF(2^8) tables, `init_gf8_q_coeffs_table` returns exactly `QCoeffTable()`. |
| Parity.PIndexRange | src/edc_ecc/edcre.rs:208-222 | Every P read (`p_lsb_idx` and `p_lsb_idx + 1`, column i, row r) lies in 12..2075. |
| Parity.PWrite | src/edc_ecc/edcre.rs:224-230 | The four stores of a column keep the sector length. |
| Parity.PUpTo | src/edc_ecc/edcre.rs:208-231 | The first n columns of the outer loop keep the sector length. |
| Parity.WithPParity | src/edc_ecc/edcre.rs:201-232 | `calc_p_parity` as a function on the sector keeps its length. |
| Parity.PAcc | src/edc_ecc/edcre.rs:209-222 | The two accumulators of column i after n rows. `Parity.PColumn` proves the loop computes them, and `Parity.PAccProducts` proves they are dot products. |
| Parity.PColumn | src/edc_ecc/edcre.rs:209-222 | The inner loop over table rows 19..42 returns the two accumulators `PAcc` of column i. |
| Parity.CalcPParity | src/edc_ecc/edcre.rs:201-232 | The in-place routine leaves the array equal to `WithPParity` of its old contents. A sector shorter than 2248 bytes, where the source panics, is excluded by the precondition. |
| Parity.PAccReads | src/edc_ecc/edcre.rs:214-222 | An accumulator depends only on bytes 12..2075. |
| Parity.PUpToFrame | src/edc_ecc/edcre.rs:224-230 | The column loop writes only inside 2076..2247. |
| Parity.PUpToKeepsData | src/edc_ecc/edcre.rs:208-231 | Earlier columns' writes do not change what later columns read. |
| Parity.PWriteOwn | src/edc_ecc/edcre.rs:224-230 | Column i's P0 bytes go to 2076+86+2i and +1, its P1 bytes to 2076+2i and +1. |
| Parity.PWriteKeeps | src/edc_ecc/edcre.rs:224-230 | Column j's stores keep another column's four parity bytes. |
| Parity.PUpToColumn | src/edc_ecc/edcre.rs:208-231 | After n columns, each earlier column holds its low and high accumulator bytes. |
| Parity.PParityLayout | src/edc_ecc/edcre.rs:224-230 | After `calc_p_parity`, column i holds `(p01 & 0xff)` at P0 and `(p01 >> 8)` at P1. |
| Parity.PParityFrame | src/edc_ecc/edcre.rs:201-232 | `calc_p_parity` changes no byte outside 2076..2247. |
| Parity.PByteReads | src/edc_ecc/edcre.rs:201-232 | Each P parity byte is a function of bytes 12..2075 only. |
| Parity.PParityReads | src/edc_ecc/edcre.rs:201-232 | Sectors that agree on 12..2075 get the same P field. |
| Parity.PParityFixed | src/edc_ecc/edcre.rs:201-232 | A sector whose P field already holds its P parity comes back unchanged. |
| Parity.QIndex | src/edc_ecc/edcre.rs:242-258 | The wrapping `q_lsb_idx` stays even and within 12..2246, so both reads are below 2248. |
| Parity.QIndexClosed | src/edc_ecc/edcre.rs:242-258 | `q_lsb_idx` at row r is 12 + (86i + 88r) mod 2236. |
| Parity.ModWrap | src/edc_ecc/edcre.rs:256-258 | The remainder of a number written as 2236q + r is r. |
| Parity.QDistanceStep | src/edc_ecc/edcre.rs:254-258 | Adding 88 and subtracting 2236 on reaching 2248 is the mod-2236 step. |
| Parity.QReadsPParity | src/edc_ecc/edcre.rs:248-249 | Diagonal 0 reads byte 2124 at row 24, inside the P parity. Q therefore depends on P having been written first. |
| Parity.QWrite | src/edc_ecc/edcre.rs:261-267 | The four stores of a diagonal keep the sector length. |
| Parity.QUpTo | src/edc_ecc/edcre.rs:241-268 | The first n diagonals of the outer loop keep the length. |
| Parity.WithQParity | src/edc_ecc/edcre.rs:234-269 | `calc_q_parity` as a function on the sector keeps its length. |
| Parity.QAccReads | src/edc_ecc/edcre.rs:247-259 | A Q accumulator depends only on bytes 12..2247, P parity included. |
| Parity.QUpToFrame | src/edc_ecc/edcre.rs:261-267 | The diagonal loop writes only inside 2248..2351. |
| Parity.QUpToKeepsData | src/edc_ecc/edcre.rs:241-268 | Earlier diagonals' writes do not change what later diagonals read. |
| Parity.QAcc | src/edc_ecc/edcre.rs:242-259 | The two accumulators of diagonal i after n rows. `Parity.QDiagonal` proves the loop computes them, and `Parity.QAccProducts` proves they are dot products. |
| Parity.QDiagonal | src/edc_ecc/edcre.rs:242-259 | The inner loop over the 43 table rows, with the source's wrap, returns the two accumulators `QAcc` of diagonal i. |
| Parity.CalcQParity | src/edc_ecc/edcre.rs:234-269 | The in-place routine leaves the array equal to `WithQParity` of its old contents. A sector shorter than 2352 bytes, where the source panics, is excluded by the precondition. |
| Parity.QWriteOwn | src/edc_ecc/edcre.rs:261-267 | Diagonal i's Q0 bytes go to 2248+52+2i and +1, its Q1 bytes to 2248+2i and +1. |
| Parity.QWriteKeeps | src/edc_ecc/edcre.rs:261-267 | Diagonal j's stores keep another diagonal's four parity bytes. |
| Parity.QUpToDiagonal | src/edc_ecc/edcre.rs:241-268 | After n diagonals, each earlier one holds its low and high accumulator bytes. |
| Parity.QParityLayout | src/edc_ecc/edcre.rs:261-267 | After `calc_q_parity`, diagonal i holds `(q01 & 0xff)` at Q0 and `(q01 >> 8)` at Q1. |
| Parity.QParityFrame | src/edc_ecc/edcre.rs:234-269 | `calc_q_parity` changes no byte outside 2248..2351. |
| Parity.QByteReads | src/edc_ecc/edcre.rs:234-269 | Each Q parity byte is a function of bytes 12..2247 only. |
| Parity.QParityReads | src/edc_ecc/edcre.rs:234-269 | Sectors that agree on 12..2247 get the same Q field. |
| Parity.QParityFixed | src/edc_ecc/edcre.rs:234-269 | A sector whose Q field already holds its Q parity comes back unchanged. |
| Parity.QCoeffTableShape | src/edc_ecc/edcre.rs:19 | The table built at start-up has the 43 x 256 shape the parity loops index. |
| Parity.XorBytes | src/edc_ecc/edcre.rs:218-219 | Xor of packed entries is GF(2^8) addition byte by byte. |
| Parity.ProductAt | src/edc_ecc/edcre.rs:218-219 | A lookup in a product table holds the products of the byte with the row's two coefficients. |
| Parity.LookupProducts | src/edc_ecc/edcre.rs:218-219 | `table_row[d]` packs d * Q0[j] and d * Q1[j]. |
| Parity.QCoeffTableIsProductTable | src/edc_ecc/edcre.rs:144-163 | The real table is the product table of the Q0 and Q1 coefficient rows. |
| Parity.PColumnBytes | src/edc_ecc/edcre.rs:214-216 | The 24 bytes column i reads. |
| Parity.PAccProducts | src/edc_ecc/edcre.rs:211-222 | Over a product table, the low byte of an accumulator is the GF(2^8) dot product of the column's bytes with Q0[19..42]; the high byte uses Q1. |
| Parity.PAccStep | src/edc_ecc/edcre.rs:218-219 | Over a product table, one row of the P accumulation adds, in GF(2^8), the row's byte times Q0 to the low byte and times Q1 to the high byte. |
| Parity.PParityCode | src/edc_ecc/edcre.rs:201-232 | P0 of column i is the dot product of its 24 bytes with Q0[19..42]; P1 uses Q1[19..42]. |
| Parity.QDiagonalBytes | src/edc_ecc/edcre.rs:247-250 | The 43 bytes diagonal i reads. |
| Parity.QAccProducts | src/edc_ecc/edcre.rs:244-259 | Over a product table, the low byte of a Q accumulator is the dot product of the diagonal's bytes with Q0; the high byte uses Q1. |
| Parity.QAccStep | src/edc_ecc/edcre.rs:251-252 | Over a product table, one row of the Q accumulation adds the row's byte times Q0 to the low byte and times Q1 to the high byte. |
| Parity.QParityCode | src/edc_ecc/edcre.rs:234-269 | Q0 of diagonal i is the dot product of its 43 bytes with Q0; Q1 uses Q1. |
| Tables.InitializedShaped | src/edc_ecc/edcre.rs:16-19 | The initialised tables have the sizes the routines index by, and the Q table is the product table of the Q coefficients. |
| Tables.EnsureTablesInitialized | src/edc_ecc/edcre.rs:168-177 | GF(2^8) tables, then CRC table, then Q coefficient table from the GF(2^8) tables: the result is the four tables' specified values. |
| Converter.FromLba | src/converter/mod.rs:19-31 | `from_lba`, with the u32 addition and the u8 casts written out. Its properties are stated by `Converter.FromLbaRanges`, `Converter.FromLbaMsf` and `Converter.MsfToLbaInverse`. |
| Converter.FromLbaRanges | src/converter/mod.rs:19-31 | `from_lba` always gives frame < 75 and second < 60. |
| Converter.FromLbaMsf | src/converter/mod.rs:19-31 | When lba + 150 is below 256 * 60 * 75, so that neither the u32 addition nor the u8 minute overflows, `(minute*60 + second)*75 + frame == lba + 150`. |
| Converter.AddressOfFrames | src/converter/mod.rs:19-31 | The address of the frame count m:s:f, less 150, is m:s:f. |
| Converter.MsfToLbaInverse | src/converter/mod.rs:19-31 | Every address with frame < 75, second < 60 and at or after 00:02:00 comes back from its LBA. |
| Converter.ToBcdByte | src/converter/mod.rs:41-43 | `to_bcd_byte`. Its digits are stated by `Converter.ToBcdByteDigits`. |
| Converter.ToBcdByteDigits | src/converter/mod.rs:41-43 | For v < 100 the high nibble is v/10 and the low nibble v%10, and reading the BCD byte back gives v. |
| Converter.ToBcd | src/converter/mod.rs:33-39 | Three BCD bytes: minute, second, frame. |
| Converter.FromLbaZero | src/converter/mod.rs:144-152 | LBA 0 is 00:02:00, encoded as `[0x00, 0x02, 0x00]`. |
| Converter.AssembleLayout | src/converter/mod.rs:100-126 | The seven fields sit at offsets 0, 12, 16, 2064, 2068, 2076 and 2248 of the 2352-byte image. |
| Converter.AssembleSplit | src/converter/mod.rs:46-54 | Each 2352-byte image is the assembly of its seven fields. |
| Converter.Header | src/converter/mod.rs:66-71 | The header holds four bytes. |
| Converter.Encoded | src/converter/mod.rs:84-98 | EDC, then P, then Q over a 2352-byte image keeps its length. |
| Converter.EncodedFrame | src/converter/mod.rs:88-92 | The three routines together change only bytes 2064..2067 and 2076..2351. |
| Converter.EncodedEdc | src/converter/mod.rs:88-92 | P and Q do not disturb the EDC, which remains the EDC of bytes 0..2063. |
| Converter.EncodedKeepsFields | src/converter/mod.rs:84-98 | Sync, header, user data and zero field come through encoding unchanged. |
| Converter.EncodeInPlace | src/converter/mod.rs:90-92 | The three calls on the scratch sector leave it equal to `Encoded` of its old contents: EDC, then P, then Q. |
| Converter.Reassemble | src/converter/mod.rs:94-97 | Copying the encoding's EDC, P and Q fields back into the struct, beside its untouched fields, gives the encoded image. |
| Converter.EncodedFixed | src/converter/mod.rs:88-92 | An encoded sector is a fixed point of each of `calc_mode1_edc`, `calc_p_parity` and `calc_q_parity`. |
| Converter.EncodeIdempotent | src/converter/mod.rs:84-98 | Running `calculate_edc_ecc` on a sector twice gives the same image as once. |
| Converter.EncodedParityDots | src/converter/mod.rs:88-92 | Every P and Q parity byte of an encoded sector is the dot product of the bytes of the same sector that it covers. |
| Converter.RawSectorLayout | tests/edc_ecc_test.rs:37-39 | The raw sector has the sync pattern at 0..11, the BCD address at 12..14, 0x01 at 15, the input at 16..2063, zero at 2068..2075, and at 2064..2067 the EDC of bytes 0..2063. |
| Converter.SpliceAfter | src/converter/mod.rs:105-125 | Copying a field at the running offset appends it to what is already written. |
| Converter.CopyInto | src/converter/mod.rs:107 | `copy_from_slice` into `buffer[offset..]` replaces exactly those bytes. |
| Converter.Place | src/converter/mod.rs:105-125 | One copy at the running offset: with the fields so far written over the first offset bytes, the buffer holds them, then the new field, then the original bytes beyond. |
| Converter.Mode1Sector.Image | src/converter/mod.rs:100-126 | The image `to_bytes` writes is 2352 bytes. |
| Converter.Mode1Sector.constructor | src/converter/mod.rs:66-79 | Sync pattern, BCD header with mode 0x01, the input as user data, and all code fields zero. |
| Converter.Mode1Sector.New | src/converter/mod.rs:57-82 | Fails, with expected 2048 and got `len`, exactly when `data.len() != 2048`. On success the fields are as the constructor sets them. |
| Converter.Mode1Sector.ToBytes | src/converter/mod.rs:100-126 | A buffer shorter than 2352 bytes is untouched. Otherwise bytes 0..2351 become the image and the bytes beyond are unchanged. |
| Converter.Mode1Sector.CalculateEdcEcc | src/converter/mod.rs:84-98 | Sync, header, user data and zero are unchanged. `edc`, `ecc_p` and `ecc_q` are bytes 2064..2067, 2076..2247 and 2248..2351 of the image after EDC, then P, then Q. |
| Converter.ConvertIsoToRaw | src/converter/mod.rs:129-137 | Input not 2048 bytes: the size error. Otherwise: `Ok` of the encoded base image of the sector. |

## Left out

- The `OnceLock` globals (src/edc_ecc/edcre.rs:16-19, 168-177): the four tables are one `Tables` value, built once by `Tables.EnsureTablesInitialized` and passed to the routines that read them. The at-most-once, thread-safe initialisation is not modelled.
- src/main.rs, src/io/mod.rs and src/parallel.rs are not part of this model: command-line handling, memory-mapped reading, buffered writing, progress reporting and the parallel batch map do no sector arithmetic.
- tests/integration_test.rs is not part of this model: it runs the binary on files.
- The concrete test values of tests/edc_ecc_test.rs:12-16 (the EDCs of 0xAA and 0x55 blocks differ) and tests/edc_ecc_test.rs:47-50 (the P and Q parity of a 0xAA block is not all zero). They would need the full tables evaluated on a concrete sector. The general layout and zero-EDC tests are modelled.
- Converter.FromLba: `lba + 150` is modelled with u32 wrap-around, as a release build computes it. A debug build panics instead for an LBA above 2^32 - 151. The MSF equation is proved only where neither the addition nor the u8 minute overflows.
- Converter.Mode1Sector: the Rust struct holds fixed-size arrays inline. The model uses sequence fields of those sizes (`Valid`). Nothing can alias them, so no frame beyond `this` is involved.
- Converter.ConvertIsoToRaw and Converter.Mode1Sector.CalculateEdcEcc take the tables as a parameter. They are proved for every shaped table value. The source always uses the initialised ones (`Tables.Initialized`).
- Converter.EncodedParityDots proves that each parity byte is the dot product the encoder computes. It does not prove the check equations H·c = 0 of the product code, which would need the field laws of the table-based multiplication and the concrete Q0 and Q1 values. It is stated over any product table. For the initialised tables it combines with `Tables.InitializedShaped`, which proves the Q table is the product table of the Q coefficients.
- That the P and Q fields make the sector a codeword that corrects errors, as a Reed-Solomon decoder would use it, is not modelled. The model proves the parity bytes are the weighted sums the code defines, not the code's distance.
- The panics of `calc_mode1_edc`, `calc_p_parity` and `calc_q_parity` on buffers shorter than 2068, 2248 and 2352 bytes are preconditions. `gf8_div`'s panic on a zero divisor is the precondition `b != 0` of `Gf8.Gf8DivTables`. That it is never reached during initialisation is `QCoeffs.DivisorsNonzero`.
