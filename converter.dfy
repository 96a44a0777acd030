/**
 * The Mode 1 sector assembler of src/converter/mod.rs: the LBA is turned into
 * a BCD minute:second:frame address, the 2048 user bytes are laid out behind
 * the sync pattern and the header, and the EDC, P and Q fields are filled by
 * running calc_mode1_edc, calc_p_parity and calc_q_parity, in that order, on
 * a 2352-byte image of the sector.
 */
module Converter {
  import opened Gf8
  import opened QCoeffs
  import opened Edc
  import opened Parity
  import opened Tables

  const IsoSectorSize := 2048
  const RawSectorSize := 2352

  /** 00 FF*10 00, the first 12 bytes of every sector. */
  const SyncPattern: seq<bv8> := [0x00, 0xFF, 0xFF, 0xFF, 0xFF, 0xFF, 0xFF, 0xFF, 0xFF, 0xFF, 0xFF, 0x00]

  /** A u32. */
  type U32 = x: int | 0 <= x < 0x1_0000_0000

  // ---------------------------------------------------------------------
  // SectorAddress
  // ---------------------------------------------------------------------

  datatype SectorAddress = SectorAddress(minute: bv8, second: bv8, frame: bv8)

  /** Frames before LBA 0: addresses start at 00:02:00. */
  const LbaOffset := 150
  const FramesPerSecond := 75
  const SecondsPerMinute := 60

  /** from_lba: add the 150-frame offset (a u32 addition, which wraps), then
      split into frames, seconds and minutes, each cast to u8 (the minute is
      truncated to its low byte). */
  function FromLba(lba: U32): SectorAddress
  {
    var offset := (lba + LbaOffset) % 0x1_0000_0000;
    SectorAddress(
      ToByte((offset / FramesPerSecond / SecondsPerMinute) % 256),
      ToByte((offset / FramesPerSecond) % SecondsPerMinute),
      ToByte(offset % FramesPerSecond))
  }

  /** The LBA an address stands for: its frame count less the offset. */
  function MsfToLba(a: SectorAddress): int
  {
    ((a.minute as int) * SecondsPerMinute + a.second as int) * FramesPerSecond + a.frame as int - LbaOffset
  }

  /** from_lba always yields a frame below 75 and a second below 60. */
  lemma FromLbaRanges(lba: U32)
    ensures (FromLba(lba).frame as int) < FramesPerSecond && (FromLba(lba).second as int) < SecondsPerMinute
  {
  }

  /** Quotient and remainder by 75 of a number written as q * 75 + r. */
  lemma DivMod75(x: int, q: int, r: int)
    requires 0 <= r < 75 && x == q * 75 + r
    ensures x / 75 == q && x % 75 == r
  {
  }

  /** Quotient and remainder by 60 of a number written as q * 60 + r. */
  lemma DivMod60(x: int, q: int, r: int)
    requires 0 <= r < 60 && x == q * 60 + r
    ensures x / 60 == q && x % 60 == r
  {
  }

  /** A number below the divisor is its own remainder. */
  lemma Below(x: int, d: int)
    requires 0 <= x < d
    ensures x / d == 0 && x % d == x
  {
  }

  /** When lba + 150 neither wraps the u32 nor gives a minute above 255, the
      address counts exactly lba + 150 frames, and MsfToLba recovers lba. */
  lemma FromLbaMsf(lba: U32)
    requires lba + LbaOffset < 256 * SecondsPerMinute * FramesPerSecond
    ensures var a := FromLba(lba);
      ((a.minute as int) * SecondsPerMinute + a.second as int) * FramesPerSecond + a.frame as int == lba + LbaOffset &&
      MsfToLba(a) == lba
  {
    var offset := lba + LbaOffset;
    Below(offset, 0x1_0000_0000);
    var secs := offset / FramesPerSecond;
    var m := secs / SecondsPerMinute;
    Below(m, 256);
    var a := FromLba(lba);
    assert a.minute as int == m && a.second as int == secs % SecondsPerMinute && a.frame as int == offset % FramesPerSecond;
    assert offset == secs * FramesPerSecond + offset % FramesPerSecond;
    assert secs == m * SecondsPerMinute + secs % SecondsPerMinute;
  }

  /** The address of the sector m:s:f frames past 00:00:00. */
  lemma AddressOfFrames(m: int, s: int, f: int)
    requires 0 <= m < 256 && 0 <= s < SecondsPerMinute && 0 <= f < FramesPerSecond
    requires (m * SecondsPerMinute + s) * FramesPerSecond + f >= LbaOffset
    ensures FromLba((m * SecondsPerMinute + s) * FramesPerSecond + f - LbaOffset) == SectorAddress(ToByte(m), ToByte(s), ToByte(f))
  {
    var secs := m * SecondsPerMinute + s;
    var offset := secs * FramesPerSecond + f;
    Below(offset, 0x1_0000_0000);
    DivMod75(offset, secs, f);
    DivMod60(secs, m, s);
    Below(m, 256);
    var lba := offset - LbaOffset;
    assert (lba + LbaOffset) % 0x1_0000_0000 == offset;
    assert (offset / FramesPerSecond / SecondsPerMinute) % 256 == m;
    assert (offset / FramesPerSecond) % SecondsPerMinute == s;
    assert offset % FramesPerSecond == f;
  }

  /** Conversely, every well-formed address at or after 00:02:00 is the
      address of its own LBA. */
  lemma MsfToLbaInverse(a: SectorAddress)
    requires (a.frame as int) < FramesPerSecond && (a.second as int) < SecondsPerMinute && MsfToLba(a) >= 0
    ensures FromLba(MsfToLba(a)) == a
  {
    var m, s, f := Ix(a.minute), Ix(a.second), Ix(a.frame);
    assert MsfToLba(a) == (m * SecondsPerMinute + s) * FramesPerSecond + f - LbaOffset;
    AddressOfFrames(m, s, f);
    ToByteIx(a.minute);
    ToByteIx(a.second);
    ToByteIx(a.frame);
  }

  /** to_bcd_byte: tens digit in the high nibble, units in the low one. */
  function ToBcdByte(value: bv8): bv8
  {
    ((value / 10) << 4) | (value % 10)
  }

  /** Reads a BCD byte back as a number. */
  function FromBcdByte(b: bv8): int
  {
    ((b >> 4) as int) * 10 + ((b & 0x0F) as int)
  }

  /** For a value below 100, the high nibble is value / 10 and the low nibble
      value % 10, so both are decimal digits and the byte reads back. */
  lemma ToBcdByteDigits(value: bv8)
    requires value < 100
    ensures ToBcdByte(value) >> 4 == value / 10 && ToBcdByte(value) & 0x0F == value % 10
    ensures FromBcdByte(ToBcdByte(value)) == value as int
  {
  }

  /** to_bcd: minute, second and frame in BCD. */
  function ToBcd(a: SectorAddress): (bcd: seq<bv8>)
    ensures |bcd| == 3
  {
    [ToBcdByte(a.minute), ToBcdByte(a.second), ToBcdByte(a.frame)]
  }

  /** The first sector is at 00:02:00. */
  lemma FromLbaZero()
    ensures FromLba(0) == SectorAddress(0, 2, 0)
    ensures ToBcd(FromLba(0)) == [0x00, 0x02, 0x00]
  {
    Below(150, 0x1_0000_0000);
    DivMod75(150, 2, 0);
    DivMod60(2, 0, 2);
    Below(0, 256);
    assert ToByte(2) == 2;
  }

  // ---------------------------------------------------------------------
  // The sector image
  // ---------------------------------------------------------------------

  /** The seven fields laid end to end, as to_bytes writes them. */
  function Assemble(sync: seq<bv8>, header: seq<bv8>, userData: seq<bv8>, edc: seq<bv8>,
                    zero: seq<bv8>, eccP: seq<bv8>, eccQ: seq<bv8>): seq<bv8>
  {
    sync + header + userData + edc + zero + eccP + eccQ
  }

  /** Fields of the Mode 1 sizes sit at offsets 0, 12, 16, 2064, 2068, 2076
      and 2248 of a 2352-byte image. */
  lemma AssembleLayout(sync: seq<bv8>, header: seq<bv8>, userData: seq<bv8>, edc: seq<bv8>,
                       zero: seq<bv8>, eccP: seq<bv8>, eccQ: seq<bv8>)
    requires |sync| == 12 && |header| == 4 && |userData| == IsoSectorSize && |edc| == 4
    requires |zero| == 8 && |eccP| == 172 && |eccQ| == 104
    ensures var r := Assemble(sync, header, userData, edc, zero, eccP, eccQ);
      |r| == RawSectorSize &&
      r[..12] == sync && r[12..16] == header && r[16..EdcOffset] == userData &&
      r[EdcOffset..EdcOffset + 4] == edc && r[EdcOffset + 4..POffset] == zero &&
      r[POffset..QOffset] == eccP && r[QOffset..] == eccQ
  {
    var r := Assemble(sync, header, userData, edc, zero, eccP, eccQ);
    assert r == sync + header + userData + edc + zero + eccP + eccQ;
  }

  /** Any 2352-byte image is the assembly of its seven fields. */
  lemma AssembleSplit(r: seq<bv8>)
    requires |r| == RawSectorSize
    ensures Assemble(r[..12], r[12..16], r[16..EdcOffset], r[EdcOffset..EdcOffset + 4],
                     r[EdcOffset + 4..POffset], r[POffset..QOffset], r[QOffset..]) == r
  {
  }

  /** The 4-byte header: BCD address and mode 1. */
  function Header(lba: U32): (h: seq<bv8>)
    ensures |h| == 4
  {
    var bcd := ToBcd(FromLba(lba));
    [bcd[0], bcd[1], bcd[2], 0x01]
  }

  /** The image of a freshly created sector: every code field zero. */
  function BaseImage(lba: U32, data: seq<bv8>): seq<bv8>
  {
    Assemble(SyncPattern, Header(lba), data, Zeros(4), Zeros(8), Zeros(172), Zeros(104))
  }

  /** calculate_edc_ecc on an image: EDC, then P parity, then Q parity. */
  function Encoded(t: Tables, img: seq<bv8>): (r: seq<bv8>)
    requires Shaped(t) && |img| == RawSectorSize
    ensures |r| == RawSectorSize
  {
    WithQParity(t.qcoeffs, WithPParity(t.qcoeffs, WithMode1Edc(t.crc, img)))
  }

  /** Encoding changes only the EDC and the two parity fields. */
  lemma EncodedFrame(t: Tables, img: seq<bv8>)
    requires Shaped(t) && |img| == RawSectorSize
    ensures forall k :: 0 <= k < RawSectorSize && !(EdcOffset <= k < EdcOffset + 4) && !(POffset <= k) ==>
      Encoded(t, img)[k] == img[k]
  {
    var e := WithMode1Edc(t.crc, img);
    var p := WithPParity(t.qcoeffs, e);
    WithMode1EdcLayout(t.crc, img);
    PParityFrame(t.qcoeffs, e);
    QParityFrame(t.qcoeffs, p);
  }

  /** The bytes the EDC covers are untouched by encoding, and the EDC field
      of the encoding holds their EDC. */
  lemma EncodedEdc(t: Tables, img: seq<bv8>)
    requires Shaped(t) && |img| == RawSectorSize
    ensures var r := Encoded(t, img);
      r[..EdcOffset] == img[..EdcOffset] && r[EdcOffset..EdcOffset + 4] == Le32(Edc.Edc(t.crc, r[..EdcOffset]))
  {
    var e := WithMode1Edc(t.crc, img);
    var r := Encoded(t, img);
    EncodedFrame(t, img);
    assert r[..EdcOffset] == img[..EdcOffset];
    WithMode1EdcLayout(t.crc, img);
    PParityFrame(t.qcoeffs, e);
    QParityFrame(t.qcoeffs, WithPParity(t.qcoeffs, e));
    assert r[EdcOffset..EdcOffset + 4] == e[EdcOffset..EdcOffset + 4];
    assert e[EdcOffset..EdcOffset + 4] == Le32(Edc.Edc(t.crc, img[..EdcOffset]));
  }

  /** Encoding an encoded sector changes nothing: its EDC, P and Q fields are
      each what the three routines would store again. */
  lemma EncodeIdempotent(t: Tables, img: seq<bv8>)
    requires Shaped(t) && |img| == RawSectorSize
    ensures Encoded(t, Encoded(t, img)) == Encoded(t, img)
  {
    EncodedFixed(t, img);
  }

  /** In an encoded sector, over any product table, each parity byte is the
      GF(2^8) dot product of the bytes of the same sector in its column (or
      diagonal) with the coefficients. The
      initialised Q coefficient table is the product table of the Q
      coefficients (Tables.InitializedShaped). */
  lemma EncodedParityDots(t: Tables, c0: seq<bv8>, c1: seq<bv8>, img: seq<bv8>, i: int, b: int)
    requires Shaped(t) && ProductTable(t.qcoeffs, c0, c1) && |img| == RawSectorSize && 0 <= b <= 1
    ensures var r := Encoded(t, img);
      (0 <= i < PColumns ==>
        r[POffset + PStride + 2 * i + b] == Gf8Dot(c0[PFirstRow..], PColumnBytes(r, i, b), PRows) &&
        r[POffset + 2 * i + b] == Gf8Dot(c1[PFirstRow..], PColumnBytes(r, i, b), PRows)) &&
      (0 <= i < QDiagonals ==>
        r[QOffset + 52 + 2 * i + b] == Gf8Dot(c0, QDiagonalBytes(r, i, b), TableRows) &&
        r[QOffset + 2 * i + b] == Gf8Dot(c1, QDiagonalBytes(r, i, b), TableRows))
  {
    var r := Encoded(t, img);
    EncodedFixed(t, img);
    if 0 <= i < PColumns {
      PParityCode(t.qcoeffs, c0, c1, r, i, b);
    }
    if 0 <= i < QDiagonals {
      QParityCode(t.qcoeffs, c0, c1, r, i, b);
    }
  }

  /** An encoded sector is a fixed point of each of the three routines. */
  lemma EncodedFixed(t: Tables, img: seq<bv8>)
    requires Shaped(t) && |img| == RawSectorSize
    ensures WithMode1Edc(t.crc, Encoded(t, img)) == Encoded(t, img)
    ensures WithPParity(t.qcoeffs, Encoded(t, img)) == Encoded(t, img)
    ensures WithQParity(t.qcoeffs, Encoded(t, img)) == Encoded(t, img)
  {
    var e := WithMode1Edc(t.crc, img);
    var p := WithPParity(t.qcoeffs, e);
    var r := Encoded(t, img);
    EncodedEdc(t, img);
    Mode1EdcFixed(t.crc, r);
    PParityFrame(t.qcoeffs, e);
    QParityFrame(t.qcoeffs, p);
    PParityReads(t.qcoeffs, r, e);
    assert WithPParity(t.qcoeffs, r)[POffset..QOffset] == p[POffset..QOffset];
    assert r[POffset..QOffset] == p[POffset..QOffset];
    PParityFixed(t.qcoeffs, r);
    QParityReads(t.qcoeffs, r, p);
    QParityFixed(t.qcoeffs, r);
  }

  /** The raw sector for lba and 2048 user bytes: sync, BCD address, mode 1,
      the user data, the EDC of the first 2064 bytes, eight zero bytes. */
  lemma RawSectorLayout(t: Tables, lba: U32, data: seq<bv8>)
    requires Shaped(t) && |data| == IsoSectorSize
    ensures var r := Encoded(t, BaseImage(lba, data));
      |r| == RawSectorSize && r[..12] == SyncPattern && r[12..15] == ToBcd(FromLba(lba)) && r[15] == 0x01 &&
      r[16..EdcOffset] == data && r[EdcOffset + 4..POffset] == Zeros(8) &&
      FromLe32(r[EdcOffset..EdcOffset + 4]) == Edc.Edc(t.crc, r[..EdcOffset])
  {
    var img := BaseImage(lba, data);
    var r := Encoded(t, img);
    AssembleLayout(SyncPattern, Header(lba), data, Zeros(4), Zeros(8), Zeros(172), Zeros(104));
    EncodedKeepsFields(t, img);
    EncodedEdc(t, img);
    Le32RoundTrip(Edc.Edc(t.crc, r[..EdcOffset]));
    assert r[12..15] == r[12..16][..3];
    assert r[15] == r[12..16][3];
  }

  // ---------------------------------------------------------------------
  // Mode1Sector
  // ---------------------------------------------------------------------

  datatype Error = InvalidIsoSectorSize(expected: nat, got: nat)

  datatype Result<T> = Ok(value: T) | Err(error: Error)

  /** Replacing |src| bytes at offset of prefix + rest, where prefix is offset
      bytes long, appends src to the prefix. */
  lemma SpliceAfter(prefix: seq<bv8>, rest: seq<bv8>, src: seq<bv8>)
    requires |src| <= |rest|
    ensures (prefix + rest)[..|prefix|] + src + (prefix + rest)[|prefix| + |src|..] == prefix + src + rest[|src|..]
  {
    assert (prefix + rest)[..|prefix|] == prefix;
    assert (prefix + rest)[|prefix| + |src|..] == rest[|src|..];
  }

  /** `buffer[offset..offset + src.len()].copy_from_slice(src)`. */
  method CopyInto(buffer: array<bv8>, offset: int, src: seq<bv8>)
    requires 0 <= offset && offset + |src| <= buffer.Length
    modifies buffer
    ensures buffer[..] == old(buffer[..])[..offset] + src + old(buffer[..])[offset + |src|..]
  {
    forall k | 0 <= k < |src| {
      buffer[offset + k] := src[k];
    }
  }

  /** One step of to_bytes: with `done` already written over the first
      offset bytes of the original contents `rest`, copying src at offset
      extends what is written by src. */
  method Place(buffer: array<bv8>, offset: int, ghost done: seq<bv8>, ghost rest: seq<bv8>, src: seq<bv8>)
    requires |done| == offset && |rest| == buffer.Length && offset + |src| <= buffer.Length
    requires buffer[..] == done + rest[offset..]
    modifies buffer
    ensures buffer[..] == done + src + rest[offset + |src|..]
  {
    SpliceAfter(done, rest[offset..], src);
    assert rest[offset..][|src|..] == rest[offset + |src|..];
    CopyInto(buffer, offset, src);
  }

  class Mode1Sector {
    var sync: seq<bv8>
    var header: seq<bv8>
    var userData: seq<bv8>
    var edc: seq<bv8>
    var zero: seq<bv8>
    var eccP: seq<bv8>
    var eccQ: seq<bv8>

    /** The fixed field sizes of the struct. */
    ghost predicate Valid()
      reads this
    {
      |sync| == 12 && |header| == 4 && |userData| == IsoSectorSize && |edc| == 4 &&
      |zero| == 8 && |eccP| == 172 && |eccQ| == 104
    }

    /** The 2352 bytes to_bytes writes. */
    function Image(): (r: seq<bv8>)
      reads this
      requires Valid()
      ensures |r| == RawSectorSize
    {
      Assemble(sync, header, userData, edc, zero, eccP, eccQ)
    }

    /** The struct literal of Mode1Sector::new followed by the copy of the
        user data. */
    constructor (lba: U32, data: seq<bv8>)
      requires |data| == IsoSectorSize
      ensures Valid() && Image() == BaseImage(lba, data)
      ensures sync == SyncPattern && header == Header(lba) && userData == data
      ensures edc == Zeros(4) && zero == Zeros(8) && eccP == Zeros(172) && eccQ == Zeros(104)
    {
      var bcd := ToBcd(FromLba(lba));
      sync := SyncPattern;
      header := [bcd[0], bcd[1], bcd[2], 0x01];
      userData := Zeros(IsoSectorSize);
      edc := Zeros(4);
      zero := Zeros(8);
      eccP := Zeros(172);
      eccQ := Zeros(104);
      new;
      userData := data;
    }

    /** Mode1Sector::new: fails exactly when the input is not 2048 bytes. */
    static method New(lba: U32, data: seq<bv8>) returns (r: Result<Mode1Sector>)
      ensures r.Err? <==> |data| != IsoSectorSize
      ensures r.Err? ==> r.error == InvalidIsoSectorSize(IsoSectorSize, |data|)
      ensures r.Ok? ==> fresh(r.value) && r.value.Valid() && r.value.Image() == BaseImage(lba, data)
      ensures r.Ok? ==> r.value.sync == SyncPattern && r.value.header == Header(lba) && r.value.userData == data
      ensures r.Ok? ==> r.value.edc == Zeros(4) && r.value.zero == Zeros(8) &&
                        r.value.eccP == Zeros(172) && r.value.eccQ == Zeros(104)
    {
      if |data| != IsoSectorSize {
        return Err(InvalidIsoSectorSize(IsoSectorSize, |data|));
      }
      var sector := new Mode1Sector(lba, data);
      r := Ok(sector);
    }

    /** to_bytes: a buffer shorter than 2352 bytes is left as it is;
        otherwise the seven fields are copied to its first 2352 bytes through
        a running offset, and the bytes beyond are left alone. */
    method ToBytes(buffer: array<bv8>)
      requires Valid()
      modifies buffer
      ensures buffer.Length < RawSectorSize ==> buffer[..] == old(buffer[..])
      ensures buffer.Length >= RawSectorSize ==> buffer[..] == Image() + old(buffer[..])[RawSectorSize..]
    {
      if buffer.Length < RawSectorSize {
        return;
      }
      ghost var rest := buffer[..];
      var offset := 0;
      Place(buffer, offset, [], rest, sync);
      offset := offset + 12;
      Place(buffer, offset, sync, rest, header);
      offset := offset + 4;
      Place(buffer, offset, sync + header, rest, userData);
      offset := offset + IsoSectorSize;
      Place(buffer, offset, sync + header + userData, rest, edc);
      offset := offset + 4;
      Place(buffer, offset, sync + header + userData + edc, rest, zero);
      offset := offset + 8;
      Place(buffer, offset, sync + header + userData + edc + zero, rest, eccP);
      offset := offset + 172;
      Place(buffer, offset, sync + header + userData + edc + zero + eccP, rest, eccQ);
    }

    /** calculate_edc_ecc: write the sector to a scratch buffer, run the EDC,
        then P, then Q over it, and copy back only the EDC and the two parity
        fields. The sector's image becomes the encoded image. */
    method CalculateEdcEcc(t: Tables)
      requires Valid() && Shaped(t)
      modifies this
      ensures Valid()
      ensures sync == old(sync) && header == old(header) && userData == old(userData) && zero == old(zero)
      ensures edc == Encoded(t, old(Image()))[EdcOffset..EdcOffset + 4]
      ensures eccP == Encoded(t, old(Image()))[POffset..QOffset]
      ensures eccQ == Encoded(t, old(Image()))[QOffset..]
      ensures Image() == Encoded(t, old(Image()))
    {
      ghost var img := Image();
      var sector := new bv8[RawSectorSize];
      ToBytes(sector);
      assert sector[..] == img;
      EncodeInPlace(t, sector);
      ghost var r := sector[..];
      edc := sector[EdcOffset..EdcOffset + 4];
      eccP := sector[POffset..QOffset];
      eccQ := sector[QOffset..RawSectorSize];
      assert edc == r[EdcOffset..EdcOffset + 4] && eccP == r[POffset..QOffset] && eccQ == r[QOffset..];
      Reassemble(t, sync, header, userData, old(edc), zero, old(eccP), old(eccQ));
    }
  }

  /** The three calls of calculate_edc_ecc on the scratch sector: EDC, then
      P parity, then Q parity. */
  method EncodeInPlace(t: Tables, sector: array<bv8>)
    requires Shaped(t) && sector.Length == RawSectorSize
    modifies sector
    ensures sector[..] == Encoded(t, old(sector[..]))
  {
    CalcMode1Edc(t.crc, sector);
    CalcPParity(t.qcoeffs, sector);
    CalcQParity(t.qcoeffs, sector);
  }

  /** The fields encoding leaves alone are those of the image. */
  lemma EncodedKeepsFields(t: Tables, img: seq<bv8>)
    requires Shaped(t) && |img| == RawSectorSize
    ensures var r := Encoded(t, img);
      r[..12] == img[..12] && r[12..16] == img[12..16] && r[16..EdcOffset] == img[16..EdcOffset] &&
      r[EdcOffset + 4..POffset] == img[EdcOffset + 4..POffset]
  {
    EncodedFrame(t, img);
  }

  /** Putting the encoding's three code fields back beside the untouched
      fields of a sector gives the encoding of its image. */
  lemma Reassemble(t: Tables, sync: seq<bv8>, header: seq<bv8>, userData: seq<bv8>, edc: seq<bv8>,
                   zero: seq<bv8>, eccP: seq<bv8>, eccQ: seq<bv8>)
    requires Shaped(t)
    requires |sync| == 12 && |header| == 4 && |userData| == IsoSectorSize && |edc| == 4
    requires |zero| == 8 && |eccP| == 172 && |eccQ| == 104
    ensures var r := Encoded(t, Assemble(sync, header, userData, edc, zero, eccP, eccQ));
      Assemble(sync, header, userData, r[EdcOffset..EdcOffset + 4], zero, r[POffset..QOffset], r[QOffset..]) == r
  {
    var img := Assemble(sync, header, userData, edc, zero, eccP, eccQ);
    var r := Encoded(t, img);
    EncodedKeepsFields(t, img);
    AssembleLayout(sync, header, userData, edc, zero, eccP, eccQ);
    AssembleSplit(r);
  }

  /** convert_iso_to_raw: build the sector, compute its EDC and ECC, and
      write it to a fresh 2352-byte vector. */
  method ConvertIsoToRaw(t: Tables, lba: U32, isoData: seq<bv8>) returns (r: Result<seq<bv8>>)
    requires Shaped(t)
    ensures |isoData| != IsoSectorSize ==> r == Err(InvalidIsoSectorSize(IsoSectorSize, |isoData|))
    ensures |isoData| == IsoSectorSize ==> r == Ok(Encoded(t, BaseImage(lba, isoData)))
  {
    var created := Mode1Sector.New(lba, isoData);
    if created.Err? {
      return Err(created.error);
    }
    var sector := created.value;
    sector.CalculateEdcEcc(t);
    var rawData := new bv8[RawSectorSize](_ => 0);
    sector.ToBytes(rawData);
    assert rawData[..] == sector.Image();
    r := Ok(rawData[..]);
  }
}
