/**
 * The LAS decoder of LASfile/LidarData.cs: the public header block (LAS 1.3) and the run
 * of point records that follows it, read from a byte buffer into the fields of a
 * `LidarData` object. The buffer is the file's contents; reading the file is not part of
 * this model.
 */
module LasFile {
  import opened Bytes

  // ----- Point records -----

  /** Record k starts 28 bytes after record k - 1 (LidarData.cs:63). */
  const RECORD_STRIDE := 28

  /** The bytes of a record that the decoder reads: the GPS time ends at byte 26. */
  const RECORD_READ := 26

  /**
   * A LASPointDataRecord. Classification, ScanAngle and UserData are the C# `char`s of
   * single bytes; the GPS time is kept as the raw little-endian 64-bit word of the double.
   */
  datatype PointRecord = PointRecord(
    x: int, y: int, z: int, intensity: int,
    returnNumber: seq<bool>, numberOfReturns: seq<bool>,
    scanDirectionFlag: bool, edgeOfFlight: bool,
    classification: char, scanAngle: char, userData: char,
    pointSourceId: int, gpsTime: int)

  /**
   * The object initialiser of LidarData.cs:47-62 for the record at byte `at`. The fields
   * are read where the source reads them, which is not where LAS 1.3 puts them:
   * classification from byte 13 (the high byte of the intensity), scan angle from byte 14
   * (the flag byte), user data from byte 15 and the point source ID from bytes 16-17.
   */
  function DecodeRecord(data: seq<byte>, at: int): PointRecord
    requires 0 <= at && at + RECORD_READ <= |data|
  {
    var bits := Bits(data[at + 14], 8);
    PointRecord(
      U32(data, at), U32(data, at + 4), U32(data, at + 8), U16(data, at + 12),
      [bits[0], bits[1], bits[2]], [bits[3], bits[4], bits[5]], bits[6], bits[7],
      data[at + 13] as char, data[at + 14] as char, data[at + 15] as char,
      U16(data, at + 16), U64(data, at + 18))
  }

  predicate Fits(v: int, w: nat) {
    0 <= v < Pow256(w)
  }

  /** The flag bits of a record in the order of byte 14, bit 0 first. */
  function FlagBits(r: PointRecord): seq<bool> {
    r.returnNumber + r.numberOfReturns + [r.scanDirectionFlag, r.edgeOfFlight]
  }

  /**
   * The records DecodeRecord can produce: every field fits its width, the classification
   * is the high byte of the intensity and the scan angle is the flag byte.
   */
  predicate Representable(r: PointRecord) {
    Fits(r.x, 4) && Fits(r.y, 4) && Fits(r.z, 4) && Fits(r.intensity, 2) &&
    |r.returnNumber| == 3 && |r.numberOfReturns| == 3 &&
    r.classification as int == r.intensity / 256 &&
    r.scanAngle as int == FromBits(FlagBits(r)) &&
    r.userData as int < 256 && Fits(r.pointSourceId, 2) && Fits(r.gpsTime, 8)
  }

  /** Byte `i` of a record in the layout DecodeRecord reads; bytes 26 and 27 are unused. */
  function RecordByte(r: PointRecord, i: int): byte
    requires Representable(r) && 0 <= i < RECORD_STRIDE
  {
    if i < 4 then Digit(r.x, i)
    else if i < 8 then Digit(r.y, i - 4)
    else if i < 12 then Digit(r.z, i - 8)
    else if i < 14 then Digit(r.intensity, i - 12)
    else if i == 14 then (FromBitsBound(FlagBits(r)); r.scanAngle as int)
    else if i == 15 then r.userData as int
    else if i < 18 then Digit(r.pointSourceId, i - 16)
    else if i < 26 then Digit(r.gpsTime, i - 18)
    else 0
  }

  function EncodeRecord(r: PointRecord): (e: seq<byte>)
    requires Representable(r)
    ensures |e| == RECORD_STRIDE
  {
    seq(RECORD_STRIDE, i requires 0 <= i < RECORD_STRIDE => RecordByte(r, i))
  }

  /** `data` holds at `at` the bytes of `r` that DecodeRecord reads. */
  predicate HoldsRecord(data: seq<byte>, at: int, r: PointRecord)
    requires Representable(r) && 0 <= at && at + RECORD_READ <= |data|
  {
    forall j :: 0 <= j < RECORD_READ ==> data[at + j] == RecordByte(r, j)
  }

  /** Decoding the bytes of a representable record gives the record back. */
  lemma RecordRoundTrip(r: PointRecord, data: seq<byte>, at: int)
    requires Representable(r) && 0 <= at && at + RECORD_READ <= |data| && HoldsRecord(data, at, r)
    ensures DecodeRecord(data, at) == r
  {
    CoordinatesRoundTrip(r, data, at);
    WordsRoundTrip(r, data, at);
    assert data[at + 13] == RecordByte(r, 13) == r.intensity / 256;
    assert data[at + 14] == RecordByte(r, 14) == FromBits(FlagBits(r));
    FlagsRoundTrip(r, data, at);
    assert data[at + 15] == RecordByte(r, 15);
  }

  /**
   * The flag fields of a decoded record are the bits of byte 14 in order:
   * `new BitArray(new byte[] { data[at + 14] })` (LidarData.cs:46).
   */
  lemma DecodedFlags(data: seq<byte>, at: int)
    requires 0 <= at && at + RECORD_READ <= |data|
    ensures FlagBits(DecodeRecord(data, at)) == Bits(data[at + 14], 8)
  {
    Regroup(Bits(data[at + 14], 8));
  }

  /** Eight bits regrouped as the three-, three-, one- and one-bit fields are the same bits. */
  lemma Regroup(bits: seq<bool>)
    requires |bits| == 8
    ensures [bits[0], bits[1], bits[2]] + [bits[3], bits[4], bits[5]] + [bits[6], bits[7]] == bits
  {
  }

  /** The X, Y and Z of a held record read back. */
  lemma CoordinatesRoundTrip(r: PointRecord, data: seq<byte>, at: int)
    requires Representable(r) && 0 <= at && at + RECORD_READ <= |data| && HoldsRecord(data, at, r)
    ensures var d := DecodeRecord(data, at); d.x == r.x && d.y == r.y && d.z == r.z
  {
    RecordField(r, data, at, 0, 4, r.x);
    RecordField(r, data, at, 4, 4, r.y);
    RecordField(r, data, at, 8, 4, r.z);
  }

  /** The intensity, point source ID and GPS time of a held record read back. */
  lemma WordsRoundTrip(r: PointRecord, data: seq<byte>, at: int)
    requires Representable(r) && 0 <= at && at + RECORD_READ <= |data| && HoldsRecord(data, at, r)
    ensures var d := DecodeRecord(data, at);
      d.intensity == r.intensity && d.pointSourceId == r.pointSourceId && d.gpsTime == r.gpsTime
  {
    RecordField(r, data, at, 12, 2, r.intensity);
    RecordField(r, data, at, 16, 2, r.pointSourceId);
    RecordField(r, data, at, 18, 8, r.gpsTime);
  }

  /** The flag byte of a representable record decodes to its four flag fields. */
  lemma FlagsRoundTrip(r: PointRecord, data: seq<byte>, at: int)
    requires Representable(r) && 0 <= at && at + RECORD_READ <= |data|
    requires data[at + 14] == FromBits(FlagBits(r))
    ensures var d := DecodeRecord(data, at);
      d.returnNumber == r.returnNumber && d.numberOfReturns == r.numberOfReturns &&
      d.scanDirectionFlag == r.scanDirectionFlag && d.edgeOfFlight == r.edgeOfFlight
  {
    BitsOfFromBits(FlagBits(r));
    var d := DecodeRecord(data, at);
    DecodedFlags(data, at);
    assert FlagBits(d) == FlagBits(r);
    assert FlagBits(d)[0..3] == d.returnNumber && FlagBits(d)[3..6] == d.numberOfReturns;
    assert FlagBits(r)[0..3] == r.returnNumber && FlagBits(r)[3..6] == r.numberOfReturns;
  }

  /** One little-endian field of a held record reads back as its value. */
  lemma RecordField(r: PointRecord, data: seq<byte>, at: int, start: nat, w: nat, v: int)
    requires Representable(r) && 0 <= at && at + RECORD_READ <= |data| && HoldsRecord(data, at, r)
    requires start + w <= RECORD_READ && Fits(v, w)
    requires forall j :: 0 <= j < w ==> RecordByte(r, start + j) == Digit(v, j)
    ensures LE(data, at + start, w) == v
  {
    forall j | 0 <= j < w
      ensures data[at + start + j] == Digit(v, j)
    {
      assert data[at + (start + j)] == RecordByte(r, start + j);
    }
    LEOfDigits(data, at + start, w, v);
  }

  /** EncodeRecord is a right inverse of DecodeRecord. */
  lemma EncodeDecodeRecord(r: PointRecord)
    requires Representable(r)
    ensures DecodeRecord(EncodeRecord(r), 0) == r
  {
    RecordRoundTrip(r, EncodeRecord(r), 0);
  }

  /** Every decoded record is representable. */
  lemma DecodedRepresentable(data: seq<byte>, at: int)
    requires 0 <= at && at + RECORD_READ <= |data|
    ensures Representable(DecodeRecord(data, at))
  {
    var r := DecodeRecord(data, at);
    LEBound(data, at, 4);
    LEBound(data, at + 4, 4);
    LEBound(data, at + 8, 4);
    LEBound(data, at + 12, 2);
    LEBound(data, at + 16, 2);
    LEBound(data, at + 18, 8);
    DecodedFlags(data, at);
    FromBitsOfBits(data[at + 14], 8);
    assert r.intensity == data[at + 12] as int + 256 * (data[at + 13] as int);
  }

  /**
   * Every decoded record is representable, and encoding it gives back the 26 bytes it
   * was read from.
   */
  lemma DecodeEncodeRecord(data: seq<byte>, at: int)
    requires 0 <= at && at + RECORD_READ <= |data|
    ensures Representable(DecodeRecord(data, at))
    ensures EncodeRecord(DecodeRecord(data, at))[..RECORD_READ] == data[at..at + RECORD_READ]
  {
    DecodedRepresentable(data, at);
    var r := DecodeRecord(data, at);
    forall i | 0 <= i < RECORD_READ
      ensures EncodeRecord(r)[i] == data[at + i]
    {
      DecodedByte(data, at, i);
    }
  }

  /** Byte i of a decoded record is the byte it was read from. */
  lemma DecodedByte(data: seq<byte>, at: int, i: int)
    requires 0 <= at && at + RECORD_READ <= |data| && 0 <= i < RECORD_READ
    ensures Representable(DecodeRecord(data, at))
    ensures RecordByte(DecodeRecord(data, at), i) == data[at + i]
  {
    DecodedRepresentable(data, at);
    if i < 4 {
      DecodedDigit(data, at, i, 0, 4);
    } else if i < 8 {
      DecodedDigit(data, at, i, 4, 4);
    } else if i < 12 {
      DecodedDigit(data, at, i, 8, 4);
    } else if i < 14 {
      DecodedDigit(data, at, i, 12, 2);
    } else if i < 16 {
      assert RecordByte(DecodeRecord(data, at), i) == data[at + i];
    } else if i < 18 {
      DecodedDigit(data, at, i, 16, 2);
    } else {
      DecodedDigit(data, at, i, 18, 8);
    }
  }

  /** A byte of a decoded little-endian field is the byte it was read from. */
  lemma DecodedDigit(data: seq<byte>, at: int, i: int, start: nat, w: nat)
    requires 0 <= at && at + RECORD_READ <= |data| && start <= i < start + w <= RECORD_READ
    requires Representable(DecodeRecord(data, at))
    requires RecordByte(DecodeRecord(data, at), i) == Digit(LE(data, at + start, w), i - start)
    ensures RecordByte(DecodeRecord(data, at), i) == data[at + i]
  {
    DigitOfLE(data, at + start, w, i - start);
  }

  /**
   * As written, the decoder gives every record a classification equal to the high byte
   * of its intensity and a scan angle equal to its flag byte.
   */
  lemma OverlappingReads(data: seq<byte>, at: int)
    requires 0 <= at && at + RECORD_READ <= |data|
    ensures var r := DecodeRecord(data, at);
      r.classification as int == r.intensity / 256 && r.scanAngle as int == FromBits(FlagBits(r))
  {
    DecodeEncodeRecord(data, at);
  }

  // ----- The public header block -----

  /** "LASF" in ASCII, the file signature at bytes 0-3. */
  const SIGNATURE: seq<byte> := [0x4C, 0x41, 0x53, 0x46]

  /** The header bytes ExtractPublicHeader reads: up to the end of the waveform start at 227. */
  const HEADER_READ := 235

  /**
   * The integer fields of the public header that LidarData.cs:83-120 reads. The string
   * fields (project ID 4, system identifier, generating software) are decoded and never
   * used, and the twelve doubles are only printed: of both, only the presence of their
   * bytes in the buffer matters.
   */
  datatype PublicHeader = PublicHeader(
    fileSourceId: int, globalEncoding: int,
    projectId1: int, projectId2: int, projectId3: int,
    versionMajor: byte, versionMinor: byte,
    creationDayOfYear: int, creationYear: int, headerSize: int,
    offsetToPointData: int, numberOfVarLengthRecords: int,
    pointDataFormat: byte, pointDataRecordLength: int,
    numberOfPointRecords: int, pointsByReturn: seq<int>,
    startOfWaveform: int)

  /**
   * How ExtractPublicHeader ends: it read the whole header, it returned early on a wrong
   * signature, or a read ran past the end of the buffer (a C# exception).
   */
  datatype HeaderOutcome = HeaderRead(header: PublicHeader) | NotLas | HeaderTruncated

  predicate IsLas(data: seq<byte>) {
    |data| >= 4 && data[..4] == SIGNATURE
  }

  /** The legacy number of point records by return, five 32-bit counts from byte 111. */
  function PointsByReturn(data: seq<byte>): (r: seq<int>)
    requires |data| >= 131
    ensures |r| == 5
  {
    seq(5, i requires 0 <= i < 5 => U32(data, 111 + 4 * i))
  }

  /** What ExtractPublicHeader (LidarData.cs:73-133) reads from `data`. */
  function ParseHeader(data: seq<byte>): HeaderOutcome {
    if |data| < 4 then HeaderTruncated
    else if !IsLas(data) then NotLas
    else if |data| < HEADER_READ then HeaderTruncated
    else HeaderRead(PublicHeader(
      U16(data, 4), U16(data, 6), U32(data, 8), U16(data, 12), U16(data, 14),
      data[24], data[25], U16(data, 90), U16(data, 92), U16(data, 94),
      U32(data, 96), U32(data, 100), data[104], U16(data, 105), U32(data, 107),
      PointsByReturn(data), U64(data, 227)))
  }

  /** OffsetDataPoints after ExtractPublicHeader: assigned at line 97 once bytes 96-99 exist. */
  function OffsetAfterHeader(data: seq<byte>, previous: int): int {
    if IsLas(data) && |data| >= 100 then U32(data, 96) else previous
  }

  /** NumberOfPointRecords after ExtractPublicHeader: assigned at line 102 once bytes 107-110 exist. */
  function CountAfterHeader(data: seq<byte>, previous: int): int {
    if IsLas(data) && |data| >= 111 then U32(data, 107) else previous
  }

  predicate HeaderFits(h: PublicHeader) {
    Fits(h.fileSourceId, 2) && Fits(h.globalEncoding, 2) && Fits(h.projectId1, 4) &&
    Fits(h.projectId2, 2) && Fits(h.projectId3, 2) && Fits(h.creationDayOfYear, 2) &&
    Fits(h.creationYear, 2) && Fits(h.headerSize, 2) && Fits(h.offsetToPointData, 4) &&
    Fits(h.numberOfVarLengthRecords, 4) && Fits(h.pointDataRecordLength, 2) &&
    Fits(h.numberOfPointRecords, 4) && Fits(h.startOfWaveform, 8) &&
    |h.pointsByReturn| == 5 && forall i :: 0 <= i < 5 ==> Fits(h.pointsByReturn[i], 4)
  }

  /** Byte `i` of a header carrying `h`, with zero bytes where the unkept fields are. */
  function HeaderByte(h: PublicHeader, i: int): byte
    requires HeaderFits(h) && 0 <= i < HEADER_READ
  {
    if i < 4 then SIGNATURE[i]
    else if i < 6 then Digit(h.fileSourceId, i - 4)
    else if i < 8 then Digit(h.globalEncoding, i - 6)
    else if i < 12 then Digit(h.projectId1, i - 8)
    else if i < 14 then Digit(h.projectId2, i - 12)
    else if i < 16 then Digit(h.projectId3, i - 14)
    else if i < 24 then 0
    else if i == 24 then h.versionMajor
    else if i == 25 then h.versionMinor
    else if i < 90 then 0
    else if i < 92 then Digit(h.creationDayOfYear, i - 90)
    else if i < 94 then Digit(h.creationYear, i - 92)
    else if i < 96 then Digit(h.headerSize, i - 94)
    else if i < 100 then Digit(h.offsetToPointData, i - 96)
    else if i < 104 then Digit(h.numberOfVarLengthRecords, i - 100)
    else if i == 104 then h.pointDataFormat
    else if i < 107 then Digit(h.pointDataRecordLength, i - 105)
    else if i < 111 then Digit(h.numberOfPointRecords, i - 107)
    else if i < 131 then Digit(h.pointsByReturn[(i - 111) / 4], (i - 111) % 4)
    else if i < 227 then 0
    else Digit(h.startOfWaveform, i - 227)
  }

  /**
   * The header positions whose bytes ParseHeader keeps: everything but the strings
   * (16-23, 26-89) and the doubles (131-226), whose bytes need only be present.
   */
  predicate KeptPosition(i: int) {
    i < 16 || 24 <= i < 26 || 90 <= i < 131 || 227 <= i
  }

  /**
   * `data` is at least a header long and carries `h` at the positions ParseHeader keeps;
   * the other header bytes are arbitrary.
   */
  predicate HoldsHeader(data: seq<byte>, h: PublicHeader)
    requires HeaderFits(h)
  {
    |data| >= HEADER_READ &&
    forall i :: 0 <= i < HEADER_READ && KeptPosition(i) ==> data[i] == HeaderByte(h, i)
  }

  /** One little-endian field of a held header reads back as its value. */
  lemma HeaderField(h: PublicHeader, data: seq<byte>, start: nat, w: nat, v: int)
    requires HeaderFits(h) && HoldsHeader(data, h) && start + w <= HEADER_READ && Fits(v, w)
    requires forall j :: 0 <= j < w ==> KeptPosition(start + j) && HeaderByte(h, start + j) == Digit(v, j)
    ensures LE(data, start, w) == v
  {
    forall j | 0 <= j < w
      ensures data[start + j] == Digit(v, j)
    {
      assert KeptPosition(start + j) && HeaderByte(h, start + j) == Digit(v, j);
      assert data[start + j] == HeaderByte(h, start + j);
    }
    LEOfDigits(data, start, w, v);
  }

  /** The fields before the offset to the point data read back. */
  lemma HeaderFieldsLow(h: PublicHeader, data: seq<byte>)
    requires HeaderFits(h) && HoldsHeader(data, h)
    ensures data[..4] == SIGNATURE
    ensures U16(data, 4) == h.fileSourceId && U16(data, 6) == h.globalEncoding
    ensures U32(data, 8) == h.projectId1 && U16(data, 12) == h.projectId2 && U16(data, 14) == h.projectId3
    ensures data[24] == h.versionMajor && data[25] == h.versionMinor
  {
    assert data[..4] == SIGNATURE by {
      forall i | 0 <= i < 4 ensures data[i] == SIGNATURE[i] {
        assert data[i] == HeaderByte(h, i);
      }
    }
    HeaderField(h, data, 4, 2, h.fileSourceId);
    HeaderField(h, data, 6, 2, h.globalEncoding);
    HeaderField(h, data, 8, 4, h.projectId1);
    HeaderField(h, data, 12, 2, h.projectId2);
    HeaderField(h, data, 14, 2, h.projectId3);
    assert data[24] == HeaderByte(h, 24) && data[25] == HeaderByte(h, 25);
  }

  /** The fields from the creation date to the number of point records read back. */
  lemma HeaderFieldsMiddle(h: PublicHeader, data: seq<byte>)
    requires HeaderFits(h) && HoldsHeader(data, h)
    ensures U16(data, 90) == h.creationDayOfYear && U16(data, 92) == h.creationYear
    ensures U16(data, 94) == h.headerSize && U32(data, 96) == h.offsetToPointData
    ensures U32(data, 100) == h.numberOfVarLengthRecords && data[104] == h.pointDataFormat
    ensures U16(data, 105) == h.pointDataRecordLength && U32(data, 107) == h.numberOfPointRecords
  {
    HeaderField(h, data, 90, 2, h.creationDayOfYear);
    HeaderField(h, data, 92, 2, h.creationYear);
    HeaderField(h, data, 94, 2, h.headerSize);
    HeaderField(h, data, 96, 4, h.offsetToPointData);
    HeaderField(h, data, 100, 4, h.numberOfVarLengthRecords);
    assert data[104] == HeaderByte(h, 104);
    HeaderField(h, data, 105, 2, h.pointDataRecordLength);
    HeaderField(h, data, 107, 4, h.numberOfPointRecords);
  }

  /** The counts by return and the waveform start read back. */
  lemma HeaderFieldsHigh(h: PublicHeader, data: seq<byte>)
    requires HeaderFits(h) && HoldsHeader(data, h)
    ensures PointsByReturn(data) == h.pointsByReturn && U64(data, 227) == h.startOfWaveform
  {
    forall k | 0 <= k < 5
      ensures PointsByReturn(data)[k] == h.pointsByReturn[k]
    {
      ByReturnField(h, data, k);
    }
    HeaderField(h, data, 227, 8, h.startOfWaveform);
  }

  /** Count k by return reads back. */
  lemma ByReturnField(h: PublicHeader, data: seq<byte>, k: int)
    requires HeaderFits(h) && HoldsHeader(data, h) && 0 <= k < 5
    ensures U32(data, 111 + 4 * k) == h.pointsByReturn[k]
  {
    forall j | 0 <= j < 4
      ensures HeaderByte(h, 111 + 4 * k + j) == Digit(h.pointsByReturn[k], j)
    {
      assert (111 + 4 * k + j - 111) / 4 == k && (111 + 4 * k + j - 111) % 4 == j;
    }
    HeaderField(h, data, 111 + 4 * k, 4, h.pointsByReturn[k]);
  }

  /** A buffer that starts with the bytes of a header carrying `h` parses to `h`. */
  lemma HeaderRoundTrip(h: PublicHeader, data: seq<byte>)
    requires HeaderFits(h) && HoldsHeader(data, h)
    ensures ParseHeader(data) == HeaderRead(h)
  {
    HeaderFieldsLow(h, data);
    HeaderFieldsMiddle(h, data);
    HeaderFieldsHigh(h, data);
  }

  /**
   * Conversely, a buffer that parses to a header carries it: its fields fit their widths
   * and the buffer holds it at every position ParseHeader keeps.
   */
  lemma ParsedHeaderHeld(data: seq<byte>)
    requires ParseHeader(data).HeaderRead?
    ensures HeaderFits(ParseHeader(data).header)
    ensures HoldsHeader(data, ParseHeader(data).header)
  {
    var h := ParseHeader(data).header;
    ParsedFits(data);
    forall i | 0 <= i < HEADER_READ && KeptPosition(i)
      ensures data[i] == HeaderByte(h, i)
    {
      ParsedByte(data, i);
    }
  }

  /** The fields of a parsed header fit their widths. */
  lemma ParsedFits(data: seq<byte>)
    requires ParseHeader(data).HeaderRead?
    ensures HeaderFits(ParseHeader(data).header)
  {
    LEBound(data, 4, 2);
    LEBound(data, 6, 2);
    LEBound(data, 8, 4);
    LEBound(data, 12, 2);
    LEBound(data, 14, 2);
    LEBound(data, 90, 2);
    LEBound(data, 92, 2);
    LEBound(data, 94, 2);
    LEBound(data, 96, 4);
    LEBound(data, 100, 4);
    LEBound(data, 105, 2);
    LEBound(data, 107, 4);
    LEBound(data, 227, 8);
    forall k | 0 <= k < 5
      ensures Fits(PointsByReturn(data)[k], 4)
    {
      LEBound(data, 111 + 4 * k, 4);
    }
  }

  /** A kept byte of a parsed buffer is the byte the parsed header puts there. */
  lemma ParsedByte(data: seq<byte>, i: int)
    requires ParseHeader(data).HeaderRead? && HeaderFits(ParseHeader(data).header)
    requires 0 <= i < HEADER_READ && KeptPosition(i)
    ensures data[i] == HeaderByte(ParseHeader(data).header, i)
  {
    if i < 4 {
      assert data[..4][i] == SIGNATURE[i];
    } else if i < 6 {
      DigitOfLE(data, 4, 2, i - 4);
    } else if i < 8 {
      DigitOfLE(data, 6, 2, i - 6);
    } else if i < 12 {
      DigitOfLE(data, 8, 4, i - 8);
    } else if i < 14 {
      DigitOfLE(data, 12, 2, i - 12);
    } else if i < 16 {
      DigitOfLE(data, 14, 2, i - 14);
    } else if i < 90 {
    } else if i < 92 {
      DigitOfLE(data, 90, 2, i - 90);
    } else if i < 94 {
      DigitOfLE(data, 92, 2, i - 92);
    } else if i < 96 {
      DigitOfLE(data, 94, 2, i - 94);
    } else if i < 100 {
      DigitOfLE(data, 96, 4, i - 96);
    } else if i < 104 {
      DigitOfLE(data, 100, 4, i - 100);
    } else if i == 104 {
    } else if i < 107 {
      DigitOfLE(data, 105, 2, i - 105);
    } else if i < 111 {
      DigitOfLE(data, 107, 4, i - 107);
    } else if i < 131 {
      var k := (i - 111) / 4;
      DigitOfLE(data, 111 + 4 * k, 4, (i - 111) % 4);
    } else {
      DigitOfLE(data, 227, 8, i - 227);
    }
  }

  // ----- The records of a buffer -----

  /**
   * Whether all the reads of the record at ulong position `pos` stay in the buffer: they
   * are made at `(int)pos` + 0 to + 25 (LidarData.cs:46-61).
   */
  predicate Readable(data: seq<byte>, pos: int)
    requires pos >= 0
  {
    0 <= ToInt32(pos) && ToInt32(pos) + RECORD_READ <= |data|
  }

  /** The ulong position of record k of the run from `offset`: 28 bytes per record. */
  function RecordPos(offset: nat, k: nat): nat {
    offset + RECORD_STRIDE * k
  }

  /** The first `n` records of the run that starts at ulong position `offset` can be read. */
  predicate AllReadable(data: seq<byte>, offset: nat, n: nat)
    decreases n
  {
    n == 0 || (AllReadable(data, offset, n - 1) && Readable(data, RecordPos(offset, n - 1)))
  }

  /** Each record of a readable run can be read. */
  lemma {:induction false} AllReadableAt(data: seq<byte>, offset: nat, n: nat, k: nat)
    requires AllReadable(data, offset, n) && k < n
    ensures Readable(data, RecordPos(offset, k))
    decreases n
  {
    if k < n - 1 {
      AllReadableAt(data, offset, n - 1, k);
    }
  }

  /** The first `n` records of the run from `offset`, in file order. */
  function ReadRun(data: seq<byte>, offset: nat, n: nat): (r: seq<PointRecord>)
    requires AllReadable(data, offset, n)
    ensures |r| == n
    decreases n
  {
    if n == 0 then []
    else
      ReadRun(data, offset, n - 1) + [DecodeRecord(data, ToInt32(RecordPos(offset, n - 1)))]
  }

  /**
   * A run one record longer, when that record can be read: one unfolding of ReadRun and
   * AllReadable, the step ExtractDataPoints' loop takes.
   */
  lemma ReadRunNext(data: seq<byte>, offset: nat, n: nat)
    requires AllReadable(data, offset, n) && Readable(data, RecordPos(offset, n))
    ensures AllReadable(data, offset, n + 1)
    ensures ReadRun(data, offset, n + 1) == ReadRun(data, offset, n) + [DecodeRecord(data, ToInt32(RecordPos(offset, n)))]
  {
  }

  /** Record k of a run is the record decoded at `(int)(offset + 28 * k)`. */
  lemma {:induction false} ReadRunAt(data: seq<byte>, offset: nat, n: nat, k: nat)
    requires AllReadable(data, offset, n) && k < n
    ensures Readable(data, RecordPos(offset, k))
    ensures ReadRun(data, offset, n)[k] == DecodeRecord(data, ToInt32(RecordPos(offset, k)))
    decreases n
  {
    AllReadableAt(data, offset, n, k);
    if k < n - 1 {
      ReadRunAt(data, offset, n - 1, k);
    }
  }

  /** How a record loop ends: every record read, or a read past the end of the buffer. */
  datatype Outcome = Completed | ReadPastEnd

  /**
   * ExtractDataPoints' result for `count` records from `offset`: the records read, in
   * file order, stopping at the first record that does not fit in the buffer.
   */
  predicate ExtractedFrom(recs: seq<PointRecord>, outcome: Outcome, data: seq<byte>, offset: nat, count: nat) {
    AllReadable(data, offset, |recs|) && recs == ReadRun(data, offset, |recs|) &&
    (outcome == Completed ==> |recs| == count) &&
    (outcome == ReadPastEnd ==> |recs| < count && !Readable(data, RecordPos(offset, |recs|)))
  }

  /** ExtractedFrom determines the records and the outcome. */
  lemma ExtractedFromUnique(r1: seq<PointRecord>, o1: Outcome, r2: seq<PointRecord>, o2: Outcome,
                            data: seq<byte>, offset: nat, count: nat)
    requires ExtractedFrom(r1, o1, data, offset, count) && ExtractedFrom(r2, o2, data, offset, count)
    ensures r1 == r2 && o1 == o2
  {
    if |r1| < |r2| {
      AllReadableAt(data, offset, |r2|, |r1|);
      assert false;
    } else if |r2| < |r1| {
      AllReadableAt(data, offset, |r1|, |r2|);
      assert false;
    }
  }

  /**
   * `count` records from a 32-bit offset can all be read exactly when the last one ends
   * within the buffer: `offset + 28 * (count - 1) + 26 <= |data|`. Each is then read at
   * its own position, as the cast to int changes none of them.
   */
  lemma {:induction false} AllRecordsReadable(data: ByteArray, offset: nat, count: nat)
    requires offset < 0x1_0000_0000 && count > 0
    ensures AllReadable(data, offset, count) <==>
            RecordPos(offset, count - 1) + RECORD_READ <= |data|
    ensures RecordPos(offset, count - 1) + RECORD_READ <= |data| ==>
            forall k :: 0 <= k < count ==> ToInt32(RecordPos(offset, k)) == RecordPos(offset, k)
  {
    if RecordPos(offset, count - 1) + RECORD_READ <= |data| {
      InPlaceReadable(data, offset, count);
      forall k | 0 <= k < count
        ensures ToInt32(RecordPos(offset, k)) == RecordPos(offset, k)
      {
        ToInt32Range(RecordPos(offset, k));
      }
    }
    if AllReadable(data, offset, count) {
      ReadablePrefixFits(data, offset, count - 1);
    }
  }

  /** A run whose last record ends within the buffer can be read record by record. */
  lemma {:induction false} InPlaceReadable(data: ByteArray, offset: nat, n: nat)
    requires n > 0 && RecordPos(offset, n - 1) + RECORD_READ <= |data|
    ensures AllReadable(data, offset, n)
    decreases n
  {
    ToInt32Range(RecordPos(offset, n - 1));
    if n > 1 {
      InPlaceReadable(data, offset, n - 1);
    }
  }

  /** When records 0..k can all be read, record k sits below 2^31 and is read in place. */
  lemma {:induction false} ReadablePrefixFits(data: ByteArray, offset: nat, k: nat)
    requires offset < 0x1_0000_0000
    requires AllReadable(data, offset, k + 1)
    ensures RecordPos(offset, k) <= INT32_MAX
    ensures ToInt32(RecordPos(offset, k)) == RecordPos(offset, k)
    decreases k
  {
    var pos := RecordPos(offset, k);
    if k > 0 {
      ReadablePrefixFits(data, offset, k - 1);
    }
    ToInt32Range(pos);
  }

  // ----- Buffers built from a header and records -----

  /** A header and records that a buffer of at most int.MaxValue bytes can carry. */
  predicate FileFits(h: PublicHeader, recs: seq<PointRecord>) {
    HeaderFits(h) && h.offsetToPointData >= HEADER_READ && h.numberOfPointRecords == |recs| &&
    (forall k :: 0 <= k < |recs| ==> Representable(recs[k])) &&
    h.offsetToPointData + RECORD_STRIDE * |recs| <= INT32_MAX
  }

  /** Byte `i` of the buffer holding the header, zero padding, then the records. */
  function FileByte(h: PublicHeader, recs: seq<PointRecord>, i: int): byte
    requires FileFits(h, recs) && 0 <= i < h.offsetToPointData + RECORD_STRIDE * |recs|
  {
    if i < HEADER_READ then HeaderByte(h, i)
    else if i < h.offsetToPointData then 0
    else
      var k := (i - h.offsetToPointData) / RECORD_STRIDE;
      RecordByte(recs[k], (i - h.offsetToPointData) % RECORD_STRIDE)
  }

  function EncodeFile(h: PublicHeader, recs: seq<PointRecord>): (data: ByteArray)
    requires FileFits(h, recs)
    ensures |data| == h.offsetToPointData + RECORD_STRIDE * |recs|
  {
    seq(h.offsetToPointData + RECORD_STRIDE * |recs|, i requires 0 <= i < h.offsetToPointData + RECORD_STRIDE * |recs| =>
      FileByte(h, recs, i))
  }

  /**
   * A buffer built from a header and N records parses to that header, and its record run
   * is read completely, giving back exactly those N records in order.
   */
  lemma FileRoundTrip(h: PublicHeader, recs: seq<PointRecord>)
    requires FileFits(h, recs)
    ensures ParseHeader(EncodeFile(h, recs)) == HeaderRead(h)
    ensures ExtractedFrom(recs, Completed, EncodeFile(h, recs), h.offsetToPointData, h.numberOfPointRecords)
  {
    FileHeader(h, recs);
    FileRecords(h, recs);
    RunCompleted(EncodeFile(h, recs), h.offsetToPointData, recs);
  }

  /** The header of a built buffer parses back. */
  lemma FileHeader(h: PublicHeader, recs: seq<PointRecord>)
    requires FileFits(h, recs)
    ensures HoldsHeader(EncodeFile(h, recs), h)
    ensures ParseHeader(EncodeFile(h, recs)) == HeaderRead(h)
  {
    var data := EncodeFile(h, recs);
    assert HoldsHeader(data, h) by {
      forall i | 0 <= i < HEADER_READ
        ensures data[i] == HeaderByte(h, i)
      {
      }
    }
    HeaderRoundTrip(h, data);
  }

  /** Every record of a built buffer decodes back. */
  lemma FileRecords(h: PublicHeader, recs: seq<PointRecord>)
    requires FileFits(h, recs)
    ensures HoldsRun(EncodeFile(h, recs), h.offsetToPointData, recs)
  {
    forall k | 0 <= k < |recs|
      ensures Readable(EncodeFile(h, recs), RecordPos(h.offsetToPointData, k))
      ensures recs[k] == DecodeRecord(EncodeFile(h, recs), ToInt32(RecordPos(h.offsetToPointData, k)))
    {
      FileRecord(h, recs, k);
    }
  }

  /**
   * Any buffer that carries a header at the positions ParseHeader keeps, and N records
   * one after the other from the header's offset, parses to that header and gives back
   * exactly those records, whatever its string, double and padding bytes hold.
   */
  lemma BufferRoundTrip(data: seq<byte>, h: PublicHeader, recs: seq<PointRecord>)
    requires HeaderFits(h) && HoldsHeader(data, h) && h.numberOfPointRecords == |recs|
    requires HoldsRun(data, h.offsetToPointData, recs)
    ensures ParseHeader(data) == HeaderRead(h)
    ensures ExtractedFrom(recs, Completed, data, h.offsetToPointData, h.numberOfPointRecords)
  {
    HeaderRoundTrip(h, data);
    RunCompleted(data, h.offsetToPointData, recs);
  }

  /** Records that sit one after the other from `offset` are what the run reads. */
  predicate HoldsRun(data: seq<byte>, offset: nat, recs: seq<PointRecord>) {
    forall k :: 0 <= k < |recs| ==>
      Readable(data, RecordPos(offset, k)) && recs[k] == DecodeRecord(data, ToInt32(RecordPos(offset, k)))
  }

  /** A buffer holding `recs` from `offset` on gives exactly `recs` when |recs| are asked for. */
  lemma RunCompleted(data: seq<byte>, offset: nat, recs: seq<PointRecord>)
    requires HoldsRun(data, offset, recs)
    ensures ExtractedFrom(recs, Completed, data, offset, |recs|)
  {
    RunOfRecords(data, offset, recs, |recs|);
    assert recs[..|recs|] == recs;
  }

  lemma PrefixSnoc<T>(s: seq<T>, n: nat)
    requires 0 < n <= |s|
    ensures s[..n] == s[..n - 1] + [s[n - 1]]
  {
  }

  /** The first n records of the run over a buffer holding `recs` are the first n of `recs`. */
  lemma {:induction false} RunOfRecords(data: seq<byte>, offset: nat, recs: seq<PointRecord>, n: nat)
    requires HoldsRun(data, offset, recs) && n <= |recs|
    ensures AllReadable(data, offset, n)
    ensures ReadRun(data, offset, n) == recs[..n]
    decreases n
  {
    if n > 0 {
      RunOfRecords(data, offset, recs, n - 1);
      assert ReadRun(data, offset, n) == ReadRun(data, offset, n - 1) + [recs[n - 1]];
      PrefixSnoc(recs, n);
    }
  }

  /** Record k of a built buffer sits at its own position and decodes to recs[k]. */
  lemma FileRecord(h: PublicHeader, recs: seq<PointRecord>, k: int)
    requires FileFits(h, recs) && 0 <= k < |recs|
    ensures Readable(EncodeFile(h, recs), RecordPos(h.offsetToPointData, k))
    ensures recs[k] == DecodeRecord(EncodeFile(h, recs), ToInt32(RecordPos(h.offsetToPointData, k)))
  {
    var data := EncodeFile(h, recs);
    var offset := h.offsetToPointData;
    var pos := RecordPos(offset, k);
    ToInt32Range(pos);
    forall j | 0 <= j < RECORD_READ
      ensures data[pos + j] == RecordByte(recs[k], j)
    {
      assert (pos + j - offset) / RECORD_STRIDE == k && (pos + j - offset) % RECORD_STRIDE == j;
    }
    RecordRoundTrip(recs[k], data, pos);
  }

  // ----- The decoder object -----

  class LidarData {
    /** OffsetDataPoints and NumberOfPointRecords (LidarData.cs:16-17), `ulong`s. */
    var offsetDataPoints: int
    var numberOfPointRecords: int
    /** PointDataRecords (LidarData.cs:18); the model writes `[]` for its initial `null`. */
    var pointDataRecords: seq<PointRecord>

    /** Both counts hold 32-bit values: they are only ever assigned ToUInt32 results. */
    ghost predicate Valid()
      reads this
    {
      0 <= offsetDataPoints < 0x1_0000_0000 && 0 <= numberOfPointRecords < 0x1_0000_0000
    }

    constructor ()
      ensures Valid() && offsetDataPoints == 0 && numberOfPointRecords == 0 && pointDataRecords == []
    {
      offsetDataPoints, numberOfPointRecords, pointDataRecords := 0, 0, [];
    }

    /**
     * ExtractPublicHeader (LidarData.cs:73-133): with a "LASF" signature it reads the
     * header, setting OffsetDataPoints and NumberOfPointRecords as soon as their bytes
     * have been read; a wrong signature returns before anything is assigned. A buffer
     * that ends inside the header makes a read throw, leaving what was assigned before it.
     */
    method ExtractPublicHeader(data: ByteArray) returns (outcome: HeaderOutcome)
      requires Valid()
      modifies this
      ensures Valid() && outcome == ParseHeader(data)
      ensures offsetDataPoints == OffsetAfterHeader(data, old(offsetDataPoints))
      ensures numberOfPointRecords == CountAfterHeader(data, old(numberOfPointRecords))
      ensures pointDataRecords == old(pointDataRecords)
    {
      var n := |data|;
      if n < 4 {
        return HeaderTruncated;
      }
      if data[..4] != SIGNATURE {
        return NotLas;
      }
      if n < 100 {
        return HeaderTruncated;
      }
      LEBound(data, 96, 4);
      offsetDataPoints := U32(data, 96);
      if n < 111 {
        return HeaderTruncated;
      }
      LEBound(data, 107, 4);
      numberOfPointRecords := U32(data, 107);
      var byReturn := new int[5];
      for i := 0 to 5
        modifies byReturn
        invariant 111 + 4 * i <= n
        invariant forall k :: 0 <= k < i ==> byReturn[k] == U32(data, 111 + 4 * k)
      {
        if n < 111 + 4 * i + 4 {
          return HeaderTruncated;
        }
        byReturn[i] := U32(data, 111 + 4 * i);
      }
      if n < HEADER_READ {
        return HeaderTruncated;
      }
      assert byReturn[..] == PointsByReturn(data);
      outcome := HeaderRead(PublicHeader(
        U16(data, 4), U16(data, 6), U32(data, 8), U16(data, 12), U16(data, 14),
        data[24], data[25], U16(data, 90), U16(data, 92), U16(data, 94),
        offsetDataPoints, U32(data, 100), data[104], U16(data, 105), numberOfPointRecords,
        byReturn[..], U64(data, 227)));
    }

    /**
     * ExtractDataPoints (LidarData.cs:39-67): a new record list, then NumberOfPointRecords
     * records from OffsetDataPoints on, 28 bytes apart, each appended once all its reads
     * succeeded; the first record that does not fit makes a read throw.
     */
    method ExtractDataPoints(data: ByteArray) returns (outcome: Outcome)
      requires Valid()
      modifies this
      ensures Valid()
      ensures offsetDataPoints == old(offsetDataPoints) && numberOfPointRecords == old(numberOfPointRecords)
      ensures ExtractedFrom(pointDataRecords, outcome, data, offsetDataPoints, numberOfPointRecords)
    {
      var offset: nat, count: nat := offsetDataPoints, numberOfPointRecords;
      pointDataRecords := [];
      var currentPos := offset;
      var i := 1;
      while i <= count
        invariant offsetDataPoints == offset && numberOfPointRecords == count
        invariant 1 <= i <= count + 1 && |pointDataRecords| == i - 1
        invariant currentPos == RecordPos(offset, |pointDataRecords|)
        invariant AllReadable(data, offset, |pointDataRecords|)
        invariant pointDataRecords == ReadRun(data, offset, |pointDataRecords|)
        decreases count + 1 - i
      {
        var at := ToInt32(currentPos);
        if !(0 <= at && at + RECORD_READ <= |data|) {
          return ReadPastEnd;
        }
        ReadRunNext(data, offset, |pointDataRecords|);
        pointDataRecords := pointDataRecords + [DecodeRecord(data, at)];
        currentPos := currentPos + RECORD_STRIDE;
        i := i + 1;
      }
      return Completed;
    }

    /**
     * UploadFile (LidarData.cs:24-33) on the file's contents: the header, then the
     * records. `header` is how the header read ended and `outcome` how the record read
     * ended. A buffer that ends inside the header stops at the header's exception, before
     * any record is read; a wrong signature does not stop it, so the records are read
     * with the counts as they were before.
     */
    method UploadFile(data: ByteArray) returns (header: HeaderOutcome, outcome: Outcome)
      requires Valid()
      modifies this
      ensures Valid() && header == ParseHeader(data)
      ensures offsetDataPoints == OffsetAfterHeader(data, old(offsetDataPoints))
      ensures numberOfPointRecords == CountAfterHeader(data, old(numberOfPointRecords))
      ensures header.HeaderTruncated? ==> pointDataRecords == old(pointDataRecords)
      ensures !header.HeaderTruncated? ==>
        ExtractedFrom(pointDataRecords, outcome, data, offsetDataPoints, numberOfPointRecords)
    {
      header := ExtractPublicHeader(data);
      if header.HeaderTruncated? {
        return header, ReadPastEnd;
      }
      outcome := ExtractDataPoints(data);
    }
  }

  /**
   * A new LidarData given a buffer without the "LASF" signature keeps both counts at 0,
   * so its upload completes with no records.
   */
  method UploadNotLas(data: ByteArray) returns (header: HeaderOutcome, outcome: Outcome, records: seq<PointRecord>)
    requires |data| >= 4 && !IsLas(data)
    ensures header == NotLas && outcome == Completed && records == []
  {
    var lidar := new LidarData();
    header, outcome := lidar.UploadFile(data);
    records := lidar.pointDataRecords;
  }

  /**
   * Uploading any buffer that carries a header at the positions ParseHeader keeps and N
   * records from its offset reads that header and completes with exactly those records.
   */
  method UploadHeld(data: ByteArray, h: PublicHeader, recs: seq<PointRecord>)
    returns (header: HeaderOutcome, outcome: Outcome, records: seq<PointRecord>)
    requires HeaderFits(h) && HoldsHeader(data, h) && h.numberOfPointRecords == |recs|
    requires HoldsRun(data, h.offsetToPointData, recs)
    ensures header == HeaderRead(h) && outcome == Completed && records == recs
  {
    BufferRoundTrip(data, h, recs);
    var lidar := new LidarData();
    header, outcome := lidar.UploadFile(data);
    records := lidar.pointDataRecords;
    ExtractedFromUnique(records, outcome, recs, Completed, data, h.offsetToPointData, h.numberOfPointRecords);
  }

  /**
   * Uploading a buffer built from a header and N records reads that header, completes
   * and gives back exactly those records.
   */
  method UploadEncoded(h: PublicHeader, recs: seq<PointRecord>) returns (header: HeaderOutcome, outcome: Outcome, records: seq<PointRecord>)
    requires FileFits(h, recs)
    ensures header == HeaderRead(h) && outcome == Completed && records == recs
  {
    var data := EncodeFile(h, recs);
    FileHeader(h, recs);
    FileRecords(h, recs);
    header, outcome, records := UploadHeld(data, h, recs);
  }
}
