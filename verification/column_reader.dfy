/** Reading a ClickHouse compact-part `data.bin`: each block is a 16-byte
    CityHash128 checksum, a 9-byte header (compression method, compressed
    size, decompressed size) and the payload. The functions say what each
    read yields and where it leaves the stream; the methods perform the reads
    on a `BufReader` and are proved to agree with them. */
module ColumnReader {
  import opened Bytes
  import opened Outcomes
  import opened Io
  import opened City
  import opened CityHash
  import opened LowHigh
  import opened Utf8

  /** `CHECKSUM_SIZE`: the size of a `u128`. */
  const CHECKSUM_SIZE: nat := 16
  /** `__HEADER_SIZE`: the method byte and the two `u32` sizes. */
  const HEADER_SIZE: nat := 9

  /** `CompressMethod`, named after ClickHouse's codecs. */
  datatype CompressMethod =
    | NONE | LZ4 | ZSTD | Multiple | Delta | T64 | DoubleDelta | Gorilla
    | AES_128_GCM_SIV | AES_256_GCM_SIV | FPC | DeflateQpl | GCD | ZSTD_QPL

  /** The tag each method is stored as (its enum discriminant). */
  function Discriminant(m: CompressMethod): Byte {
    match m
    case NONE => 0x02
    case LZ4 => 0x82
    case ZSTD => 0x90
    case Multiple => 0x91
    case Delta => 0x92
    case T64 => 0x93
    case DoubleDelta => 0x94
    case Gorilla => 0x95
    case AES_128_GCM_SIV => 0x96
    case AES_256_GCM_SIV => 0x97
    case FPC => 0x98
    case DeflateQpl => 0x99
    case GCD => 0x9a
    case ZSTD_QPL => 0x9b
  }

  predicate KnownTag(b: Byte) {
    b == 0x02 || b == 0x82 || 0x90 <= b <= 0x9b
  }

  /** `CompressMethod::from_u8`. `None` stands for its panic on every other byte. */
  function FromU8(b: Byte): (r: Option<CompressMethod>)
    ensures r.Some? <==> KnownTag(b)
    ensures r.Some? ==> Discriminant(r.value) == b
  {
    match b
    case 0x02 => Some(NONE)
    case 0x82 => Some(LZ4)
    case 0x90 => Some(ZSTD)
    case 0x91 => Some(Multiple)
    case 0x92 => Some(Delta)
    case 0x93 => Some(T64)
    case 0x94 => Some(DoubleDelta)
    case 0x95 => Some(Gorilla)
    case 0x96 => Some(AES_128_GCM_SIV)
    case 0x97 => Some(AES_256_GCM_SIV)
    case 0x98 => Some(FPC)
    case 0x99 => Some(DeflateQpl)
    case 0x9a => Some(GCD)
    case 0x9b => Some(ZSTD_QPL)
    case _ => None
  }

  /** Every method is decoded from its own tag, so tags and methods are in
      one-to-one correspondence. */
  lemma FromU8Discriminant(m: CompressMethod)
    ensures FromU8(Discriminant(m)) == Some(m)
  {
  }

  /** `CompressionInfo`. */
  datatype CompressionInfo = CompressionInfo(
    checksumBytes: seq<Byte>,
    compressionMethod: CompressMethod,
    sizeCompressedWithoutChecksum: U32,
    sizeDecompressed: U32)

  /** What `__validate_checksum` computes and prints: the stored halves and
      the halves of the CityHash128 of the data. */
  datatype ChecksumReport = ChecksumReport(
    actualLow: U64, actualHigh: U64, calculatedLow: U64, calculatedHigh: U64)

  /** The report for a stored checksum and a computed CityHash128: the stored
      checksum's two little-endian halves, low first, and the hash's halves. */
  function ReportOf(hash: Uint128, checksumBytes: seq<Byte>): ChecksumReport
    requires |checksumBytes| >= CHECKSUM_SIZE
  {
    ChecksumReport(FromLe(checksumBytes[..8]), FromLe(checksumBytes[8..16]), Uint128Low64(hash), Uint128High64(hash))
  }

  /** `read_u64::<LittleEndian>` on an in-memory cursor. */
  function ReadU64LeAt(bytes: seq<Byte>, pos: nat): (s: Step<U64>)
    ensures s.result.Ok? <==> pos + 8 <= |bytes|
    ensures s.result.Ok? ==> s.result.value == FromLe(bytes[pos..pos + 8]) && s.next == pos + 8
  {
    var r := ReadExactAt(bytes, pos, 8);
    match r.result
    case Ok(b) => Step(Ok(U64FromLeBytes(b)), r.next)
    case Err(e) => Step(Err(e), r.next)
  }

  /** `__validate_checksum`: reads the stored checksum as two little-endian
      `u64`s (low first), hashes the data, and succeeds whenever the stored
      checksum is long enough. The two values are never compared, so a
      mismatch is not rejected. */
  function ValidateChecksum(dataBytes: seq<Byte>, checksumBytes: seq<Byte>,
                            cityHash128: seq<Byte> -> Uint128): (r: Result<ChecksumReport>)
    ensures r.Ok? <==> |checksumBytes| >= CHECKSUM_SIZE
    ensures r.Ok? ==> r.value == ReportOf(cityHash128(dataBytes), checksumBytes)
  {
    var low := ReadU64LeAt(checksumBytes, 0);
    if low.result.Err? then Err(low.result.error) else
    var high := ReadU64LeAt(checksumBytes, low.next);
    if high.result.Err? then Err(high.result.error) else
    var calculated := CityHash128Packed(cityHash128, dataBytes);
    Ok(ChecksumReport(low.result.value, high.result.value, LowHalf(calculated), HighHalf(calculated)))
  }

  /** The halves that `__validate_checksum` reads back are the stored 16
      bytes taken as one little-endian `u128`, split as `LowHigh` splits it. */
  lemma {:induction false} StoredChecksumHalves(checksumBytes: seq<Byte>, dataBytes: seq<Byte>,
                                                cityHash128: seq<Byte> -> Uint128)
    requires |checksumBytes| == CHECKSUM_SIZE
    ensures var r := ValidateChecksum(dataBytes, checksumBytes, cityHash128);
      r.Ok? && FromHalfs(r.value.actualHigh, r.value.actualLow) == FromLe(checksumBytes)
  {
    FromLeHalves(checksumBytes);
    assert checksumBytes[8..16] == checksumBytes[8..];
  }

  // ---- the block header ----

  /** The compressed size stored at block offset 17. */
  function CompressedSizeAt(data: seq<Byte>, start: nat): U32
    requires start + 25 <= |data|
  {
    U32FromLeBytes(data[start + 17..start + 21])
  }

  /** The fields at the front of a block at `start` can be read: the 25
      header bytes are there and the method tag is known. */
  predicate FieldsFit(data: seq<Byte>, start: nat) {
    start + CHECKSUM_SIZE + HEADER_SIZE <= |data| && KnownTag(data[start + 16])
  }

  /** A header read from `start` succeeds: the fields can be read and the
      stream holds the whole checksummed span, `size_compressed_without_checksum`
      bytes from the method byte on. */
  predicate HeaderFits(data: seq<Byte>, start: nat) {
    FieldsFit(data, start) && start + CHECKSUM_SIZE + CompressedSizeAt(data, start) <= |data|
  }

  /** The method tag of a block at `start` is in the stream and is not one of
      the known tags, so `from_u8` panics on it. */
  predicate UnknownTagAt(data: seq<Byte>, start: nat) {
    start + CHECKSUM_SIZE + 1 <= |data| && !KnownTag(data[start + 16])
  }

  /** The header at `start`, field by field at the offsets of the block layout. */
  function HeaderAt(data: seq<Byte>, start: nat): CompressionInfo
    requires FieldsFit(data, start)
  {
    CompressionInfo(
      data[start..start + 16],
      FromU8(data[start + 16]).value,
      CompressedSizeAt(data, start),
      U32FromLeBytes(data[start + 21..start + 25]))
  }

  /** The first half of `read_header_and_get_codec_and_size`: the checksum,
      the method byte and the two sizes, read in turn. A short read is
      `UnexpectedEof`; the only panic is an unknown method. */
  function HeaderFieldsAt(data: seq<Byte>, start: nat): (s: Step<CompressionInfo>)
    ensures s.result.Ok? <==> FieldsFit(data, start)
    ensures s.result.Ok? ==> s.result.value == HeaderAt(data, start) && s.next == start + 25
    ensures s.result.Err? ==>
      (s.result.error.Panic? <==> start + 17 <= |data| && !KnownTag(data[start + 16]))
    ensures s.result.Err? && s.result.error.Panic? ==> s.next == start + 17
    ensures s.result.Err? && !s.result.error.Panic? ==>
      s.result.error == UnexpectedEof && s.next == Max(start, |data|)
  {
    var checksum := ReadExactAt(data, start, CHECKSUM_SIZE);
    if checksum.result.Err? then Step(Err(checksum.result.error), checksum.next) else
    var tag := ReadU8At(data, checksum.next);
    if tag.result.Err? then Step(Err(tag.result.error), tag.next) else
    var decoded := FromU8(tag.result.value);
    if decoded.None? then Step(Err(Panic("Unknown compression method")), tag.next) else
    var compressed := ReadExactAt(data, tag.next, 4);
    if compressed.result.Err? then Step(Err(compressed.result.error), compressed.next) else
    var decompressed := ReadExactAt(data, compressed.next, 4);
    if decompressed.result.Err? then Step(Err(decompressed.result.error), decompressed.next) else
    Step(Ok(CompressionInfo(checksum.result.value, decoded.value, U32FromLeBytes(compressed.result.value),
                            U32FromLeBytes(decompressed.result.value))), decompressed.next)
  }

  /** The second half of `read_header_and_get_codec_and_size`, at `pos` just
      past the header: seek back over the header, read the `size` bytes of
      the checksummed span, seek back over them and forward over the header. */
  function SpanCheckAt(data: seq<Byte>, pos: nat, size: nat): (s: Step<()>)
    ensures pos >= HEADER_SIZE ==> var from := pos - HEADER_SIZE;
      && (s.result.Ok? <==> size == 0 || from + size <= |data|)
      && (s.result.Ok? ==> s.next == pos)
      && (s.result.Err? ==> s.result.error == UnexpectedEof && s.next == Max(from, |data|))
  {
    var back := SeekCurrentAt(pos, -(HEADER_SIZE as int));
    if back.result.Err? then Step(Err(back.result.error), back.next) else
    var span := ReadExactAt(data, back.next, size);
    if span.result.Err? then Step(Err(span.result.error), span.next) else
    var rewind := SeekCurrentAt(span.next, -(size as int));
    assert rewind.result.Ok?; // the span was just read
    var skip := SeekCurrentAt(rewind.next, HEADER_SIZE);
    Step(Ok(()), skip.next)
  }

  /** `read_header_and_get_codec_and_size` on a stream at `start`: the fields,
      then the pass over the checksummed span. */
  function ParseHeader(data: seq<Byte>, start: nat): (s: Step<CompressionInfo>)
    ensures s.result.Ok? <==> HeaderFits(data, start)
    ensures s.result.Ok? ==> s.result.value == HeaderAt(data, start) && s.next == start + 25
    ensures s.result.Err? ==>
      (s.result.error.Panic? <==> start + 17 <= |data| && !KnownTag(data[start + 16]))
    ensures s.result.Err? && s.result.error.Panic? ==> s.next == start + 17
    ensures s.result.Err? && !s.result.error.Panic? ==>
      s.result.error == UnexpectedEof && s.next == Max(start, |data|)
  {
    var fields := HeaderFieldsAt(data, start);
    if fields.result.Err? then fields else
    var checked := SpanCheckAt(data, fields.next, fields.result.value.sizeCompressedWithoutChecksum);
    if checked.result.Err? then Step(Err(checked.result.error), checked.next) else
    Step(fields.result, checked.next)
  }

  /** A zeroed buffer of `n` bytes (`vec![0u8; n]` or `[0u8; n]`) filled by
      `read_exact`; on success its contents are the result. */
  method ReadVec(reader: BufReader, n: nat) returns (r: Result<seq<Byte>>)
    modifies reader
    ensures Step(r, reader.pos) == ReadExactAt(reader.data, old(reader.pos), n)
  {
    var buffer := new Byte[n];
    var ok := reader.ReadExact(buffer);
    if ok.Err? {
      return Err(ok.error);
    }
    r := Ok(buffer[..]);
  }

  /** The fields of `read_header_and_get_codec_and_size`, read in turn. */
  method ReadHeaderFields(reader: BufReader) returns (res: Result<CompressionInfo>)
    modifies reader
    ensures Step(res, reader.pos) == HeaderFieldsAt(reader.data, old(reader.pos))
  {
    var checksumBytes := ReadVec(reader, CHECKSUM_SIZE);
    if checksumBytes.Err? {
      return Err(checksumBytes.error);
    }

    var tag := reader.ReadU8();
    if tag.Err? {
      return Err(tag.error);
    }
    var compressionMethod := FromU8(tag.value);
    if compressionMethod.None? {
      return Err(Panic("Unknown compression method"));
    }

    var buffer := ReadVec(reader, 4);
    if buffer.Err? {
      return Err(buffer.error);
    }
    var sizeCompressedWithoutChecksum := U32FromLeBytes(buffer.value);
    buffer := ReadVec(reader, 4);
    if buffer.Err? {
      return Err(buffer.error);
    }
    var sizeDecompressed := U32FromLeBytes(buffer.value);
    res := Ok(CompressionInfo(checksumBytes.value, compressionMethod.value,
                              sizeCompressedWithoutChecksum, sizeDecompressed));
  }

  /** The second half of `read_header_and_get_codec_and_size`: the
      checksummed span read into `vec![0u8; size]` and handed with the stored
      checksum to `__validate_checksum`, whose printed values are `report`;
      then the seeks back to the end of the header. */
  method ReadChecksummedSpan(reader: BufReader, ghost from: nat, size: nat, checksumBytes: seq<Byte>,
                             cityHash128: seq<Byte> -> Uint128)
    returns (r: Result<()>, report: Option<ChecksumReport>, ghost hashed: seq<Byte>)
    requires |checksumBytes| == CHECKSUM_SIZE && reader.pos == from + HEADER_SIZE <= |reader.data|
    modifies reader
    ensures Step(r, reader.pos) == SpanCheckAt(reader.data, old(reader.pos), size)
    ensures report.Some? <==> r.Ok?
    ensures r.Ok? ==> from + size <= |reader.data| && hashed == reader.data[from..from + size]
    ensures r.Ok? ==> report == Some(ReportOf(cityHash128(hashed), checksumBytes))
  {
    var seeked := reader.SeekCurrent(-(HEADER_SIZE as int));
    assert seeked.Ok?; // the header was just read, so the position is at least 9
    var dataBytes := ReadVec(reader, size);
    if dataBytes.Err? {
      return Err(dataBytes.error), None, [];
    }
    hashed := dataBytes.value;
    assert hashed == reader.data[from..from + size];
    var validated := ValidateChecksum(dataBytes.value, checksumBytes, cityHash128);
    assert validated.Ok?; // the stored checksum is 16 bytes long

    seeked := reader.SeekCurrent(-(size as int));
    assert seeked.Ok?; // the span was just read
    seeked := reader.SeekCurrent(HEADER_SIZE);
    r, report := Ok(()), Some(validated.value);
  }

  /** `read_header_and_get_codec_and_size`. `report` is what
      `__validate_checksum` prints, present once the checksummed span has
      been read: the stored halves and those of the CityHash128 of the span
      from the method byte on, which never includes the checksum itself. */
  method ReadHeaderAndGetCodecAndSize(reader: BufReader, cityHash128: seq<Byte> -> Uint128)
    returns (res: Result<CompressionInfo>, report: Option<ChecksumReport>, ghost hashed: seq<Byte>)
    modifies reader
    ensures Step(res, reader.pos) == ParseHeader(reader.data, old(reader.pos))
    ensures report.Some? <==> res.Ok?
    ensures res.Ok? ==> var start, size := old(reader.pos), res.value.sizeCompressedWithoutChecksum;
      start + CHECKSUM_SIZE + size <= |reader.data| && hashed == reader.data[start + CHECKSUM_SIZE..start + CHECKSUM_SIZE + size]
    ensures res.Ok? ==> report == Some(ReportOf(cityHash128(hashed), res.value.checksumBytes))
  {
    ghost var start := reader.pos;
    var compressionInfo := ReadHeaderFields(reader);
    if compressionInfo.Err? {
      return compressionInfo, None, [];
    }
    var checked;
    checked, report, hashed := ReadChecksummedSpan(reader, start + CHECKSUM_SIZE, compressionInfo.value.sizeCompressedWithoutChecksum,
                                           compressionInfo.value.checksumBytes, cityHash128);
    if checked.Err? {
      return Err(checked.error), None, [];
    }
    res := compressionInfo;
  }

  // ---- typed values ----

  /** `read_string`: one length byte `L`, then `L` bytes that must be UTF-8. */
  function StringAt(data: seq<Byte>, pos: nat): (s: Step<seq<Byte>>)
    ensures s.result.Ok? <==>
      pos < |data| && pos + 1 + data[pos] <= |data| && Valid(data[pos + 1..pos + 1 + data[pos]])
    ensures s.result.Ok? ==>
      s.result.value == data[pos + 1..pos + 1 + data[pos]] && s.next == pos + 1 + data[pos]
    ensures s.result.Err? ==>
      (s.result.error == InvalidUtf8 <==> pos < |data| && pos + 1 + data[pos] <= |data|)
    ensures s.result.Err? && s.result.error == InvalidUtf8 ==> s.next == pos + 1 + data[pos]
    ensures s.result.Err? && s.result.error != InvalidUtf8 ==>
      s.result.error == UnexpectedEof && s.next == Max(pos, |data|)
  {
    var len := ReadU8At(data, pos);
    if len.result.Err? then Step(Err(len.result.error), len.next) else
    assert len.result.value == data[pos] && len.next == pos + 1;
    var bytes := ReadExactAt(data, len.next, len.result.value);
    if bytes.result.Err? then Step(Err(bytes.result.error), bytes.next) else
    assert bytes.result.value == data[pos + 1..pos + 1 + data[pos]];
    if !Valid(bytes.result.value) then Step(Err(InvalidUtf8), bytes.next)
    else Step(Ok(bytes.result.value), bytes.next)
  }

  /** `read_string`; the string it prints is returned. */
  method ReadString(reader: BufReader) returns (res: Result<seq<Byte>>)
    modifies reader
    ensures Step(res, reader.pos) == StringAt(reader.data, old(reader.pos))
  {
    var len := reader.ReadU8();
    if len.Err? {
      return Err(len.error);
    }
    var buffer := ReadVec(reader, len.value);
    if buffer.Err? {
      return Err(buffer.error);
    }
    if !Valid(buffer.value) {
      return Err(InvalidUtf8);
    }
    res := Ok(buffer.value);
  }

  /** `read_int`: reads `size_decompressed` bytes, then `try_into().unwrap()`
      panics unless exactly four were read. */
  function IntAt(data: seq<Byte>, pos: nat, size: U32): (s: Step<U32>)
    ensures s.result.Ok? <==> size == 4 && pos + 4 <= |data|
    ensures s.result.Ok? ==> s.result.value == U32FromLeBytes(data[pos..pos + 4]) && s.next == pos + 4
    ensures s.result.Err? ==>
      if size == 0 || pos + size <= |data| then s.result.error.Panic? else s.result.error == UnexpectedEof
  {
    var bytes := ReadExactAt(data, pos, size);
    if bytes.result.Err? then Step(Err(bytes.result.error), bytes.next) else
    if size != 4 then Step(Err(Panic("called `Result::unwrap()` on an `Err` value")), bytes.next)
    else Step(Ok(U32FromLeBytes(bytes.result.value)), bytes.next)
  }

  /** `read_int`; the integer it prints is returned. */
  method ReadInt(reader: BufReader, compressionInfo: CompressionInfo) returns (res: Result<U32>)
    modifies reader
    ensures Step(res, reader.pos) == IntAt(reader.data, old(reader.pos), compressionInfo.sizeDecompressed)
  {
    var buffer := ReadVec(reader, compressionInfo.sizeDecompressed);
    if buffer.Err? {
      return Err(buffer.error);
    }
    if |buffer.value| != 4 {
      return Err(Panic("called `Result::unwrap()` on an `Err` value"));
    }
    res := Ok(U32FromLeBytes(buffer.value));
  }

  // ---- the two-block file ----

  /** The first half of `read`: a block header, whose values are dropped,
      then `read_string`. It succeeds exactly when the header fits and the
      string after it is read; a panic can only come from the header's tag. */
  function StringBlockAt(data: seq<Byte>, pos: nat): (s: Step<seq<Byte>>)
    ensures s.result.Ok? <==> HeaderFits(data, pos) && StringAt(data, pos + 25).result.Ok?
    ensures HeaderFits(data, pos) ==> s == StringAt(data, pos + 25)
    ensures !HeaderFits(data, pos) ==> s.result.Err? && (s.result.error.Panic? <==> UnknownTagAt(data, pos))
    ensures !HeaderFits(data, pos) && !s.result.error.Panic? ==>
      s.result.error == UnexpectedEof && s.next == Max(pos, |data|)
  {
    var header := ParseHeader(data, pos);
    if header.result.Err? then Step(Err(header.result.error), header.next) else
    StringAt(data, header.next)
  }

  /** An integer block at `pos` can be read: its header fits, its
      decompressed size is 4 and the 4 bytes follow the header. */
  predicate IntBlockFits(data: seq<Byte>, pos: nat) {
    HeaderFits(data, pos) && HeaderAt(data, pos).sizeDecompressed == 4 && pos + 29 <= |data|
  }

  /** The integer such a block holds: the 4 bytes after its header, little-endian. */
  function IntBlockValue(data: seq<Byte>, pos: nat): U32
    requires IntBlockFits(data, pos)
  {
    U32FromLeBytes(data[pos + 25..pos + 29])
  }

  /** The second half of `read`: a block header, then `read_int` on its
      decompressed size. It succeeds exactly when the header fits, that size
      is 4 and the 4 bytes are there, and yields their little-endian value.
      It panics on an unknown tag or, at `unwrap`, on any other size whose
      bytes are there; every other failure is `UnexpectedEof`. */
  function IntBlockAt(data: seq<Byte>, pos: nat): (s: Step<U32>)
    ensures s.result.Ok? <==> IntBlockFits(data, pos)
    ensures s.result.Ok? ==> s.result.value == IntBlockValue(data, pos) && s.next == pos + 29
    ensures s.result.Err? ==> (s.result.error.Panic? <==>
      || UnknownTagAt(data, pos)
      || (&& HeaderFits(data, pos) && HeaderAt(data, pos).sizeDecompressed != 4
          && pos + 25 + HeaderAt(data, pos).sizeDecompressed <= |data|))
    ensures s.result.Err? && !s.result.error.Panic? ==>
      s.result.error == UnexpectedEof && s.next == Max(pos, |data|)
  {
    var header := ParseHeader(data, pos);
    if header.result.Err? then Step(Err(header.result.error), header.next) else
    IntAt(data, header.next, header.result.value.sizeDecompressed)
  }

  /** `read`: the string block, then the integer block. On success the
      string is valid UTF-8 of at most 255 bytes and exactly 55 bytes besides
      it were consumed, all within the file. */
  function ReadTwoBlocks(data: seq<Byte>, pos: nat): (s: Step<(seq<Byte>, U32)>)
    ensures s.result.Ok? ==> var text := s.result.value.0;
      Valid(text) && |text| < 0x100 && s.next == pos + 55 + |text| <= |data|
  {
    var first := StringBlockAt(data, pos);
    if first.result.Err? then Step(Err(first.result.error), first.next) else
    var second := IntBlockAt(data, first.next);
    if second.result.Err? then Step(Err(second.result.error), second.next) else
    Step(Ok((first.result.value, second.result.value)), second.next)
  }

  /** `read`; the string and the integer it prints are returned. */
  method Read(reader: BufReader, cityHash128: seq<Byte> -> Uint128) returns (res: Result<(seq<Byte>, U32)>)
    modifies reader
    ensures Step(res, reader.pos) == ReadTwoBlocks(reader.data, old(reader.pos))
  {
    var compressionInfo, report;
    ghost var hashed;
    compressionInfo, report, hashed := ReadHeaderAndGetCodecAndSize(reader, cityHash128);
    if compressionInfo.Err? {
      return Err(compressionInfo.error);
    }
    var s := ReadString(reader);
    if s.Err? {
      return Err(s.error);
    }
    compressionInfo, report, hashed := ReadHeaderAndGetCodecAndSize(reader, cityHash128);
    if compressionInfo.Err? {
      return Err(compressionInfo.error);
    }
    var n := ReadInt(reader, compressionInfo.value);
    if n.Err? {
      return Err(n.error);
    }
    res := Ok((s.value, n.value));
  }

  // ---- writing blocks, and reading them back ----

  /** A block as ClickHouse lays it out: the checksum, the method tag, the
      compressed size (header plus payload, so at least 9), the decompressed
      size, then the payload. */
  function EncodeBlock(checksum: seq<Byte>, m: CompressMethod, sizeDecompressed: U32,
                       payload: seq<Byte>): (block: seq<Byte>)
    requires |checksum| == CHECKSUM_SIZE && HEADER_SIZE + |payload| < TWO32
    ensures |block| == CHECKSUM_SIZE + HEADER_SIZE + |payload|
    ensures block[..CHECKSUM_SIZE] == checksum && block[CHECKSUM_SIZE + HEADER_SIZE..] == payload
  {
    checksum + [Discriminant(m)] + ToLe(HEADER_SIZE + |payload|, 4) + ToLe(sizeDecompressed, 4) + payload
  }

  /** The header of a well-formed block, wherever it sits in the stream, is
      read back field by field, and the reader stops at its payload. */
  lemma ParseEncodedHeader(prefix: seq<Byte>, checksum: seq<Byte>, m: CompressMethod,
                           sizeDecompressed: U32, payload: seq<Byte>, rest: seq<Byte>)
    requires |checksum| == CHECKSUM_SIZE && HEADER_SIZE + |payload| < TWO32
    ensures var data := prefix + EncodeBlock(checksum, m, sizeDecompressed, payload) + rest;
      ParseHeader(data, |prefix|) ==
        Step(Ok(CompressionInfo(checksum, m, HEADER_SIZE + |payload|, sizeDecompressed)), |prefix| + 25)
  {
    var block := EncodeBlock(checksum, m, sizeDecompressed, payload);
    var data := prefix + block + rest;
    var start := |prefix|;
    assert data[start..start + |block|] == block;
    assert data[start..start + 16] == checksum;
    assert data[start + 16] == Discriminant(m);
    FromU8Discriminant(m);
    assert data[start + 17..start + 21] == ToLe(HEADER_SIZE + |payload|, 4);
    assert data[start + 21..start + 25] == ToLe(sizeDecompressed, 4);
    U32RoundTrip(HEADER_SIZE + |payload|);
    U32RoundTrip(sizeDecompressed);
    assert HeaderFits(data, start);
  }

  /** A block cut short anywhere before its end fails with `UnexpectedEof`:
      truncation never reaches the method panic, and the cursor is left at
      the end of the stream. */
  lemma TruncatedHeaderIsEof(prefix: seq<Byte>, checksum: seq<Byte>, m: CompressMethod,
                             sizeDecompressed: U32, payload: seq<Byte>, k: nat)
    requires |checksum| == CHECKSUM_SIZE && HEADER_SIZE + |payload| < TWO32
    requires k < CHECKSUM_SIZE + HEADER_SIZE + |payload|
    ensures var data := prefix + EncodeBlock(checksum, m, sizeDecompressed, payload)[..k];
      ParseHeader(data, |prefix|) == Step(Err(UnexpectedEof), |data|)
  {
    var block := EncodeBlock(checksum, m, sizeDecompressed, payload);
    var data := prefix + block[..k];
    var start := |prefix|;
    assert start + 17 <= |data| ==> KnownTag(data[start + 16]) by {
      if k > 16 {
        assert data[start + 16] == block[16] == Discriminant(m);
        FromU8Discriminant(m);
      }
    }
    assert !HeaderFits(data, start) by {
      if k >= 25 {
        assert data[start + 17..start + 21] == block[17..21] == ToLe(HEADER_SIZE + |payload|, 4);
        U32RoundTrip(HEADER_SIZE + |payload|);
      }
    }
  }

  /** A string stored as its length byte followed by its UTF-8 bytes is
      read back by `read_string`. */
  lemma StringRoundTrip(data: seq<Byte>, pos: nat, s: string)
    requires |Encode(s)| < 0x100 && pos + 1 + |Encode(s)| <= |data|
    requires data[pos] == |Encode(s)| && data[pos + 1..pos + 1 + |Encode(s)|] == Encode(s)
    ensures StringAt(data, pos) == Step(Ok(Encode(s)), pos + 1 + |Encode(s)|)
  {
    EncodeValid(s);
  }

  /** A `u32` stored as four little-endian bytes is read back by `read_int`
      when the block says it decompresses to four bytes. */
  lemma IntRoundTrip(data: seq<Byte>, pos: nat, x: U32)
    requires pos + 4 <= |data| && data[pos..pos + 4] == ToLe(x, 4)
    ensures IntAt(data, pos, 4) == Step(Ok(x), pos + 4)
  {
    U32RoundTrip(x);
  }

  /** The string in a block whose payload is a length-prefixed valid UTF-8
      string is read back from the end of the header. */
  lemma StringInBlock(checksum: seq<Byte>, m: CompressMethod, sizeDecompressed: U32,
                      text: seq<Byte>, rest: seq<Byte>)
    requires |checksum| == CHECKSUM_SIZE && |text| < 0x100 && Valid(text)
    ensures var block := EncodeBlock(checksum, m, sizeDecompressed, [|text|] + text);
      StringAt(block + rest, 25) == Step(Ok(text), |block|)
  {
    var payload := [|text|] + text;
    var block := EncodeBlock(checksum, m, sizeDecompressed, payload);
    var data := block + rest;
    assert data[25..|block|] == payload;
    assert data[26..|block|] == payload[1..] == text;
  }

  /** The integer in a block whose payload is four little-endian bytes is
      read back from the end of the header. */
  lemma IntInBlock(prefix: seq<Byte>, checksum: seq<Byte>, m: CompressMethod, x: U32,
                   rest: seq<Byte>)
    requires |checksum| == CHECKSUM_SIZE
    ensures var block := EncodeBlock(checksum, m, 4, ToLe(x, 4));
      IntAt(prefix + block + rest, |prefix| + 25, 4) == Step(Ok(x), |prefix| + |block|)
  {
    var payload := ToLe(x, 4);
    var block := EncodeBlock(checksum, m, 4, payload);
    var data := prefix + block + rest;
    var p := |prefix|;
    assert data[p..p + |block|] == block;
    assert data[p + 25..p + |block|] == block[25..] == payload;
    IntRoundTrip(data, p + 25, x);
  }

  /** `read` succeeds when each of its four reads does, one after the other. */
  lemma ReadTwoBlocksOk(data: seq<Byte>, pos: nat, p1: nat, p2: nat, p3: nat, p4: nat)
    requires ParseHeader(data, pos).result.Ok? && ParseHeader(data, pos).next == p1
    requires StringAt(data, p1).result.Ok? && StringAt(data, p1).next == p2
    requires ParseHeader(data, p2).result.Ok? && ParseHeader(data, p2).next == p3
    requires IntAt(data, p3, ParseHeader(data, p2).result.value.sizeDecompressed).result.Ok?
    requires IntAt(data, p3, ParseHeader(data, p2).result.value.sizeDecompressed).next == p4
    ensures ReadTwoBlocks(data, pos) ==
      Step(Ok((StringAt(data, p1).result.value,
               IntAt(data, p3, ParseHeader(data, p2).result.value.sizeDecompressed).result.value)), p4)
  {
  }

  /** Every relative seek `read` makes lands inside the stream: the seek back
      over the header follows a 25-byte read, and the seek back over the span
      follows its read. So `read` never fails with `InvalidSeek`. */
  lemma ReadNeverFailsToSeek(data: seq<Byte>, pos: nat)
    ensures ReadTwoBlocks(data, pos).result.Err? ==> ReadTwoBlocks(data, pos).result.error != InvalidSeek
  {
  }

  /** `read` succeeds exactly when the first header fits, a valid string
      follows it, the second header fits after the string, that header's
      decompressed size is 4 and the 4 bytes are there. It then returns the
      string and their little-endian `u32`. */
  lemma ReadTwoBlocksSucceeds(data: seq<Byte>, pos: nat)
    ensures var str := StringAt(data, pos + 25);
      ReadTwoBlocks(data, pos).result.Ok? <==>
        HeaderFits(data, pos) && str.result.Ok? && IntBlockFits(data, str.next)
    ensures var str := StringAt(data, pos + 25);
      ReadTwoBlocks(data, pos).result.Ok? ==>
        && str.result.Ok? && IntBlockFits(data, str.next)
        && ReadTwoBlocks(data, pos).result.value == (str.result.value, IntBlockValue(data, str.next))
  {
  }

  /** `read` panics exactly when `from_u8` meets an unknown tag in either
      block, or when the second block's decompressed size is not 4 although
      that many bytes are there, so that `try_into().unwrap()` fails. */
  lemma ReadTwoBlocksPanics(data: seq<Byte>, pos: nat)
    ensures var str := StringAt(data, pos + 25); var p2 := str.next;
      (ReadTwoBlocks(data, pos).result.Err? && ReadTwoBlocks(data, pos).result.error.Panic?) <==>
        || UnknownTagAt(data, pos)
        || (&& HeaderFits(data, pos) && str.result.Ok?
            && (|| UnknownTagAt(data, p2)
                || (&& HeaderFits(data, p2) && HeaderAt(data, p2).sizeDecompressed != 4
                    && p2 + 25 + HeaderAt(data, p2).sizeDecompressed <= |data|)))
  {
  }

  /** `read` fails with `InvalidUtf8` exactly when the first header fits and
      the string after it is complete but not UTF-8; every failure that is
      neither that nor a panic is `UnexpectedEof`. */
  lemma ReadTwoBlocksOtherErrors(data: seq<Byte>, pos: nat)
    ensures (ReadTwoBlocks(data, pos).result.Err? && ReadTwoBlocks(data, pos).result.error == InvalidUtf8) <==>
      HeaderFits(data, pos) && StringAt(data, pos + 25).result.Err? && StringAt(data, pos + 25).result.error == InvalidUtf8
    ensures ReadTwoBlocks(data, pos).result.Err? ==>
      ReadTwoBlocks(data, pos).result.error in {UnexpectedEof, InvalidUtf8} || ReadTwoBlocks(data, pos).result.error.Panic?
  {
  }

  lemma AppendAssociative(a: seq<Byte>, b: seq<Byte>, c: seq<Byte>)
    ensures a + (b + c) == a + b + c
  {
  }

  /** The file `read` expects: a block holding a length-prefixed string and
      a block holding a four-byte integer. Whatever the stored checksums and
      compression methods are, and whatever follows, `read` returns the
      string's UTF-8 bytes and the integer and stops after the second block:
      checksums are never compared and payloads are never decompressed. */
  lemma TwoBlockFile(c1: seq<Byte>, m1: CompressMethod, size1: U32, text: seq<Byte>,
                     c2: seq<Byte>, m2: CompressMethod, x: U32, rest: seq<Byte>)
    requires |c1| == CHECKSUM_SIZE && |c2| == CHECKSUM_SIZE && |text| < 0x100 && Valid(text)
    ensures var first := EncodeBlock(c1, m1, size1, [|text|] + text);
      var second := EncodeBlock(c2, m2, 4, ToLe(x, 4));
      ReadTwoBlocks(first + second + rest, 0) == Step(Ok((text, x)), |first| + |second|)
  {
    var first := EncodeBlock(c1, m1, size1, [|text|] + text);
    var second := EncodeBlock(c2, m2, 4, ToLe(x, 4));
    var data := first + second + rest;
    ParseEncodedHeader([], c1, m1, size1, [|text|] + text, second + rest);
    StringInBlock(c1, m1, size1, text, second + rest);
    AppendAssociative(first, second, rest);
    assert [] + first == first;
    ParseEncodedHeader(first, c2, m2, 4, ToLe(x, 4), rest);
    IntInBlock(first, c2, m2, x, rest);
    ReadTwoBlocksOk(data, 0, 25, |first|, |first| + 25, |first| + |second|);
  }

  /** The same file, with the first block holding a Rust string. */
  lemma TwoBlockFileWithString(c1: seq<Byte>, m1: CompressMethod, size1: U32, s: string,
                               c2: seq<Byte>, m2: CompressMethod, x: U32, rest: seq<Byte>)
    requires |c1| == CHECKSUM_SIZE && |c2| == CHECKSUM_SIZE && |Encode(s)| < 0x100
    ensures var text := Encode(s);
      var first := EncodeBlock(c1, m1, size1, [|text|] + text);
      var second := EncodeBlock(c2, m2, 4, ToLe(x, 4));
      ReadTwoBlocks(first + second + rest, 0) == Step(Ok((text, x)), |first| + |second|)
  {
    EncodeValid(s);
    TwoBlockFile(c1, m1, size1, Encode(s), c2, m2, x, rest);
  }
}
