# ClickHouse compact-part reader and CityHash128 packing, in Dafny

This project models the code in clickhouse-experiments that reads a ClickHouse
compact-part `data.bin` file, together with the two pieces of the CityHash
binding it relies on.

A compact-part file is a sequence of blocks. Each block holds:

- a 16-byte CityHash128 checksum;
- a 9-byte header: the compression-method byte, then two little-endian `u32`
  sizes (compressed without checksum, and decompressed);
- the payload.

`read` walks a two-block file. The first block holds a length-prefixed UTF-8
string; the second holds a little-endian `u32`.

The modules:

- `Io` (`buf_reader.dfy`): the `BufReader` over the file is a class holding
  the file's bytes and a stream position. Its `ReadExact`, `ReadU8` and
  `SeekCurrent` methods move the position. The functions `ReadExactAt`,
  `ReadU8At` and `SeekCurrentAt` specify each step as a result plus a new
  position, and each method is proved to agree with its function.
- `ColumnReader` (`column_reader.dfy`):
  - `CompressMethod` and `from_u8`;
  - `CompressionInfo`;
  - `__validate_checksum`;
  - `read_header_and_get_codec_and_size`, `read_string`, `read_int` and `read`.

  Each reading operation is a module-level method that takes the
  `BufReader` and is proved equal to a specification function over (bytes,
  position): `ParseHeader`, `StringAt`,
  `IntAt` and `ReadTwoBlocks`. Lemmas then prove what a reader of the format
  expects of those functions. The main one is that a block laid out as
  ClickHouse writes it is read back field by field.
- `LowHigh` (`u128_low_high.dfy`): `low_half`, `high_half` and `from_halfs` for
  `u128`, for both endianness branches. They are written with the casts,
  shifts and bitwise or of the Rust code, over unbounded integers, with the
  128-bit truncation made explicit.
- `City` (`city.dfy`):
  - the `uint128` value type, its accessors and its defaulted `operator<=>`;
  - the `Hash128to64` mixer in wrapping 64-bit arithmetic (`bv64`);
  - the C-ABI wrapper that returns `CityHash128`'s two halves.

  The CityHash128 algorithm itself is a parameter, `cityHash128: seq<Byte> ->
  Uint128`.
- `CityHash` (`cityhash.dfy`): `city_hash_128`, which packs the wrapper's two
  halves into one `u128`.
- `Bytes` and `Utf8` are supporting modules. `Bytes` covers fixed-width
  integers and little-endian encodings, as `u32::from_le_bytes` and
  `read_u64::<LittleEndian>` read them. `Utf8` is the validity check
  `std::str::from_utf8` makes, following Table 3-7 of the Unicode Standard.

Outcomes are values of `Result`:

- I/O failures: `UnexpectedEof` for a short read and `InvalidSeek` for a seek
  before the start of the file;
- `InvalidUtf8`;
- `Panic(message)` for the places where the Rust code panics.

This is how `from_u8` and the `unwrap` in `read_int` are modelled.

Where the code and its descriptions disagree, the model follows the code:

- **Checksums are never compared.** `__validate_checksum` reads the two
  stored halves and hashes the span, but returns `Ok` whatever the values
  are. `ValidateChecksum` succeeds exactly when the stored checksum has at
  least 16 bytes. `TwoBlockFile` shows that `read` accepts a file whatever its stored
  checksums are.
- **An unknown method byte panics.** It does not produce a recoverable error.

## Model

| member | source | states |
|---|---|---|
| Io.ReadExactAt | storage/src/bin/column_reader.rs:72 | `read_exact` of `n` bytes succeeds iff `n` is 0 or the bytes are there. On success it yields exactly the next `n` bytes and advances by `n`. Otherwise it is `UnexpectedEof` and the position moves to the end of the file. |
| Io.ReadU8At | storage/src/bin/column_reader.rs:76 | `read_u8` succeeds iff a byte is left. It yields that byte and advances by one. Otherwise it is `UnexpectedEof` and the position moves to the end of the file. |
| Io.SeekCurrentAt | storage/src/bin/column_reader.rs:103 | `SeekFrom::Current(offset)` succeeds iff the target is not before the start. It then moves there, possibly past the end. Otherwise it is `InvalidSeek` and the position is unchanged. |
| Io.BufReader.constructor | storage/src/bin/column_reader.rs:39 | A new reader is at position 0 over the file's bytes. |
| Io.BufReader.ReadExact | storage/src/bin/column_reader.rs:72 | Fills the buffer in place and moves the position exactly as `ReadExactAt` says. On a short read, the remaining bytes land at the front of the buffer and the rest of the buffer is untouched. |
| Io.BufReader.ReadU8 | storage/src/bin/column_reader.rs:76 | Result and new position are those of `ReadU8At`. |
| Io.BufReader.SeekCurrent | storage/src/bin/column_reader.rs:111-114 | Result and new position are those of `SeekCurrentAt`. |
| ColumnReader.FromU8 | storage/src/bin/column_reader.rs:202-220 | Decodes exactly the 14 listed tags, each to the variant whose discriminant is that tag. Every other byte is the panic arm (`None`). |
| ColumnReader.FromU8Discriminant | storage/src/bin/column_reader.rs:185-220 | Variant → discriminant → `from_u8` gives the variant back, for all 14 variants. |
| ColumnReader.ReadU64LeAt | storage/src/bin/column_reader.rs:128-129 | `read_u64::<LittleEndian>` on the checksum cursor succeeds iff 8 bytes remain. It yields their little-endian value and advances by 8. |
| ColumnReader.ValidateChecksum | storage/src/bin/column_reader.rs:126-141 | Succeeds iff the stored checksum has at least 16 bytes, with no comparison. Its report is `ReportOf` the `CityHash128` of the data it is given: low is the LE `u64` of checksum bytes 0..8, high that of bytes 8..16, and the calculated halves are `low64` and `high64` of the hash. |
| ColumnReader.StoredChecksumHalves | storage/src/bin/column_reader.rs:127-129 | For a 16-byte checksum, `from_halfs(high, low)` of the two halves read is the 16 bytes taken as one little-endian `u128`. |
| ColumnReader.HeaderFieldsAt | storage/src/bin/column_reader.rs:70-95 | Reading checksum, method byte and both sizes succeeds iff the 25 bytes are there and the tag is known. It then yields the fields as stored and stops at block start + 25. An unknown tag, once read, is the only panic, with the position just past the tag. Every other failure is `UnexpectedEof` at the end of the file. |
| ColumnReader.SpanCheckAt | storage/src/bin/column_reader.rs:102-114 | From just past a header, the pass seeks back 9 bytes to the method byte, reads `size` bytes, seeks back `size` bytes and then forward 9. It succeeds iff `size` is 0 or the span from the method byte fits in the file. It then leaves the position just past the header. Otherwise it is `UnexpectedEof` at the end of the file. None of its seeks can fail. |
| ColumnReader.ParseHeader | storage/src/bin/column_reader.rs:67-124 | The header read succeeds iff all of these hold: the 25 header bytes are present, the tag is known, and 16 + compressed-size bytes are present from block start. On success the info is the checksum verbatim, the decoded method and both sizes, and the position is block start + 25. An unknown tag, once read, is the only panic. Every other failure is `UnexpectedEof` with the position at the end of the file. |
| ColumnReader.ReadVec | storage/src/bin/column_reader.rs:104-105 | A zeroed buffer filled by `read_exact` yields what `ReadExactAt` says. |
| ColumnReader.ReadHeaderFields | storage/src/bin/column_reader.rs:70-95 | Result and final position are those of `HeaderFieldsAt`. |
| ColumnReader.ReadChecksummedSpan | storage/src/bin/column_reader.rs:102-114 | Result and final position are those of `SpanCheckAt`. A report exists iff it succeeds. The report is then `ReportOf` the stored checksum and the `CityHash128` of exactly the `size` bytes read, starting at the method byte. |
| ColumnReader.ReadHeaderAndGetCodecAndSize | storage/src/bin/column_reader.rs:67-124 | Result and final position are those of `ParseHeader`. A `__validate_checksum` report exists iff the read succeeds. The report is then `ReportOf` the stored checksum and the `CityHash128` of the `size_compressed_without_checksum` bytes from the method byte on. The checksum itself is never hashed. |
| ColumnReader.StringAt | storage/src/bin/column_reader.rs:143-157 | `read_string` succeeds iff the length byte `L`, then `L` bytes, are present and those bytes are valid UTF-8. It yields them and advances by 1 + `L`. It fails with `InvalidUtf8` iff all `L` bytes were read, and the position is then 1 + `L` past the start. Every other failure is `UnexpectedEof` with the position at the end of the file. |
| ColumnReader.ReadString | storage/src/bin/column_reader.rs:143-157 | Result and final position are those of `StringAt`. |
| ColumnReader.IntAt | storage/src/bin/column_reader.rs:159-168 | `read_int` succeeds iff `size_decompressed` is 4 and 4 bytes are present. It yields their LE `u32` and advances by 4. When the bytes are there but the size is not 4, it panics at `unwrap`. |
| ColumnReader.ReadInt | storage/src/bin/column_reader.rs:159-168 | Result and final position are those of `IntAt`. |
| ColumnReader.StringBlockAt | storage/src/bin/column_reader.rs:49-53 | `read`'s first block (a header, then `read_string`) succeeds iff the header fits and the string after it is read. It then is exactly that string read. A panic comes only from an unknown tag. Any other failure of the header is `UnexpectedEof` at the end of the file. |
| ColumnReader.IntBlockAt | storage/src/bin/column_reader.rs:58-59 | `read`'s second block (a header, then `read_int` on its decompressed size) succeeds iff the header fits, the size is 4 and the 4 bytes are there. It yields their LE `u32` and stops 29 bytes on. It panics iff the tag is unknown, or the header fits and the size is not 4 although that many bytes are there. Every other failure is `UnexpectedEof` at the end of the file. |
| ColumnReader.ReadTwoBlocks | storage/src/bin/column_reader.rs:46-63 | On success the string is valid UTF-8 of at most 255 bytes. The reader has then consumed 55 bytes plus the string, all within the file: two 25-byte headers, the length byte and a 4-byte integer. |
| ColumnReader.ReadTwoBlocksSucceeds | storage/src/bin/column_reader.rs:46-63 | For every input, `read` succeeds iff three things hold: the first header fits, a valid string follows it, and an integer block follows the string. An integer block fits when its header fits, its decompressed size is 4 and the 4 bytes are there. `read` then returns that string and those bytes' LE `u32`. |
| ColumnReader.ReadTwoBlocksPanics | storage/src/bin/column_reader.rs:58-59 | `read` panics iff the first tag is unknown, or the first block reads and then either the second tag is unknown or the second block's decompressed size is not 4 while that many bytes are present. |
| ColumnReader.ReadTwoBlocksOtherErrors | storage/src/bin/column_reader.rs:46-63 | `read` fails with `InvalidUtf8` iff the first header fits and the string after it is complete but not UTF-8. Every other failure is `UnexpectedEof` or a panic. |
| ColumnReader.ReadNeverFailsToSeek | storage/src/bin/column_reader.rs:103-114 | `read` never fails with `InvalidSeek`: each seek back follows a read of at least that many bytes. |
| ColumnReader.Read | storage/src/bin/column_reader.rs:46-63 | Result and final position are those of `ReadTwoBlocks`: header, string, header, integer, stopping at the first failure. |
| ColumnReader.EncodeBlock | storage/src/bin/column_reader.rs:5-13 | A block laid out as the file comment describes is 25 + payload bytes long, with the checksum first and the payload last. |
| ColumnReader.ParseEncodedHeader | storage/src/bin/column_reader.rs:67-124 | A well-formed block header, anywhere in the stream, parses back to its checksum, method and sizes, and the reader stops at its payload. |
| ColumnReader.TruncatedHeaderIsEof | storage/src/bin/column_reader.rs:70-105 | A block cut off anywhere before its end gives `UnexpectedEof` at the end of the stream, never a panic. |
| ColumnReader.StringRoundTrip | storage/src/bin/column_reader.rs:149-153 | A Rust string stored as its length byte and its UTF-8 bytes is read back as those bytes. |
| ColumnReader.IntRoundTrip | storage/src/bin/column_reader.rs:163-165 | A `u32` stored as 4 LE bytes is read back when the size is 4. |
| ColumnReader.StringInBlock | storage/src/bin/column_reader.rs:53 | After a block header, a length-prefixed valid string payload is read back and the reader stops at the block's end. |
| ColumnReader.IntInBlock | storage/src/bin/column_reader.rs:59 | After a block header, a 4-byte integer payload is read back and the reader stops at the block's end. |
| ColumnReader.TwoBlockFile | storage/src/bin/column_reader.rs:46-63 | For a string block followed by an integer block, `read` returns both values and stops after the second block. This holds for any stored checksums and methods and any trailing bytes. |
| ColumnReader.TwoBlockFileWithString | storage/src/bin/column_reader.rs:46-63 | The same, for a block holding any Rust string of at most 255 UTF-8 bytes. |
| Bytes.U32FromLeBytes | storage/src/bin/column_reader.rs:85 | `u32::from_le_bytes`: the first byte is the least significant. |
| Bytes.U32RoundTrip | storage/src/bin/column_reader.rs:94 | `from_le_bytes` inverts the 4-byte LE encoding of every `u32`. |
| Bytes.U64FromLeBytes | storage/src/bin/column_reader.rs:128 | The LE `u64` of 8 bytes is the low 4 bytes' value plus 2^32 times the high 4 bytes' value. |
| Bytes.FromLeHalves | storage/src/bin/column_reader.rs:127-129 | The LE value of 16 bytes is 2^64 times that of the last 8 plus that of the first 8. |
| Bytes.FromLeToLe | storage/src/bin/column_reader.rs:85 | Decoding the `n`-byte LE encoding of any value below 256^n gives it back. |
| Bytes.ToLeFromLe | storage/src/bin/column_reader.rs:85 | Encoding the LE value of any byte string in its own length gives it back. |
| Bytes.FromLeAppend | storage/src/bin/column_reader.rs:128-129 | The bytes of the second string weigh 256^(length of the first) in the value of a concatenation. |
| Utf8.ValidAppend | storage/src/bin/column_reader.rs:153 | Valid UTF-8 is closed under concatenation. |
| Utf8.EncodeValid | storage/src/bin/column_reader.rs:153 | The UTF-8 encoding of every string is accepted by `from_utf8`. |
| Utf8.MalformedExamples | storage/src/bin/column_reader.rs:153 | `from_utf8` refuses a stray continuation byte, an overlong form, a surrogate, a code point above U+10FFFF and a truncated sequence. It accepts the euro sign. |
| LowHigh.LowHalf | cityhash-clickhouse-sys/src/u128_low_high.rs:45-48 | `self as u64` keeps the low 64 bits: `x` is `high_half(x) * 2^64 + low_half(x)`. |
| LowHigh.HighHalf | cityhash-clickhouse-sys/src/u128_low_high.rs:61-64 | `(self >> 64) as u64` is `x / 2^64`. |
| LowHigh.LowHalfBigEndian | cityhash-clickhouse-sys/src/u128_low_high.rs:53-56 | On big-endian targets `low_half` is `x / 2^64`. |
| LowHigh.HighHalfBigEndian | cityhash-clickhouse-sys/src/u128_low_high.rs:69-72 | On big-endian targets `x` is `low_half(x) * 2^64 + high_half(x)`. |
| LowHigh.Or128 | cityhash-clickhouse-sys/src/u128_low_high.rs:81 | The or-assignment into `res` is addition when the value or-ed in fits in the low 64 bits and those bits of `res` are clear. |
| LowHigh.FromHalfs | cityhash-clickhouse-sys/src/u128_low_high.rs:77-83 | The shift-and-or yields `high * 2^64 + low`; the first argument is the high half. |
| LowHigh.Halves | cityhash-clickhouse-sys/src/u128_low_high.rs:45-64 | `low_half(x) == x % 2^64`, `high_half(x) == x / 2^64`, and `x` is `high * 2^64 + low`. |
| LowHigh.SplitJoin | cityhash-clickhouse-sys/src/u128_low_high.rs:45-83 | `from_halfs(high_half(x), low_half(x)) == x` for every `u128`. |
| LowHigh.JoinSplit | cityhash-clickhouse-sys/src/u128_low_high.rs:45-83 | `low_half(from_halfs(h, l)) == l` and `high_half(from_halfs(h, l)) == h`. |
| LowHigh.DocumentedExamples | cityhash-clickhouse-sys/src/u128_low_high.rs:101-123 | The trait's test vectors hold. |
| LowHigh.FromHalfsBigEndian | cityhash-clickhouse-sys/src/u128_low_high.rs:88-94 | On big-endian targets `from_halfs(high, low)` yields `low * 2^64 + high`. |
| LowHigh.BigEndianRoundTrips | cityhash-clickhouse-sys/src/u128_low_high.rs:53-94 | The big-endian branch swaps which bits each half takes, yet both round trips still hold. |
| City.Uint128Low64 | cityhash-clickhouse-sys/src/google/city.h:82 | Rebuilding a `uint128` from `Uint128Low64(x)` and `x.high64` gives `x`, so the accessor returns the `low64` member. |
| City.Uint128High64 | cityhash-clickhouse-sys/src/google/city.h:83 | Rebuilding a `uint128` from `x.low64` and `Uint128High64(x)` gives `x`, so the accessor returns the `high64` member. |
| City.DefaultUint128 | cityhash-clickhouse-sys/src/google/city.h:73-76 | The defaulted constructor gives the least value of `<=>`: nothing orders below it. |
| City.Compare | cityhash-clickhouse-sys/src/google/city.h:79 | The defaulted `<=>` is equal iff both members are. It is less iff `low64` is smaller, or `low64` ties and `high64` is smaller. |
| City.CompareAntisymmetric | cityhash-clickhouse-sys/src/google/city.h:79 | Swapping the operands reverses the ordering. |
| City.CompareTransitive | cityhash-clickhouse-sys/src/google/city.h:79 | Less-than is transitive. |
| City.CompareIsNotNumericOrder | cityhash-clickhouse-sys/src/google/city.h:71-80 | Because `low64` is declared first, `uint128(1, 0)` orders above `uint128(0, 1)` although its 128-bit value is smaller. |
| City.Hash128to64 | cityhash-clickhouse-sys/src/google/city.h:106-115 | Definition only, with no contract; see its line under "Left out". Its values are stated by `Hash128to64Values`. |
| City.Hash128to64Values | cityhash-clickhouse-sys/src/google/city.h:106-115 | The mixer sends the default `uint128` to 0. It tells apart a bit in the low half from the same bit in the high half. |
| City.CityHash128Abi | cityhash-clickhouse-sys/src/google/city.h:120-128 | The two out-parameters are exactly the `low64` and `high64` of one `CityHash128` result. |
| CityHash.CityHash128Packed | cityhash-clickhouse-sys/src/cityhash.rs:28-40 | The packed `u128`'s low half is the C++ result's `low64` and its high half is `high64`. |

## Left out

- `main` (storage/src/bin/column_reader.rs:26-44): the file path, `File::open`, file metadata and all `println!` output are I/O. The file's contents are the reader's `data`.
- The CityHash64 and CityHash128 algorithms. Their bodies are in `city.cc`, which is not part of this model, and are reached through a foreign call. CityHash128 is the parameter `cityHash128`, and CityHash64 is not used by the core.
- `CityHash128WithSeed`, `CityHash64WithSeed(s)` and `CityHash64` are declarations only (city.h:86-102). They are not modelled.
- cityhash.rs beyond `city_hash_128`'s packing: the unsafe pointer casts and `MaybeUninit` out-parameters become a returned pair. `city_hash_64` is a bare foreign call.
- rust_lack_uint128_compatible_type.h, build.rs and merge_tree_reader.rs: these hold glue, build flags and comments, with no logic of the core.
- The expected hash values in tests/hash_64.rs, tests/hash_128.rs and the test in column_reader.rs: they depend on the unseen hash algorithm.
- Decompression: no codec is implemented, payloads are read raw, and the additional size at the end of the buffer is a constant 0 (column_reader.rs:100).
- City.Hash128to64: only its definition, as the header's sequence of wrapping steps, and two concrete values are proved. General properties of 64-bit multiplication are beyond what the solver handles here.
- Io.ReadExactAt: on a short read the position moves to the end of the file. `std` leaves the consumed amount unspecified; this model picks the natural choice of consuming what is left.
- Io.SeekCurrentAt: positions are unbounded. The `i64`/`u64` limits of real file offsets are not modelled.
- `panic!` and `unwrap` failures are the outcome `Panic(message)` and not an abort. This holds for `from_u8` on an unknown byte and `read_int` with a size other than 4. A panic ends `read` just as an error does.
- `from_utf8` returns a `&str` over the same bytes, so strings are kept as their UTF-8 bytes.
- The big-endian branch of `LowHigh` is modelled next to the little-endian one, and only the little-endian one is used by `city_hash_128`, since the model fixes one target.
