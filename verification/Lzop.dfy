/** The lzop stream decoder and the size limit wrapped around it. */
module Lzop {

  import opened Wrappers
  import opened ByteOrder

  datatype Error =
    | NotLzop | Truncated | UnsupportedVersion | UnsupportedMethod | InvalidLevel | CorruptHeader
    | BlockTooLarge | CorruptBlock | DecompressionFailed | UnexpectedSize | SizeLimitExceeded | Cancelled

  /** The block codec and the two checksums, which are not part of this model. */
  datatype Codec = Codec(
    crc32: seq<Byte> -> nat,
    adler32: seq<Byte> -> nat,
    decompress: (seq<Byte>, nat) -> Option<seq<Byte>>)

  const MAGIC: seq<Byte> := [0x89, 0x4c, 0x5a, 0x4f, 0x00, 0x0d, 0x0a, 0x1a, 0x0a]
  const ADLER32_UNCOMPRESSED: nat := 0x0001
  const ADLER32_COMPRESSED: nat := 0x0002
  const EXTRA_FIELD: nat := 0x0040
  const CRC32_UNCOMPRESSED: nat := 0x0100
  const CRC32_COMPRESSED: nat := 0x0200
  const FILTER: nat := 0x0800
  const CRC32_HEADER: nat := 0x1000
  const MAX_BLOCK_SIZE: nat := 64 * 1024 * 1024

  /** Tests one bit of the flags. */
  predicate Has(flags: nat, bit: nat)
    requires bit > 0
  {
    flags / bit % 2 == 1
  }

  // ----- what a stream holds

  datatype Taken = Taken(bytes: seq<Byte>, rest: seq<Byte>)

  /** The first `n` bytes, or the error of a stream that ends too soon. */
  function Take(input: seq<Byte>, n: nat): (r: Result<Taken, Error>)
    ensures r.Ok? <==> n <= |input|
    ensures r.Ok? ==> input == r.value.bytes + r.value.rest && |r.value.bytes| == n
  {
    if n <= |input| then Ok(Taken(input[..n], input[n..])) else Err(Truncated)
  }

  /** A header field: its bytes join the checksummed header. */
  datatype Scan = Scan(header: seq<Byte>, rest: seq<Byte>)

  function Field(s: Scan, n: nat): (r: Result<Scan, Error>)
    ensures r.Ok? <==> n <= |s.rest|
    ensures r.Ok? ==> r.value.header + r.value.rest == s.header + s.rest && |r.value.rest| == |s.rest| - n
  {
    if n <= |s.rest| then Ok(Scan(s.header + s.rest[..n], s.rest[n..])) else Err(Truncated)
  }

  datatype Header = Header(flags: nat, rest: seq<Byte>)

  function Last(s: Scan, n: nat): nat {
    if n <= |s.header| then BigEndian(s.header[|s.header| - n..]) else 0
  }

  function Require(holds: bool, otherwise: Error): Result<(), Error> {
    if holds then Ok(()) else Err(otherwise)
  }

  function OptionalField(present: bool, s: Scan, n: nat): (r: Result<Scan, Error>)
    ensures r.Ok? ==> |r.value.rest| <= |s.rest|
  {
    if present then Field(s, n) else Ok(s)
  }

  /** The version of the writer and of its library, and the version required. */
  function ParseVersions(input: seq<Byte>): (r: Result<(nat, Scan), Error>)
    ensures r.Ok? ==> |r.value.1.rest| <= |input|
  {
    var v :- Field(Scan([], input), 2);
    var version := Last(v, 2);
    var l :- Field(v, 2);
    var q :- OptionalField(version >= 0x0940, l, 2);
    var _ :- Require(version >= 0x0940 ==> Last(q, 2) >= 0x0900, UnsupportedVersion);
    Ok((version, q))
  }

  /** Method and level. */
  function ParseMethod(version: nat, s: Scan): (r: Result<Scan, Error>)
    ensures r.Ok? ==> |r.value.rest| <= |s.rest|
  {
    var m :- Field(s, 1);
    var _ :- Require(1 <= Last(m, 1) <= 3, UnsupportedMethod);
    var e :- OptionalField(version >= 0x0940, m, 1);
    var _ :- Require(version >= 0x0940 ==> Last(e, 1) <= 9, InvalidLevel);
    Ok(e)
  }

  /** Flags and filter. */
  function ParseFlags(s: Scan): (r: Result<(nat, Scan), Error>)
    ensures r.Ok? ==> |r.value.1.rest| <= |s.rest|
  {
    var f :- Field(s, 4);
    var flags := Last(f, 4);
    var x :- OptionalField(Has(flags, FILTER), f, 4);
    Ok((flags, x))
  }

  /** Mode, time and file name. */
  function ParseName(version: nat, s: Scan): (r: Result<Scan, Error>)
    ensures r.Ok? ==> |r.value.rest| <= |s.rest|
  {
    var m :- Field(s, 4);
    var t :- Field(m, if version >= 0x0940 then 8 else 4);
    var n :- Field(t, 1);
    Field(n, Last(n, 1))
  }

  /** The header checksum and the optional extra field. */
  function ParseTail(c: Codec, flags: nat, s: Scan): (r: Result<Header, Error>)
    ensures r.Ok? ==> |r.value.rest| < |s.rest|
  {
    var sum :- Take(s.rest, 4);
    var computed := if Has(flags, CRC32_HEADER) then c.crc32(s.header) else c.adler32(s.header);
    var _ :- Require(BigEndian(sum.bytes) == computed, CorruptHeader);
    if !Has(flags, EXTRA_FIELD) then Ok(Header(flags, sum.rest))
    else
      var length :- Take(sum.rest, 4);
      var extra :- Take(length.rest, BigEndian(length.bytes));
      Ok(Header(flags, extra.rest))
  }

  /** The header after the magic. */
  function ParseHeader(c: Codec, input: seq<Byte>): (r: Result<Header, Error>)
    ensures r.Ok? ==> |r.value.rest| < |input|
  {
    var v :- ParseVersions(input);
    var m :- ParseMethod(v.0, v.1);
    var f :- ParseFlags(m);
    var n :- ParseName(v.0, f.1);
    ParseTail(c, f.0, n)
  }

  datatype Block = Block(data: seq<Byte>, flags: nat, rest: seq<Byte>) | EndOfStream

  /** An optional stored checksum. */
  function TakeChecksum(present: bool, input: seq<Byte>): (r: Result<(Option<nat>, seq<Byte>), Error>)
    ensures r.Ok? ==> |r.value.1| <= |input|
  {
    if !present then Ok((None, input))
    else
      var t :- Take(input, 4);
      Ok((Some(BigEndian(t.bytes)), t.rest))
  }

  predicate ChecksumHolds(c: Codec, stored: Option<nat>, crc: bool, data: seq<Byte>) {
    stored.None? || stored.value == if crc then c.crc32(data) else c.adler32(data)
  }

  /** A block after its uncompressed size. */
  function ParseBlock(c: Codec, flags: nat, size: nat, input: seq<Byte>): (r: Result<Block, Error>)
    ensures r.Ok? ==> r.value.Block? && |r.value.data| == size && |r.value.rest| <= |input|
  {
    var _ :- Require(size <= MAX_BLOCK_SIZE, BlockTooLarge);
    var stored :- Take(input, 4);
    var packed := BigEndian(stored.bytes);
    var _ :- Require(packed <= size, CorruptBlock);
    ParseData(c, flags, size, packed, stored.rest)
  }

  /** The checksums and the data of a block. */
  function ParseData(c: Codec, flags: nat, size: nat, packed: nat, input: seq<Byte>): (r: Result<Block, Error>)
    ensures r.Ok? ==> r.value.Block? && |r.value.data| == size && |r.value.rest| <= |input|
  {
    var plainSum :- TakeChecksum(Has(flags, CRC32_UNCOMPRESSED) || Has(flags, ADLER32_UNCOMPRESSED), input);
    var packedSum :- TakeChecksum(
                       (Has(flags, CRC32_COMPRESSED) || Has(flags, ADLER32_COMPRESSED)) && packed < size, plainSum.1);
    var data :- Take(packedSum.1, packed);
    var _ :- Require(ChecksumHolds(c, packedSum.0, Has(flags, CRC32_COMPRESSED), data.bytes), CorruptBlock);
    Unpack(c, flags, size, data.bytes, plainSum.0, data.rest)
  }

  /** Decompresses a block unless it is stored, and checks the result. */
  function Unpack(c: Codec, flags: nat, size: nat, data: seq<Byte>, sum: Option<nat>, rest: seq<Byte>): (r: Result<Block, Error>)
    ensures r.Ok? ==> r.value.Block? && |r.value.data| == size && r.value.rest == rest
  {
    var plain := if |data| == size then Some(data) else c.decompress(data, size);
    if plain.None? then Err(DecompressionFailed)
    else if |plain.value| != size then Err(UnexpectedSize)
    else if !ChecksumHolds(c, sum, Has(flags, CRC32_UNCOMPRESSED), plain.value) then Err(CorruptBlock)
    else Ok(Block(plain.value, flags, rest))
  }

  /** The next block.  A zero size ends the stream, or a part of it when another
      magic and header follow. */
  function NextBlock(c: Codec, flags: nat, input: seq<Byte>): (r: Result<Block, Error>)
    ensures r.Ok? && r.value.Block? ==> r.value.data != [] && |r.value.rest| < |input|
    decreases |input|
  {
    if |input| < 4 then Err(Truncated)
    else
      var size := BigEndian(input[..4]);
      if size > 0 then ParseBlock(c, flags, size, input[4..])
      else if |input| < 13 || input[4..13] != MAGIC then Ok(EndOfStream)
      else
        var h := ParseHeader(c, input[13..]);
        if h.Err? then Err(h.error) else NextBlock(c, h.value.flags, h.value.rest)
  }

  datatype End = Finished | Failed(error: Error)

  /** The bytes a stream gives, and how it ends. */
  datatype Stream = Stream(bytes: seq<Byte>, end: End)

  function Decoded(c: Codec, flags: nat, input: seq<Byte>): Stream
    decreases |input|
  {
    match NextBlock(c, flags, input)
    case Err(e) => Stream([], Failed(e))
    case Ok(EndOfStream) => Stream([], Finished)
    case Ok(Block(data, next, rest)) =>
      var later := Decoded(c, next, rest);
      Stream(data + later.bytes, later.end)
  }

  /** A whole file: the magic, a header, and the blocks. */
  function DecodedFile(c: Codec, input: seq<Byte>): Stream {
    if |input| < 9 then Stream([], Failed(Truncated))
    else if input[..9] != MAGIC then Stream([], Failed(NotLzop))
    else
      match ParseHeader(c, input[9..])
      case Err(e) => Stream([], Failed(e))
      case Ok(h) => Decoded(c, h.flags, h.rest)
  }
}
