/** The decoders as the program runs them: a reader over an input that may hand
    out its bytes in pieces of any size, the lzop reader, and the bounded decoder
    around it. */
module LzopReader {

  import opened Wrappers
  import opened ByteOrder
  import opened Lzop

  datatype ReadResult = Data(bytes: seq<Byte>) | Interrupted

  /** The wrapped input.  `pattern` says how much each call is willing to give and
      whether it is interrupted; nothing else is known about it. */
  class Input {
    var remaining: seq<Byte>
    var interruptions: nat
    var calls: nat
    const pattern: nat -> nat

    constructor (bytes: seq<Byte>, interruptions: nat, pattern: nat -> nat)
      ensures remaining == bytes
    {
      this.remaining, this.interruptions, this.calls, this.pattern := bytes, interruptions, 0, pattern;
    }

    /** At most `limit` bytes; none only at the end of the input. */
    method Read(limit: nat) returns (r: ReadResult)
      requires limit > 0
      modifies this
      ensures r.Interrupted? ==> remaining == old(remaining) && interruptions < old(interruptions)
      ensures r.Data? ==>
                && |r.bytes| <= limit && r.bytes + remaining == old(remaining)
                && (r.bytes == [] ==> old(remaining) == []) && interruptions == old(interruptions)
    {
      var willing := pattern(calls);
      calls := calls + 1;
      if willing == 0 && interruptions > 0 {
        interruptions := interruptions - 1;
        return Interrupted;
      }
      var n := if willing == 0 then 1 else willing;
      n := if n <= limit then n else limit;
      n := if n <= |remaining| then n else |remaining|;
      r := Data(remaining[..n]);
      assert remaining[..n] + remaining[n..] == remaining;
      remaining := remaining[n..];
    }

    /** Reads until `n` bytes are there or the input ends. */
    method ReadUpTo(n: nat) returns (bytes: seq<Byte>)
      modifies this
      ensures |old(remaining)| >= n ==> bytes == old(remaining)[..n] && remaining == old(remaining)[n..]
      ensures |old(remaining)| < n ==> bytes == old(remaining) && remaining == []
    {
      bytes := [];
      while |bytes| < n
        invariant |bytes| <= n && bytes + remaining == old(remaining)
        decreases n - |bytes|, interruptions
      {
        var r := Read(n - |bytes|);
        match r
        case Interrupted =>
        case Data(piece) =>
          if piece == [] {
            assert bytes + [] == bytes;
            return;
          }
          bytes := bytes + piece;
      }
    }

    /** `read_exact_or_eof`. */
    method ReadExact(n: nat) returns (r: Result<seq<Byte>, Error>)
      modifies this
      ensures r.Err? <==> Take(old(remaining), n).Err?
      ensures r.Err? ==> r.error == Truncated
      ensures r.Ok? ==> Take(old(remaining), n) == Ok(Taken(r.value, remaining))
    {
      var bytes := ReadUpTo(n);
      return if |bytes| == n then Ok(bytes) else Err(Truncated);
    }
  }

  class Reader {
    const codec: Codec
    const inner: Input
    var flags: nat
    var out: seq<Byte>
    var outPos: nat
    var finished: bool

    ghost predicate Valid()
      reads this
    {
      outPos <= |out|
    }

    /** What is still to come. */
    ghost function Future(): Stream
      requires Valid()
      reads this, inner
    {
      var later := if finished then Stream([], Finished) else Decoded(codec, flags, inner.remaining);
      Stream(out[outPos..] + later.bytes, later.end)
    }

    constructor (codec: Codec, inner: Input)
      ensures this.codec == codec && this.inner == inner
      ensures Valid() && out == [] && !finished
    {
      this.codec, this.inner := codec, inner;
      flags, out, outPos, finished := 0, [], 0, false;
    }

    /** Appends the next header field to what has been read of the header. */
    method ReadField(header: seq<Byte>, n: nat) returns (r: Result<seq<Byte>, Error>)
      modifies inner
      ensures r.Err? ==> Field(Scan(header, old(inner.remaining)), n) == Err(r.error)
      ensures r.Ok? ==> Field(Scan(header, old(inner.remaining)), n) == Ok(Scan(r.value, inner.remaining))
    {
      var bytes := inner.ReadExact(n);
      match bytes
      case Err(e) => return Err(e);
      case Ok(b) => return Ok(header + b);
    }

    method ReadVersions() returns (r: Result<(nat, seq<Byte>), Error>)
      modifies inner
      ensures r.Err? ==> ParseVersions(old(inner.remaining)) == Err(r.error)
      ensures r.Ok? ==> ParseVersions(old(inner.remaining)) == Ok((r.value.0, Scan(r.value.1, inner.remaining)))
    {
      var header :- ReadField([], 2);
      var version := BigEndian(header);
      assert header[|header| - 2..] == header;
      header :- ReadField(header, 2);
      if version >= 0x0940 {
        header :- ReadField(header, 2);
        if BigEndian(header[|header| - 2..]) < 0x0900 {
          return Err(UnsupportedVersion);
        }
      }
      return Ok((version, header));
    }

    method ReadMethod(version: nat, start: seq<Byte>) returns (r: Result<seq<Byte>, Error>)
      modifies inner
      ensures r.Err? ==> ParseMethod(version, Scan(start, old(inner.remaining))) == Err(r.error)
      ensures r.Ok? ==> ParseMethod(version, Scan(start, old(inner.remaining))) == Ok(Scan(r.value, inner.remaining))
    {
      var header :- ReadField(start, 1);
      var kind := BigEndian(header[|header| - 1..]);
      if !(1 <= kind <= 3) {
        return Err(UnsupportedMethod);
      }
      if version >= 0x0940 {
        header :- ReadField(header, 1);
        if BigEndian(header[|header| - 1..]) > 9 {
          return Err(InvalidLevel);
        }
      }
      return Ok(header);
    }

    method ReadFlags(start: seq<Byte>) returns (r: Result<(nat, seq<Byte>), Error>)
      modifies inner
      ensures r.Err? ==> ParseFlags(Scan(start, old(inner.remaining))) == Err(r.error)
      ensures r.Ok? ==>
                ParseFlags(Scan(start, old(inner.remaining))) == Ok((r.value.0, Scan(r.value.1, inner.remaining)))
    {
      var header :- ReadField(start, 4);
      var flags := BigEndian(header[|header| - 4..]);
      if Has(flags, FILTER) {
        header :- ReadField(header, 4);
      }
      return Ok((flags, header));
    }

    method ReadName(version: nat, start: seq<Byte>) returns (r: Result<seq<Byte>, Error>)
      modifies inner
      ensures r.Err? ==> ParseName(version, Scan(start, old(inner.remaining))) == Err(r.error)
      ensures r.Ok? ==> ParseName(version, Scan(start, old(inner.remaining))) == Ok(Scan(r.value, inner.remaining))
    {
      var header :- ReadField(start, 4);
      if version >= 0x0940 {
        header :- ReadField(header, 8);
      } else {
        header :- ReadField(header, 4);
      }
      header :- ReadField(header, 1);
      var length := BigEndian(header[|header| - 1..]);
      header :- ReadField(header, length);
      return Ok(header);
    }

    /** `parse_header_after_magic`. */
    method ReadHeader() returns (r: Result<nat, Error>)
      modifies inner
      ensures r.Err? ==> ParseHeader(codec, old(inner.remaining)) == Err(r.error)
      ensures r.Ok? ==> ParseHeader(codec, old(inner.remaining)) == Ok(Header(r.value, inner.remaining))
    {
      var versions :- ReadVersions();
      var started :- ReadMethod(versions.0, versions.1);
      var flagged :- ReadFlags(started);
      var flags := flagged.0;
      var header :- ReadName(versions.0, flagged.1);
      var stored :- inner.ReadExact(4);
      var computed := if Has(flags, CRC32_HEADER) then codec.crc32(header) else codec.adler32(header);
      if BigEndian(stored) != computed {
        return Err(CorruptHeader);
      }
      if Has(flags, EXTRA_FIELD) {
        var length :- inner.ReadExact(4);
        var extra :- inner.ReadExact(BigEndian(length));
      }
      return Ok(flags);
    }

    /** `consume_header`. */
    method ConsumeHeader() returns (r: Result<(), Error>)
      requires Valid() && out == [] && !finished
      modifies this, inner
      ensures r.Err? ==> DecodedFile(codec, old(inner.remaining)) == Stream([], Failed(r.error))
      ensures r.Ok? ==> Valid() && Future() == DecodedFile(codec, old(inner.remaining))
    {
      var magic :- inner.ReadExact(9);
      if magic != MAGIC {
        return Err(NotLzop);
      }
      flags :- ReadHeader();
      assert out[outPos..] + Decoded(codec, flags, inner.remaining).bytes == Decoded(codec, flags, inner.remaining).bytes;
      return Ok(());
    }

    method ReadChecksum(present: bool) returns (r: Result<Option<nat>, Error>)
      modifies inner
      ensures r.Err? ==> TakeChecksum(present, old(inner.remaining)) == Err(r.error)
      ensures r.Ok? ==> TakeChecksum(present, old(inner.remaining)) == Ok((r.value, inner.remaining))
    {
      if !present {
        return Ok(None);
      }
      var bytes :- inner.ReadExact(4);
      return Ok(Some(BigEndian(bytes)));
    }

    /** A block after its uncompressed size. */
    method ReadBlock(size: nat) returns (r: Result<seq<Byte>, Error>)
      modifies inner
      ensures r.Err? ==> ParseBlock(codec, flags, size, old(inner.remaining)) == Err(r.error)
      ensures r.Ok? ==> ParseBlock(codec, flags, size, old(inner.remaining)) == Ok(Block(r.value, flags, inner.remaining))
    {
      if size > MAX_BLOCK_SIZE {
        return Err(BlockTooLarge);
      }
      var stored :- inner.ReadExact(4);
      var packed := BigEndian(stored);
      if packed > size {
        return Err(CorruptBlock);
      }
      r := ReadData(size, packed);
    }

    method ReadData(size: nat, packed: nat) returns (r: Result<seq<Byte>, Error>)
      modifies inner
      ensures r.Err? ==> ParseData(codec, flags, size, packed, old(inner.remaining)) == Err(r.error)
      ensures r.Ok? ==>
                ParseData(codec, flags, size, packed, old(inner.remaining)) == Ok(Block(r.value, flags, inner.remaining))
    {
      var plainSum :- ReadChecksum(Has(flags, CRC32_UNCOMPRESSED) || Has(flags, ADLER32_UNCOMPRESSED));
      var packedSum :- ReadChecksum((Has(flags, CRC32_COMPRESSED) || Has(flags, ADLER32_COMPRESSED)) && packed < size);
      var data :- inner.ReadExact(packed);
      if !ChecksumHolds(codec, packedSum, Has(flags, CRC32_COMPRESSED), data) {
        return Err(CorruptBlock);
      }
      var plain := if packed == size then Some(data) else codec.decompress(data, size);
      if plain.None? {
        return Err(DecompressionFailed);
      }
      if |plain.value| != size {
        return Err(UnexpectedSize);
      }
      if !ChecksumHolds(codec, plainSum, Has(flags, CRC32_UNCOMPRESSED), plain.value) {
        return Err(CorruptBlock);
      }
      return Ok(plain.value);
    }

    /** `next_block`: false at the end of the stream. */
    method ReadNextBlock() returns (r: Result<bool, Error>)
      modifies this, inner
      ensures r.Err? ==> NextBlock(codec, old(flags), old(inner.remaining)) == Err(r.error)
      ensures r.Ok? && r.value ==>
                && NextBlock(codec, old(flags), old(inner.remaining)) == Ok(Block(out, flags, inner.remaining))
                && outPos == 0 && finished == old(finished)
      ensures r.Ok? && !r.value ==>
                && NextBlock(codec, old(flags), old(inner.remaining)) == Ok(EndOfStream)
                && out == old(out) && outPos == old(outPos) && finished == old(finished)
      decreases |inner.remaining|
    {
      var size :- inner.ReadExact(4);
      if BigEndian(size) == 0 {
        var magic := inner.ReadUpTo(9);
        if magic != MAGIC {
          return Ok(false);
        }
        flags :- ReadHeader();
        r := ReadNextBlock();
        return r;
      }
      out :- ReadBlock(BigEndian(size));
      outPos := 0;
      return Ok(true);
    }

    /** Hands out pending bytes of the current block. */
    method Deliver(buffer: array<Byte>, length: nat) returns (take: nat)
      requires Valid() && length <= buffer.Length && outPos < |out|
      modifies this`outPos, buffer
      ensures Valid() && take <= length && (length > 0 ==> take > 0)
      ensures old(out[outPos..]) == buffer[..take] + out[outPos..]
      ensures buffer[take..] == old(buffer[take..])
    {
      take := if |out| - outPos <= length then |out| - outPos else length;
      Copy(buffer, out[outPos..outPos + take]);
      outPos := outPos + take;
    }

    /** Replaces an exhausted block by the next one, or notes the end. */
    method Advance() returns (r: Result<(), Error>)
      requires Valid() && outPos == |out| && !finished
      modifies this, inner
      ensures r.Err? ==> old(Future()) == Stream([], Failed(r.error))
      ensures r.Ok? ==> Valid() && Future() == old(Future()) && (finished || outPos < |out|)
    {
      assert out[outPos..] == [];
      var more :- ReadNextBlock();
      if !more {
        finished := true;
      } else {
        assert out[outPos..] == out;
      }
      return Ok(());
    }

    /** Fills at most `length` bytes of the buffer.  The bytes delivered and those
        still to come are those that were to come before. */
    method Read(buffer: array<Byte>, length: nat) returns (r: Result<nat, Error>)
      requires Valid() && length <= buffer.Length
      modifies this, inner, buffer
      ensures r.Err? ==> old(Future()) == Stream([], Failed(r.error)) && buffer[..] == old(buffer[..])
      ensures r.Ok? ==>
                && Valid() && r.value <= length
                && buffer[r.value..] == old(buffer[r.value..])
                && old(Future()) == Stream(buffer[..r.value] + Future().bytes, Future().end)
                && (r.value == 0 && length > 0 ==> Future() == Stream([], Finished))
    {
      while true
        invariant Valid() && Future() == old(Future()) && buffer[..] == old(buffer[..])
        decreases !finished, outPos == |out|
      {
        if outPos < |out| {
          ghost var pending, later := out[outPos..], Future().bytes[|out| - outPos..];
          var take := Deliver(buffer, length);
          assert Future().bytes == out[outPos..] + later;
          assert pending + later == buffer[..take] + (out[outPos..] + later);
          return Ok(take);
        }
        if finished {
          assert out[outPos..] == [];
          return Ok(0);
        }
        var _ :- Advance();
      }
    }
  }

  method Copy(buffer: array<Byte>, bytes: seq<Byte>)
    requires |bytes| <= buffer.Length
    modifies buffer
    ensures buffer[..|bytes|] == bytes && buffer[|bytes|..] == old(buffer[|bytes|..])
  {
    for i := 0 to |bytes|
      invariant buffer[..i] == bytes[..i] && buffer[|bytes|..] == old(buffer[|bytes|..])
    {
      buffer[i] := bytes[i];
    }
  }

  // ----- the size limit

  /** A stream cut off at a limit: the whole of it if it fits, else its first
      bytes followed by the size error. */
  function Limited(s: Stream, limit: Option<nat>): Stream {
    if limit.None? || |s.bytes| <= limit.value then s
    else Stream(s.bytes[..limit.value], Failed(SizeLimitExceeded))
  }

  class BoundedDecoder {
    const inner: Reader
    var remaining: Option<nat>

    ghost predicate Valid()
      reads this, inner
    {
      inner.Valid()
    }

    /** What is still to come, as the limit lets it through. */
    ghost function Future(): Stream
      requires Valid()
      reads this, inner, inner.inner
    {
      Limited(inner.Future(), remaining)
    }

    constructor (inner: Reader, limit: Option<nat>)
      requires inner.Valid()
      ensures Valid() && this.inner == inner && Future() == Limited(inner.Future(), limit)
    {
      this.inner, remaining := inner, limit;
    }

    method Read(buffer: array<Byte>, cancelled: bool) returns (r: Result<nat, Error>)
      requires Valid()
      modifies this, inner, inner.inner, buffer
      ensures cancelled && buffer.Length > 0 ==> r == Err(Cancelled) && buffer[..] == old(buffer[..])
      ensures r.Err? && !cancelled ==> old(Future()) == Stream([], Failed(r.error)) && buffer[..] == old(buffer[..])
      ensures r.Ok? ==>
                && Valid() && r.value <= buffer.Length
                && buffer[r.value..] == old(buffer[r.value..])
                && old(Future()) == Stream(buffer[..r.value] + Future().bytes, Future().end)
                && (r.value == 0 && buffer.Length > 0 ==> Future() == Stream([], Finished))
    {
      if buffer.Length == 0 {
        assert buffer[..0] + Future().bytes == Future().bytes;
        return Ok(0);
      }
      if cancelled {
        return Err(Cancelled);
      }
      if remaining.None? {
        r := inner.Read(buffer, buffer.Length);
        return r;
      }
      if remaining.value == 0 {
        var probe := new Byte[1];
        var n :- inner.Read(probe, 1);
        if n == 0 {
          assert probe[..0] == [] && buffer[..0] == [];
          return Ok(0);
        }
        return Err(SizeLimitExceeded);
      }
      var length := if remaining.value <= buffer.Length then remaining.value else buffer.Length;
      var n :- inner.Read(buffer, length);
      ghost var later := inner.Future();
      ghost var limit := remaining.value;
      LimitAdvances(buffer[..n], later, limit);
      remaining := Some(remaining.value - n);
      return Ok(n);
    }
  }

  lemma {:induction false} LimitAdvances(piece: seq<Byte>, later: Stream, limit: nat)
    requires |piece| <= limit
    ensures var rest := Limited(later, Some(limit - |piece|));
            Limited(Stream(piece + later.bytes, later.end), Some(limit)) == Stream(piece + rest.bytes, rest.end)
  {
    assert |piece + later.bytes| > limit ==> (piece + later.bytes)[..limit] == piece + later.bytes[..limit - |piece|];
  }

  // ----- whole runs

  /** The bytes a stream has given and those to come make up the whole. */
  ghost predicate Gathered(whole: Stream, bytes: seq<Byte>, future: Stream) {
    whole == Stream(bytes + future.bytes, future.end)
  }

  lemma {:induction false} GatherMore(whole: Stream, bytes: seq<Byte>, before: Stream, piece: seq<Byte>, future: Stream)
    requires Gathered(whole, bytes, before) && before == Stream(piece + future.bytes, future.end)
    ensures Gathered(whole, bytes + piece, future)
    ensures |bytes + piece| <= |whole.bytes|
  {
    assert bytes + (piece + future.bytes) == (bytes + piece) + future.bytes;
  }

  lemma {:induction false} GatheredAll(whole: Stream, bytes: seq<Byte>, end: End)
    requires Gathered(whole, bytes, Stream([], end))
    ensures whole == Stream(bytes, end)
  {
    assert bytes + [] == bytes;
  }

  /** Reads a stream to its end through buffers of any non-zero sizes.  Whatever
      the sizes, and whatever pieces the input hands out, the bytes and the
      outcome are those the limit lets through of the whole stream. */
  method Drain(decoder: BoundedDecoder, sizes: nat -> nat) returns (bytes: seq<Byte>, end: End)
    requires decoder.Valid() && forall i :: sizes(i) > 0
    modifies decoder, decoder.inner, decoder.inner.inner
    ensures Stream(bytes, end) == old(decoder.Future())
    ensures end.Finished? ==> decoder.Valid() && decoder.Future() == Stream([], Finished)
  {
    ghost var whole := decoder.Future();
    bytes := [];
    assert [] + whole.bytes == whole.bytes;
    var calls := 0;
    while true
      invariant decoder.Valid() && Gathered(whole, bytes, decoder.Future())
      decreases |whole.bytes| - |bytes|
    {
      ghost var before := decoder.Future();
      var buffer := new Byte[sizes(calls)];
      var r := decoder.Read(buffer, false);
      if r.Err? {
        GatheredAll(whole, bytes, Failed(r.error));
        return bytes, Failed(r.error);
      }
      GatherMore(whole, bytes, before, buffer[..r.value], decoder.Future());
      bytes := bytes + buffer[..r.value];
      if r.value == 0 {
        GatheredAll(whole, bytes, Finished);
        return bytes, Finished;
      }
      calls := calls + 1;
    }
  }

  /** Decoding a whole file under a limit. */
  method DecodeFile(codec: Codec, input: Input, limit: Option<nat>, sizes: nat -> nat) returns (bytes: seq<Byte>, end: End)
    requires forall i :: sizes(i) > 0
    modifies input
    ensures Stream(bytes, end) == Limited(DecodedFile(codec, old(input.remaining)), limit)
  {
    var reader := new Reader(codec, input);
    var header := reader.ConsumeHeader();
    if header.Err? {
      return [], Failed(header.error);
    }
    var decoder := new BoundedDecoder(reader, limit);
    bytes, end := Drain(decoder, sizes);
  }
}
