/** Printed lzop files, and what the decoder makes of them. */
module LzopForms {

  import opened Wrappers
  import opened ByteOrder
  import opened Lzop
  import DivMod

  /** The checksums are 32-bit values. */
  ghost predicate ValidCodec(c: Codec) {
    forall s :: c.crc32(s) < Power(4) && c.adler32(s) < Power(4)
  }

  // ----- the numbers of the format

  const FILE_MAGIC: seq<Byte> := [0x89, 0x4c, 0x5a, 0x4f, 0x00, 0x0d, 0x0a, 0x1a, 0x0a]

  /** Bit `n` of a number. */
  predicate Bit(value: nat, n: nat) {
    if n == 0 then value % 2 == 1 else Bit(value / 2, n - 1)
  }

  lemma {:induction false} BitOf(value: nat, n: nat, bit: nat)
    requires bit == TwoTo(n)
    ensures bit > 0 && (Has(value, bit) <==> Bit(value, n))
    decreases n
  {
    if n > 0 {
      BitOf(value / 2, n - 1, bit / 2);
      HalfOf(value, TwoTo(n - 1));
    }
  }

  function TwoTo(n: nat): nat {
    if n == 0 then 1 else 2 * TwoTo(n - 1)
  }

  lemma {:induction false} HalfOf(value: nat, m: nat)
    requires m > 0
    ensures value / 2 / m == value / (2 * m)
  {
    var q := value / (2 * m);
    var r := value % (2 * m);
    assert value == q * (2 * m) + r;
    assert value / 2 == q * m + r / 2 by {
      assert value == 2 * (q * m) + r;
    }
    var h := r / 2;
    assert 0 <= h < m;
    DivMod.ModUnique(value / 2, q, h, m);
  }

  /** The flags, by their bits. */
  lemma {:induction false} FlagBits(flags: nat)
    ensures && Has(flags, ADLER32_UNCOMPRESSED) == Bit(flags, 0) && Has(flags, ADLER32_COMPRESSED) == Bit(flags, 1)
            && Has(flags, EXTRA_FIELD) == Bit(flags, 6) && Has(flags, CRC32_UNCOMPRESSED) == Bit(flags, 8)
            && Has(flags, CRC32_COMPRESSED) == Bit(flags, 9) && Has(flags, FILTER) == Bit(flags, 11)
            && Has(flags, CRC32_HEADER) == Bit(flags, 12)
  {
    assert TwoTo(2) == 4;
    assert TwoTo(4) == 16;
    assert TwoTo(6) == 64;
    assert TwoTo(8) == 256;
    assert TwoTo(10) == 1024;
    assert TwoTo(12) == 4096;
    BitOf(flags, 0, 1);
    BitOf(flags, 1, 2);
    BitOf(flags, 6, 64);
    BitOf(flags, 8, 256);
    BitOf(flags, 9, 512);
    BitOf(flags, 11, 2048);
    BitOf(flags, 12, 4096);
  }

  // ----- headers

  /** What a header says; `sum` is the checksum stored in it. */
  datatype Fields = Fields(
    version: nat, library: nat, required: nat, kind: nat, level: nat, flags: nat,
    filter: seq<Byte>, mode: seq<Byte>, time: seq<Byte>, name: seq<Byte>, sum: nat, extra: seq<Byte>)

  predicate IsNew(f: Fields) {
    f.version >= 0x0940
  }

  /** Every field has its width. */
  predicate Fits(f: Fields) {
    && f.version < Power(2) && f.library < Power(2) && f.required < Power(2)
    && f.kind < Power(1) && f.level < Power(1) && f.flags < Power(4)
    && |f.filter| == 4 && |f.mode| == 4 && |f.time| == (if IsNew(f) then 8 else 4)
    && |f.name| < 256 && f.sum < Power(4) && |f.extra| < Power(4)
  }

  /** The first thing wrong with a header, if any. */
  function HeaderProblem(c: Codec, f: Fields): Option<Error> {
    if IsNew(f) && f.required < 0x0900 then Some(UnsupportedVersion)
    else if f.kind == 0 || f.kind > 3 then Some(UnsupportedMethod)
    else if IsNew(f) && f.level > 9 then Some(InvalidLevel)
    else if f.sum != HeaderSum(c, f) then Some(CorruptHeader)
    else None
  }

  predicate ValidFields(c: Codec, f: Fields) {
    Fits(f) && HeaderProblem(c, f).None?
  }

  lemma {:induction false} Assoc(a: seq<Byte>, b: seq<Byte>, c: seq<Byte>)
    ensures (a + b) + c == a + (b + c)
  {
  }

  function When(present: bool, bytes: seq<Byte>): seq<Byte> {
    if present then bytes else []
  }

  function Versions(f: Fields): seq<Byte> {
    ToBigEndian(f.version, 2) + ToBigEndian(f.library, 2) + When(IsNew(f), ToBigEndian(f.required, 2))
  }

  function Method(f: Fields): seq<Byte> {
    ToBigEndian(f.kind, 1) + When(IsNew(f), ToBigEndian(f.level, 1))
  }

  function Flags(f: Fields): seq<Byte> {
    ToBigEndian(f.flags, 4) + When(Bit(f.flags, 11), f.filter)
  }

  function Name(f: Fields): seq<Byte> {
    f.mode + f.time + ToBigEndian(|f.name|, 1) + f.name
  }

  function Checked(f: Fields): seq<Byte> {
    Versions(f) + Method(f) + Flags(f) + Name(f)
  }

  function HeaderSum(c: Codec, f: Fields): nat {
    if Bit(f.flags, 12) then c.crc32(Checked(f)) else c.adler32(Checked(f))
  }

  /** The header after the magic. */
  function PrintHeader(f: Fields): seq<Byte> {
    Checked(f) + ToBigEndian(f.sum, 4) + When(Bit(f.flags, 6), ToBigEndian(|f.extra|, 4) + f.extra)
  }

  /** A field that stands at the front is taken off whole. */
  lemma {:induction false} FieldOf(header: seq<Byte>, field: seq<Byte>, rest: seq<Byte>)
    ensures Field(Scan(header, field + rest), |field|) == Ok(Scan(header + field, rest))
    ensures Last(Scan(header + field, rest), |field|) == BigEndian(field)
  {
    assert (field + rest)[..|field|] == field && (field + rest)[|field|..] == rest;
    assert (header + field)[|header + field| - |field|..] == field;
  }

  lemma {:induction false} NumberOf(header: seq<Byte>, value: nat, n: nat, rest: seq<Byte>)
    requires value < Power(n)
    ensures Field(Scan(header, ToBigEndian(value, n) + rest), n) == Ok(Scan(header + ToBigEndian(value, n), rest))
    ensures Last(Scan(header + ToBigEndian(value, n), rest), n) == value
  {
    FieldOf(header, ToBigEndian(value, n), rest);
    BigEndianRoundTrip(value, n);
  }

  lemma {:induction false} TakeOf(field: seq<Byte>, rest: seq<Byte>)
    ensures Take(field + rest, |field|) == Ok(Taken(field, rest))
  {
    assert (field + rest)[..|field|] == field && (field + rest)[|field|..] == rest;
  }

  lemma {:induction false} OneByte()
    ensures Power(1) == 256 && Power(2) == 65536
  {
    assert Power(0) == 1;
    assert Power(1) == 256 * Power(0);
    assert Power(2) == 256 * Power(1);
  }

  lemma {:induction false} VersionsParse(f: Fields, rest: seq<Byte>)
    requires Fits(f)
    ensures ParseVersions(Versions(f) + rest) ==
            if IsNew(f) && f.required < 0x0900 then Err(UnsupportedVersion) else Ok((f.version, Scan(Versions(f), rest)))
  {
    var a, b, c := ToBigEndian(f.version, 2), ToBigEndian(f.library, 2), When(IsNew(f), ToBigEndian(f.required, 2));
    assert Versions(f) + rest == a + (b + (c + rest));
    NumberOf([], f.version, 2, b + (c + rest));
    assert [] + a == a;
    NumberOf(a, f.library, 2, c + rest);
    if IsNew(f) {
      NumberOf(a + b, f.required, 2, rest);
    } else {
      assert a + b + c == a + b && c + rest == rest;
    }
  }

  lemma {:induction false} MethodParses(f: Fields, header: seq<Byte>, rest: seq<Byte>)
    requires Fits(f)
    ensures ParseMethod(f.version, Scan(header, Method(f) + rest)) ==
            if f.kind == 0 || f.kind > 3 then Err(UnsupportedMethod)
            else if IsNew(f) && f.level > 9 then Err(InvalidLevel)
            else Ok(Scan(header + Method(f), rest))
  {
    var a, b := ToBigEndian(f.kind, 1), When(IsNew(f), ToBigEndian(f.level, 1));
    assert Method(f) + rest == a + (b + rest);
    NumberOf(header, f.kind, 1, b + rest);
    if IsNew(f) {
      NumberOf(header + a, f.level, 1, rest);
      assert (header + a) + b == header + Method(f);
    } else {
      assert header + Method(f) == header + a && b + rest == rest;
    }
  }

  lemma {:induction false} FlagsParse(f: Fields, header: seq<Byte>, rest: seq<Byte>)
    requires Fits(f)
    ensures ParseFlags(Scan(header, Flags(f) + rest)) == Ok((f.flags, Scan(header + Flags(f), rest)))
  {
    FlagBits(f.flags);
    var a, b := ToBigEndian(f.flags, 4), When(Bit(f.flags, 11), f.filter);
    assert Flags(f) + rest == a + (b + rest);
    NumberOf(header, f.flags, 4, b + rest);
    assert header + Flags(f) == (header + a) + b;
    if Bit(f.flags, 11) {
      FieldOf(header + a, b, rest);
    } else {
      assert (header + a) + b == header + a && b + rest == rest;
    }
  }

  lemma {:induction false} NameParses(f: Fields, header: seq<Byte>, rest: seq<Byte>)
    requires Fits(f)
    ensures ParseName(f.version, Scan(header, Name(f) + rest)) == Ok(Scan(header + Name(f), rest))
  {
    OneByte();
    var n := ToBigEndian(|f.name|, 1);
    assert Name(f) + rest == f.mode + (f.time + (n + (f.name + rest))) by {
      Assoc(f.mode + f.time + n, f.name, rest);
      Assoc(f.mode + f.time, n, f.name + rest);
      Assoc(f.mode, f.time, n + (f.name + rest));
    }
    FieldOf(header, f.mode, f.time + (n + (f.name + rest)));
    FieldOf(header + f.mode, f.time, n + (f.name + rest));
    NumberOf(header + f.mode + f.time, |f.name|, 1, f.name + rest);
    FieldOf(header + f.mode + f.time + n, f.name, rest);
    Assoc(header, f.mode, f.time);
    Assoc(header, f.mode + f.time, n);
    Assoc(header, f.mode + f.time + n, f.name);
  }

  lemma {:induction false} ExtraParses(f: Fields, rest: seq<Byte>)
    requires Fits(f) && Bit(f.flags, 6)
    ensures var input := ToBigEndian(|f.extra|, 4) + f.extra + rest;
            && Take(input, 4) == Ok(Taken(ToBigEndian(|f.extra|, 4), f.extra + rest))
            && BigEndian(ToBigEndian(|f.extra|, 4)) == |f.extra|
            && Take(f.extra + rest, |f.extra|) == Ok(Taken(f.extra, rest))
  {
    Assoc(ToBigEndian(|f.extra|, 4), f.extra, rest);
    TakeOf(ToBigEndian(|f.extra|, 4), f.extra + rest);
    BigEndianRoundTrip(|f.extra|, 4);
    TakeOf(f.extra, rest);
  }

  lemma {:induction false} TailParses(c: Codec, f: Fields, rest: seq<Byte>)
    requires Fits(f)
    ensures var extra := When(Bit(f.flags, 6), ToBigEndian(|f.extra|, 4) + f.extra);
            ParseTail(c, f.flags, Scan(Checked(f), ToBigEndian(f.sum, 4) + (extra + rest))) ==
            if f.sum != HeaderSum(c, f) then Err(CorruptHeader) else Ok(Header(f.flags, rest))
  {
    FlagBits(f.flags);
    var extra := When(Bit(f.flags, 6), ToBigEndian(|f.extra|, 4) + f.extra);
    TakeOf(ToBigEndian(f.sum, 4), extra + rest);
    BigEndianRoundTrip(f.sum, 4);
    if Bit(f.flags, 6) {
      ExtraParses(f, rest);
    } else {
      assert extra + rest == rest;
    }
  }

  /** The checksum, the extra field and what follows. */
  function Tail(f: Fields, rest: seq<Byte>): seq<Byte> {
    ToBigEndian(f.sum, 4) + (When(Bit(f.flags, 6), ToBigEndian(|f.extra|, 4) + f.extra) + rest)
  }

  lemma {:induction false} HeaderPieces(f: Fields, rest: seq<Byte>)
    ensures PrintHeader(f) + rest == Versions(f) + (Method(f) + (Flags(f) + (Name(f) + Tail(f, rest))))
  {
    var extra := When(Bit(f.flags, 6), ToBigEndian(|f.extra|, 4) + f.extra);
    Assoc(Checked(f) + ToBigEndian(f.sum, 4), extra, rest);
    Assoc(Checked(f), ToBigEndian(f.sum, 4), extra + rest);
    Assoc(Versions(f) + Method(f) + Flags(f), Name(f), Tail(f, rest));
    Assoc(Versions(f) + Method(f), Flags(f), Name(f) + Tail(f, rest));
    Assoc(Versions(f), Method(f), Flags(f) + (Name(f) + Tail(f, rest)));
  }

  lemma {:induction false} FrontParses(c: Codec, f: Fields, input: seq<Byte>, tail: seq<Byte>)
    requires Fits(f) && input == Versions(f) + (Method(f) + (Flags(f) + (Name(f) + tail)))
    ensures ParseHeader(c, input) ==
            if IsNew(f) && f.required < 0x0900 then Err(UnsupportedVersion)
            else if f.kind == 0 || f.kind > 3 then Err(UnsupportedMethod)
            else if IsNew(f) && f.level > 9 then Err(InvalidLevel)
            else ParseTail(c, f.flags, Scan(Checked(f), tail))
  {
    VersionsParse(f, Method(f) + (Flags(f) + (Name(f) + tail)));
    MethodParses(f, Versions(f), Flags(f) + (Name(f) + tail));
    FlagsParse(f, Versions(f) + Method(f), Name(f) + tail);
    NameParses(f, Versions(f) + Method(f) + Flags(f), tail);
  }

  /** Reading a printed header of any fields gives its flags and leaves what
      follows, or fails with the first thing wrong with it. */
  lemma {:induction false} HeaderParses(c: Codec, f: Fields, rest: seq<Byte>)
    requires Fits(f)
    ensures ParseHeader(c, PrintHeader(f) + rest) ==
            if HeaderProblem(c, f).Some? then Err(HeaderProblem(c, f).value) else Ok(Header(f.flags, rest))
  {
    HeaderPieces(f, rest);
    FrontParses(c, f, PrintHeader(f) + rest, Tail(f, rest));
    TailParses(c, f, rest);
  }

  // ----- blocks

  /** A block as it is stored: the size it claims, its checksums, which are printed
      only if the flags ask for them, and its data. */
  datatype Raw = Raw(size: nat, plainSum: nat, packedSum: nat, packed: seq<Byte>)

  predicate RawFits(b: Raw) {
    0 < b.size < Power(4) && b.plainSum < Power(4) && b.packedSum < Power(4) && |b.packed| < Power(4)
  }

  predicate SumsPlain(flags: nat) {
    Bit(flags, 8) || Bit(flags, 0)
  }

  predicate SumsPacked(flags: nat, b: Raw) {
    (Bit(flags, 9) || Bit(flags, 1)) && |b.packed| < b.size
  }

  function RawData(flags: nat, b: Raw): seq<Byte> {
    When(SumsPlain(flags), ToBigEndian(b.plainSum, 4)) + When(SumsPacked(flags, b), ToBigEndian(b.packedSum, 4)) + b.packed
  }

  function PrintRaw(flags: nat, b: Raw): seq<Byte> {
    ToBigEndian(b.size, 4) + (ToBigEndian(|b.packed|, 4) + RawData(flags, b))
  }

  function SumOf(c: Codec, crc: bool, data: seq<Byte>): nat {
    if crc then c.crc32(data) else c.adler32(data)
  }

  /** The data as stored when it has the claimed size, or else expanded. */
  function Plain(c: Codec, b: Raw): Option<seq<Byte>> {
    if |b.packed| == b.size then Some(b.packed) else c.decompress(b.packed, b.size)
  }

  /** The first thing wrong with a block, if any. */
  function BlockProblem(c: Codec, flags: nat, b: Raw): Option<Error> {
    if b.size > 0x400_0000 then Some(BlockTooLarge)
    else if |b.packed| > b.size then Some(CorruptBlock)
    else if SumsPacked(flags, b) && b.packedSum != SumOf(c, Bit(flags, 9), b.packed) then Some(CorruptBlock)
    else if Plain(c, b).None? then Some(DecompressionFailed)
    else if |Plain(c, b).value| != b.size then Some(UnexpectedSize)
    else if SumsPlain(flags) && b.plainSum != SumOf(c, Bit(flags, 8), Plain(c, b).value) then Some(CorruptBlock)
    else None
  }

  lemma {:induction false} SumParses(present: bool, value: nat, rest: seq<Byte>)
    requires value < Power(4)
    ensures TakeChecksum(present, When(present, ToBigEndian(value, 4)) + rest) ==
            Ok((if present then Some(value) else None, rest))
  {
    if present {
      TakeOf(ToBigEndian(value, 4), rest);
      BigEndianRoundTrip(value, 4);
    } else {
      assert [] + rest == rest;
    }
  }

  lemma {:induction false} DataParses(c: Codec, flags: nat, b: Raw, rest: seq<Byte>)
    requires RawFits(b) && b.size <= 0x400_0000 && |b.packed| <= b.size
    ensures ParseData(c, flags, b.size, |b.packed|, RawData(flags, b) + rest) ==
            if BlockProblem(c, flags, b).Some? then Err(BlockProblem(c, flags, b).value)
            else Ok(Block(Plain(c, b).value, flags, rest))
  {
    FlagBits(flags);
    var x := When(SumsPlain(flags), ToBigEndian(b.plainSum, 4));
    var y := When(SumsPacked(flags, b), ToBigEndian(b.packedSum, 4));
    assert RawData(flags, b) + rest == x + (y + (b.packed + rest));
    SumParses(SumsPlain(flags), b.plainSum, y + (b.packed + rest));
    SumParses(SumsPacked(flags, b), b.packedSum, b.packed + rest);
    TakeOf(b.packed, rest);
  }

  lemma {:induction false} BodyParses(c: Codec, flags: nat, b: Raw, rest: seq<Byte>)
    requires RawFits(b)
    ensures ParseBlock(c, flags, b.size, ToBigEndian(|b.packed|, 4) + RawData(flags, b) + rest) ==
            if BlockProblem(c, flags, b).Some? then Err(BlockProblem(c, flags, b).value)
            else Ok(Block(Plain(c, b).value, flags, rest))
  {
    var x, y := ToBigEndian(|b.packed|, 4), RawData(flags, b) + rest;
    Assoc(x, RawData(flags, b), rest);
    TakeOf(x, y);
    BigEndianRoundTrip(|b.packed|, 4);
    if b.size <= 0x400_0000 && |b.packed| <= b.size {
      DataParses(c, flags, b, rest);
    }
  }

  /** Reading a printed block of any content gives its data and leaves what follows,
      or fails with the first thing wrong with it: a stored checksum that differs
      from the sum of the data among them. */
  lemma {:induction false} RawBlockParses(c: Codec, flags: nat, b: Raw, rest: seq<Byte>)
    requires RawFits(b)
    ensures NextBlock(c, flags, PrintRaw(flags, b) + rest) ==
            if BlockProblem(c, flags, b).Some? then Err(BlockProblem(c, flags, b).value)
            else Ok(Block(Plain(c, b).value, flags, rest))
  {
    var size := ToBigEndian(b.size, 4);
    var body := ToBigEndian(|b.packed|, 4) + RawData(flags, b);
    var input := PrintRaw(flags, b) + rest;
    Assoc(size, body, rest);
    assert input[..4] == size && input[4..] == body + rest;
    BigEndianRoundTrip(b.size, 4);
    BodyParses(c, flags, b, rest);
  }

  /** Data with the bytes it is stored as: itself, or something shorter that the
      codec expands to it. */
  datatype Piece = Piece(data: seq<Byte>, packed: seq<Byte>)

  predicate ValidPiece(c: Codec, p: Piece) {
    && 0 < |p.data| <= 0x400_0000
    && (p.packed == p.data || (|p.packed| < |p.data| && c.decompress(p.packed, |p.data|) == Some(p.data)))
  }

  /** The block of a piece, with the sums its flags ask for. */
  function RawOf(c: Codec, flags: nat, p: Piece): Raw {
    Raw(|p.data|, SumOf(c, Bit(flags, 8), p.data), SumOf(c, Bit(flags, 9), p.packed), p.packed)
  }

  function PrintBlock(c: Codec, flags: nat, p: Piece): seq<Byte> {
    PrintRaw(flags, RawOf(c, flags, p))
  }

  lemma {:induction false} BlockParses(c: Codec, flags: nat, p: Piece, rest: seq<Byte>)
    requires ValidCodec(c) && ValidPiece(c, p)
    ensures NextBlock(c, flags, PrintBlock(c, flags, p) + rest) == Ok(Block(p.data, flags, rest))
  {
    FourBytes();
    RawBlockParses(c, flags, RawOf(c, flags, p), rest);
  }

  function PrintBlocks(c: Codec, flags: nat, pieces: seq<Piece>): seq<Byte> {
    if pieces == [] then [] else PrintBlock(c, flags, pieces[0]) + PrintBlocks(c, flags, pieces[1..])
  }

  function DataOf(pieces: seq<Piece>): seq<Byte> {
    if pieces == [] then [] else pieces[0].data + DataOf(pieces[1..])
  }

  function Prepend(data: seq<Byte>, s: Stream): Stream {
    Stream(data + s.bytes, s.end)
  }

  lemma {:induction false} DecodedBlock(c: Codec, flags: nat, p: Piece, input: seq<Byte>, rest: seq<Byte>)
    requires ValidCodec(c) && ValidPiece(c, p) && input == PrintBlock(c, flags, p) + rest
    ensures Decoded(c, flags, input) == Prepend(p.data, Decoded(c, flags, rest))
  {
    BlockParses(c, flags, p, rest);
  }

  lemma {:induction false} BlocksParse(c: Codec, flags: nat, pieces: seq<Piece>, rest: seq<Byte>, input: seq<Byte>)
    requires ValidCodec(c) && forall i :: 0 <= i < |pieces| ==> ValidPiece(c, pieces[i])
    requires input == PrintBlocks(c, flags, pieces) + rest
    ensures Decoded(c, flags, input) == Prepend(DataOf(pieces), Decoded(c, flags, rest))
    decreases |pieces|
  {
    var later := Decoded(c, flags, rest);
    if pieces == [] {
      assert [] + rest == rest && [] + later.bytes == later.bytes;
    } else {
      var others := PrintBlocks(c, flags, pieces[1..]) + rest;
      Assoc(PrintBlock(c, flags, pieces[0]), PrintBlocks(c, flags, pieces[1..]), rest);
      DecodedBlock(c, flags, pieces[0], input, others);
      BlocksParse(c, flags, pieces[1..], rest, others);
      Assoc(pieces[0].data, DataOf(pieces[1..]), later.bytes);
    }
  }

  // ----- files of several parts

  datatype Part = Part(fields: Fields, pieces: seq<Piece>)

  predicate ValidPart(c: Codec, p: Part) {
    ValidFields(c, p.fields) && forall i :: 0 <= i < |p.pieces| ==> ValidPiece(c, p.pieces[i])
  }

  const ZERO: seq<Byte> := [0, 0, 0, 0]

  /** A part without its magic. */
  function PrintPart(c: Codec, p: Part): seq<Byte> {
    PrintHeader(p.fields) + PrintBlocks(c, p.fields.flags, p.pieces) + ZERO
  }

  /** Parts, each behind the magic, and whatever follows the last one. */
  function PrintParts(c: Codec, parts: seq<Part>, trailer: seq<Byte>): seq<Byte> {
    if parts == [] then trailer else FILE_MAGIC + PrintPart(c, parts[0]) + PrintParts(c, parts[1..], trailer)
  }

  function AllData(parts: seq<Part>): seq<Byte> {
    if parts == [] then [] else DataOf(parts[0].pieces) + AllData(parts[1..])
  }

  lemma {:induction false} ZeroIsZero()
    ensures BigEndian(ZERO) == 0
  {
    assert ZERO[..3] == [0, 0, 0] && [0, 0, 0][..2] == [0, 0] && [0, 0][..1] == [0] && [0][..0] == [];
  }

  ghost predicate ValidParts(c: Codec, parts: seq<Part>) {
    forall i :: 0 <= i < |parts| ==> ValidPart(c, parts[i])
  }

  lemma {:induction false} BoundaryBlock(c: Codec, flags: nat, input: seq<Byte>, body: seq<Byte>, h: Header)
    requires input == ZERO + (FILE_MAGIC + body) && ParseHeader(c, body) == Ok(h)
    ensures NextBlock(c, flags, input) == NextBlock(c, h.flags, h.rest)
  {
    ZeroIsZero();
    assert input[..4] == ZERO && input[4..13] == FILE_MAGIC && input[13..] == body;
  }

  /** A part boundary is transparent: decoding goes on with the next part. */
  lemma {:induction false} Boundary(c: Codec, flags: nat, input: seq<Byte>, body: seq<Byte>, h: Header)
    requires input == ZERO + (FILE_MAGIC + body) && ParseHeader(c, body) == Ok(h)
    ensures Decoded(c, flags, input) == Decoded(c, h.flags, h.rest)
  {
    BoundaryBlock(c, flags, input, body, h);
  }

  lemma {:induction false} NoMoreParts(c: Codec, flags: nat, trailer: seq<Byte>)
    requires !(FILE_MAGIC <= trailer)
    ensures Decoded(c, flags, ZERO + trailer) == Stream([], Finished)
  {
    ZeroIsZero();
    var input := ZERO + trailer;
    assert input[..4] == ZERO && input[4..] == trailer;
    assert |input| >= 13 ==> input[4..13] == trailer[..9];
    assert |input| >= 13 && input[4..13] == FILE_MAGIC ==> FILE_MAGIC <= trailer;
  }

  /** What follows the blocks of a part: the zero size, then more parts. */
  lemma {:induction false} PartsFollow(c: Codec, flags: nat, parts: seq<Part>, trailer: seq<Byte>)
    requires ValidCodec(c) && !(FILE_MAGIC <= trailer) && ValidParts(c, parts)
    ensures Decoded(c, flags, ZERO + PrintParts(c, parts, trailer)) == Stream(AllData(parts), Finished)
    decreases |parts|, 1
  {
    if parts == [] {
      NoMoreParts(c, flags, trailer);
    } else {
      var body := PrintPart(c, parts[0]) + PrintParts(c, parts[1..], trailer);
      var h := PartParses(c, parts, trailer, body);
      Assoc(FILE_MAGIC, PrintPart(c, parts[0]), PrintParts(c, parts[1..], trailer));
      Boundary(c, flags, ZERO + PrintParts(c, parts, trailer), body, h);
    }
  }

  /** A part's header, its blocks, and what lies beyond. */
  lemma {:induction false} PartParses(c: Codec, parts: seq<Part>, trailer: seq<Byte>, body: seq<Byte>) returns (h: Header)
    requires ValidCodec(c) && !(FILE_MAGIC <= trailer) && parts != [] && ValidParts(c, parts)
    requires body == PrintPart(c, parts[0]) + PrintParts(c, parts[1..], trailer)
    ensures ParseHeader(c, body) == Ok(h) && Decoded(c, h.flags, h.rest) == Stream(AllData(parts), Finished)
    decreases |parts|, 0
  {
    var f, pieces := parts[0].fields, parts[0].pieces;
    var rest := ZERO + PrintParts(c, parts[1..], trailer);
    h := Header(f.flags, PrintBlocks(c, f.flags, pieces) + rest);
    Assoc(PrintHeader(f) + PrintBlocks(c, f.flags, pieces), ZERO, PrintParts(c, parts[1..], trailer));
    Assoc(PrintHeader(f), PrintBlocks(c, f.flags, pieces), rest);
    HeaderParses(c, f, h.rest);
    PartsFollow(c, f.flags, parts[1..], trailer);
    BlocksParse(c, f.flags, pieces, rest, h.rest);
  }

  lemma {:induction false} FileOf(c: Codec, file: seq<Byte>, body: seq<Byte>, h: Header)
    requires file == FILE_MAGIC + body && ParseHeader(c, body) == Ok(h)
    ensures DecodedFile(c, file) == Decoded(c, h.flags, h.rest)
  {
    assert file[..9] == FILE_MAGIC && file[9..] == body;
  }

  /** Decoding a printed file of any parts gives the data of all blocks in order,
      whatever trailing bytes follow that are not another magic. */
  lemma {:induction false} FileRoundTrip(c: Codec, parts: seq<Part>, trailer: seq<Byte>)
    requires ValidCodec(c) && !(FILE_MAGIC <= trailer) && parts != [] && ValidParts(c, parts)
    ensures DecodedFile(c, PrintParts(c, parts, trailer)) == Stream(AllData(parts), Finished)
  {
    var body := PrintPart(c, parts[0]) + PrintParts(c, parts[1..], trailer);
    var h := PartParses(c, parts, trailer, body);
    Assoc(FILE_MAGIC, PrintPart(c, parts[0]), PrintParts(c, parts[1..], trailer));
    FileOf(c, PrintParts(c, parts, trailer), body, h);
  }

  /** A part that goes wrong ends the stream: what the blocks before gave stands, and
      the error is the first thing wrong with the block. */
  lemma {:induction false} BadBlockEndsStream(c: Codec, f: Fields, pieces: seq<Piece>, b: Raw, rest: seq<Byte>)
    requires ValidCodec(c) && ValidPart(c, Part(f, pieces)) && RawFits(b) && BlockProblem(c, f.flags, b).Some?
    ensures var file := FILE_MAGIC + (PrintHeader(f) + (PrintBlocks(c, f.flags, pieces) + (PrintRaw(f.flags, b) + rest)));
            DecodedFile(c, file) == Stream(DataOf(pieces), Failed(BlockProblem(c, f.flags, b).value))
  {
    var bad := PrintRaw(f.flags, b) + rest;
    var blocks := PrintBlocks(c, f.flags, pieces) + bad;
    HeaderParses(c, f, blocks);
    FileOf(c, FILE_MAGIC + (PrintHeader(f) + blocks), PrintHeader(f) + blocks, Header(f.flags, blocks));
    RawBlockParses(c, f.flags, b, rest);
    BlocksParse(c, f.flags, pieces, bad, blocks);
    assert DataOf(pieces) + [] == DataOf(pieces);
  }

  /** So does a header that goes wrong, at the front of the file. */
  lemma {:induction false} BadHeaderEndsStream(c: Codec, f: Fields, rest: seq<Byte>)
    requires Fits(f) && HeaderProblem(c, f).Some?
    ensures DecodedFile(c, FILE_MAGIC + (PrintHeader(f) + rest)) == Stream([], Failed(HeaderProblem(c, f).value))
  {
    var file := FILE_MAGIC + (PrintHeader(f) + rest);
    HeaderParses(c, f, rest);
    assert file[..9] == FILE_MAGIC && file[9..] == PrintHeader(f) + rest;
  }
}
