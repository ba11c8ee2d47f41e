/** A raw Mode 1 sector and the image of all of them. */
module SectorImage {
  import opened Wrappers
  import opened Galois
  import opened ByteTables
  import opened SectorCoder
  import DivMod
  import Edc

  // ----- the two parity walks visit every byte once

  /** The P code: 86 codewords of 24 bytes over bytes 12 to 2075. */
  const P_WALK: Walk := Walk(86, 24, 2, 86, 2064)

  /** The Q code: 52 codewords of 43 bytes over bytes 12 to 2247. */
  const Q_WALK: Walk := Walk(52, 43, 86, 88, 2236)

  lemma {:induction false} PVisit(major: nat, k: nat)
    requires major < 86 && k < 24
    ensures Visit(P_WALK, major, k) == major + k * 86
  {
    VisitDirectly(P_WALK, major, k);
    assert Start(P_WALK, major) == major;
    DivMod.ModUnique(major + k * 86, 0, major + k * 86, 2064);
  }

  /** Each byte of the P area lies on one codeword, at one place. */
  lemma {:induction false} PVisitsOnce(major: nat, k: nat, i: nat)
    requires major < 86 && k < 24 && i < 2064
    ensures Visit(P_WALK, major, k) == i <==> major == i % 86 && k == i / 86
  {
    PVisit(major, k);
    DivMod.ModUnique(major + k * 86, k, major, 86);
  }

  lemma {:induction false} QVisit(major: nat, k: nat)
    requires major < 52 && k < 43
    ensures Visit(Q_WALK, major, k) == 2 * (43 * ((major / 2 + k) % 26) + k) + major % 2
  {
    var h, e := major / 2, major % 2;
    var q, t := (h + k) / 26, (h + k) % 26;
    VisitDirectly(Q_WALK, major, k);
    DivMod.ModUnique(h * 86 + e + k * 88, q, 2 * (43 * t + k) + e, 2236);
  }

  /** Each byte of the Q area lies on one codeword, at one place: the walk runs
      down the diagonals of 43 by 26 pairs of bytes. */
  lemma {:induction false} QVisitsOnce(major: nat, k: nat, i: nat)
    requires major < 52 && k < 43 && i < 2236
    ensures var pair := i / 2;
            Visit(Q_WALK, major, k) == i <==>
              k == pair % 43 && major == 2 * ((pair / 43 + 52 - k) % 26) + i % 2
  {
    QVisit(major, k);
    var h, e := major / 2, major % 2;
    var t := (h + k) % 26;
    var w := 43 * t + k;
    DivMod.ModUnique(w, t, k, 43);
    DivMod.ModUnique(2 * w + e, w, e, 2);
    Diagonal(h, k);
    if k == i / 2 % 43 && major == 2 * ((i / 2 / 43 + 52 - k) % 26) + i % 2 {
      var t' := i / 2 / 43;
      assert t' < 26 && i == 2 * (43 * t' + k) + i % 2;
      Diagonal((t' + 52 - k) % 26, k);
      assert h == (t' + 52 - k) % 26;
      BackDiagonal(t', k);
    }
  }

  lemma {:induction false} Diagonal(h: nat, k: nat)
    requires h < 26 && k < 43
    ensures ((h + k) % 26 + 52 - k) % 26 == h
  {
  }

  lemma {:induction false} BackDiagonal(t: nat, k: nat)
    requires t < 26 && k < 43
    ensures ((t + 52 - k) % 26 + k) % 26 == t
  {
  }

  lemma {:induction false} WalksFit(data: seq<Byte>)
    ensures |data| >= 2064 ==> Fits(P_WALK, data)
    ensures |data| >= 2236 ==> Fits(Q_WALK, data)
  {
    forall major | 0 <= major < 86
      ensures Start(P_WALK, major) < 2064
    {
      assert Start(P_WALK, major) == major;
    }
    forall major | 0 <= major < 52
      ensures Start(Q_WALK, major) < 2236
    {
      assert Start(Q_WALK, major) <= 25 * 86 + 1;
    }
  }

  // ----- the header

  /** `bcd`: the tens in the high half, the units in the low half. */
  function Bcd(value: nat): (b: nat)
    requires value < 100
    ensures b < 160
  {
    (value / 10) * 16 + value % 10
  }

  /** What a player reads back from a binary-coded decimal byte. */
  function FromBcd(b: nat): nat {
    b / 16 * 10 + b % 16
  }

  lemma {:induction false} BcdRoundTrip(value: nat)
    requires value < 100
    ensures FromBcd(Bcd(value)) == value
  {
    DivMod.ModUnique(Bcd(value), value / 10, value % 10, 16);
  }

  /** The byte with a given value. */
  function ByteOf(n: nat): Byte {
    if n == 0 then 0 else ByteOf(n - 1) + 1
  }

  function BcdByte(value: nat): Byte
    requires value < 100
  {
    ByteOf(Bcd(value))
  }

  lemma {:induction false} BcdByteRoundTrip(value: nat)
    requires value < 100
    ensures FromBcd(Index(BcdByte(value))) == value
  {
    BcdRoundTrip(value);
    ByteRoundTrip(Bcd(value));
  }

  lemma {:induction false} ByteRoundTrip(i: nat)
    requires i < 256
    ensures Index(ByteOf(i)) == i
  {
    if i > 0 {
      ByteRoundTrip(i - 1);
      NextByte(ByteOf(i - 1));
    }
  }

  lemma {:induction false} NextByte(b: Byte)
    requires Index(b) < 255
    ensures Index(b + 1) == Index(b) + 1
  {
  }

  /** The position a header names: minutes, seconds and frames. */
  function Position(minute: Byte, second: Byte, frame: Byte): nat {
    FromBcd(Index(minute)) * 4500 + FromBcd(Index(second)) * 75 + FromBcd(Index(frame))
  }

  /** The last block whose minute fits two digits. */
  predicate Addressable(lba: nat) {
    (lba + 150) / 4500 <= 99
  }

  lemma {:induction false} PositionOfBcd(minute: nat, second: nat, frame: nat)
    requires minute < 100 && second < 100 && frame < 100
    ensures Position(BcdByte(minute), BcdByte(second), BcdByte(frame)) == minute * 4500 + second * 75 + frame
  {
    BcdByteRoundTrip(minute);
    BcdByteRoundTrip(second);
    BcdByteRoundTrip(frame);
  }

  lemma {:induction false} TimeParts(absolute: nat)
    ensures absolute / 4500 * 4500 + absolute / 75 % 60 * 75 + absolute % 75 == absolute
  {
    var total, frame := absolute / 75, absolute % 75;
    assert absolute == total * 75 + frame;
    assert total == total / 60 * 60 + total % 60;
    DivMod.ModUnique(absolute, total / 60, total % 60 * 75 + frame, 4500);
  }

  const SYNC: seq<Byte> := [0x00, 0xFF, 0xFF, 0xFF, 0xFF, 0xFF, 0xFF, 0xFF, 0xFF, 0xFF, 0xFF, 0x00]

  /** The sync pattern, the address and the mode byte. */
  function Header(lba: nat): (h: seq<Byte>)
    requires Addressable(lba)
    ensures |h| == 16
  {
    var absolute := lba + 150;
    SYNC + [BcdByte(absolute / 4500), BcdByte(absolute / 75 % 60), BcdByte(absolute % 75), 1]
  }

  /** A binary-coded decimal below a limit. */
  predicate IsBcd(b: Byte, limit: nat) {
    Index(b) / 16 < 10 && Index(b) % 16 < 10 && FromBcd(Index(b)) < limit
  }

  /** A header a player resolves to the block it was made for. */
  ghost predicate NamesBlock(h: seq<Byte>, lba: nat) {
    && |h| == 16 && h[..12] == SYNC && h[15] == 1
    && IsBcd(h[12], 100) && IsBcd(h[13], 60) && IsBcd(h[14], 75)
    && Position(h[12], h[13], h[14]) == lba + 150
  }

  lemma {:induction false} BcdByteIsBcd(value: nat, limit: nat)
    requires value < limit <= 100
    ensures IsBcd(BcdByte(value), limit)
  {
    BcdByteRoundTrip(value);
    ByteRoundTrip(Bcd(value));
    DivMod.ModUnique(Bcd(value), value / 10, value % 10, 16);
  }

  lemma {:induction false} HeaderNamesBlock(lba: nat)
    requires Addressable(lba)
    ensures NamesBlock(Header(lba), lba)
  {
    var absolute := lba + 150;
    PositionOfBcd(absolute / 4500, absolute / 75 % 60, absolute % 75);
    TimeParts(absolute);
    BcdByteIsBcd(absolute / 4500, 100);
    BcdByteIsBcd(absolute / 75 % 60, 60);
    BcdByteIsBcd(absolute % 75, 75);
  }

  // ----- a sector

  /** The codeword `major` of the first parity layer is complete ... */
  ghost predicate PHolds(s: seq<Byte>, major: nat)
    requires |s| == RAW_SECTOR_SIZE && major < 86
  {
    Completes(P_WALK, s[12..2076], major, s[2076 + major], s[2162 + major])
  }

  /** ... and so is that of the second, which covers the first as well. */
  ghost predicate QHolds(s: seq<Byte>, major: nat)
    requires |s| == RAW_SECTOR_SIZE && major < 52
  {
    Completes(Q_WALK, s[12..2248], major, s[2248 + major], s[2300 + major])
  }

  /** The checksum and both layers of parity hold. */
  ghost predicate Protected(s: seq<Byte>) {
    && |s| == RAW_SECTOR_SIZE
    && Edc.Crc(s[..2068]) == 0
    && s[2068..2076] == seq(8, _ => 0)
    && (forall major :: 0 <= major < 86 ==> PHolds(s, major))
    && (forall major :: 0 <= major < 52 ==> QHolds(s, major))
  }

  /** A valid raw Mode 1 sector for a block and its user data. */
  ghost predicate IsRawSector(s: seq<Byte>, lba: nat, payload: seq<Byte>) {
    Protected(s) && NamesBlock(s[..16], lba) && s[16..2064] == payload
  }

  /** The tables the script builds once. */
  ghost predicate Tables(edc: Edc.Table, forward: Table, backward: Table) {
    Edc.IsTable(edc) && EccTables(forward, backward)
  }

  /** `raw_mode1_sector`. */
  method RawSector(lba: nat, payload: seq<Byte>, edc: Edc.Table, forward: Table, backward: Table)
    returns (r: Outcome<seq<Byte>>)
    requires Tables(edc, forward, backward)
    ensures r.Success? <==> |payload| == COOKED_SECTOR_SIZE && Addressable(lba)
    ensures r.Success? ==> IsRawSector(r.value, lba, payload)
  {
    if |payload| != COOKED_SECTOR_SIZE || (lba + 150) / 4500 > 99 {
      return Failure;
    }
    HeaderNamesBlock(lba);
    var head := Header(lba) + payload;
    var s := Protect(head, edc, forward, backward);
    assert s[..16] == s[..2064][..16] == Header(lba);
    assert s[16..2064] == s[..2064][16..] == payload;
    return Success(s);
  }

  /** Extends header and user data by the checksum and both parities. */
  method Protect(head: seq<Byte>, edc: Edc.Table, forward: Table, backward: Table) returns (s: seq<Byte>)
    requires Tables(edc, forward, backward) && |head| == 2064
    ensures Protected(s) && s[..2064] == head
  {
    var checksum := Edc.Checksum(head, edc);
    Edc.ResidueIsZero(head);
    var check := Edc.LittleEndian(checksum);
    var covered := head + check + seq(8, _ => 0);
    WalksFit(covered[12..]);
    var p := Ecc(covered[12..], P_WALK, forward, backward);
    var withP := covered + p;
    WalksFit(withP[12..]);
    var q := Ecc(withP[12..], Q_WALK, forward, backward);
    Assembled(head, check, p, q);
    s := withP + q;
  }

  lemma {:induction false} Assembled(head: seq<Byte>, check: seq<Byte>, p: seq<Byte>, q: seq<Byte>)
    requires |head| == 2064 && |check| == 4 && |p| == 172 && |q| == 104
    requires Edc.Crc(head + check) == 0
    requires var covered := head + check + seq(8, _ => 0);
             && (forall major :: 0 <= major < 86 ==>
                   Completes(P_WALK, covered[12..], major, p[major], p[major + 86]))
             && (forall major :: 0 <= major < 52 ==>
                   Completes(Q_WALK, (covered + p)[12..], major, q[major], q[major + 52]))
    ensures var s := head + check + seq(8, _ => 0) + p + q;
            Protected(s) && s[..2064] == head
  {
    var zeros: seq<Byte> := seq(8, _ => 0);
    var covered := head + check + zeros;
    var s := covered + p + q;
    assert s[..2064] == head;
    assert s[..2068] == head + check;
    assert s[2068..2076] == zeros;
    assert s[12..2076] == covered[12..];
    assert s[12..2248] == (covered + p)[12..];
    forall major | 0 <= major < 86
      ensures PHolds(s, major)
    {
      assert s[2076 + major] == p[major] && s[2162 + major] == p[major + 86];
    }
    forall major | 0 <= major < 52
      ensures QHolds(s, major)
    {
      assert s[2248 + major] == q[major] && s[2300 + major] == q[major + 52];
    }
  }

  // ----- the image

  function Chunk(image: seq<Byte>, size: nat, i: nat): seq<Byte>
    requires (i + 1) * size <= |image|
  {
    image[i * size..(i + 1) * size]
  }

  /** The raw image of an ISO: one valid sector for each of its blocks. */
  ghost predicate IsRawImage(raw: seq<Byte>, iso: seq<Byte>, blocks: nat) {
    && |iso| == blocks * COOKED_SECTOR_SIZE && |raw| == blocks * RAW_SECTOR_SIZE
    && forall i :: 0 <= i < blocks ==> SectorAt(raw, iso, blocks, i)
  }

  ghost predicate SectorAt(raw: seq<Byte>, iso: seq<Byte>, blocks: nat, i: nat)
    requires |iso| == blocks * COOKED_SECTOR_SIZE && |raw| == blocks * RAW_SECTOR_SIZE && i < blocks
  {
    ChunkBound(i, blocks, COOKED_SECTOR_SIZE);
    ChunkBound(i, blocks, RAW_SECTOR_SIZE);
    IsRawSector(Chunk(raw, RAW_SECTOR_SIZE, i), i, Chunk(iso, COOKED_SECTOR_SIZE, i))
  }

  lemma {:induction false} ChunkBound(i: nat, blocks: nat, size: nat)
    requires i < blocks
    ensures (i + 1) * size <= blocks * size
  {
    assert (blocks - i - 1) * size >= 0;
    assert blocks * size == (i + 1) * size + (blocks - i - 1) * size;
  }

  /** Appending one block to both images. */
  lemma {:induction false} ImageGrows(raw: seq<Byte>, iso: seq<Byte>, blocks: nat, sector: seq<Byte>, payload: seq<Byte>)
    requires IsRawImage(raw, iso, blocks) && |payload| == COOKED_SECTOR_SIZE
    requires IsRawSector(sector, blocks, payload)
    ensures IsRawImage(raw + sector, iso + payload, blocks + 1)
  {
    var r, s, total := raw + sector, iso + payload, blocks + 1;
    forall i | 0 <= i < total
      ensures SectorAt(r, s, total, i)
    {
      ChunkBound(i, total, COOKED_SECTOR_SIZE);
      ChunkBound(i, total, RAW_SECTOR_SIZE);
      if i < blocks {
        EarlierChunk(raw, sector, RAW_SECTOR_SIZE, blocks, i);
        EarlierChunk(iso, payload, COOKED_SECTOR_SIZE, blocks, i);
        assert SectorAt(raw, iso, blocks, i);
      } else {
        LastChunk(raw, sector, RAW_SECTOR_SIZE, i);
        LastChunk(iso, payload, COOKED_SECTOR_SIZE, i);
      }
    }
  }

  lemma {:induction false} EarlierChunk(image: seq<Byte>, last: seq<Byte>, size: nat, n: nat, i: nat)
    requires |image| == n * size && i < n
    ensures (i + 1) * size <= n * size && Chunk(image + last, size, i) == Chunk(image, size, i)
  {
    ChunkBound(i, n, size);
  }

  lemma {:induction false} LastChunk(image: seq<Byte>, last: seq<Byte>, size: nat, n: nat)
    requires |image| == n * size && |last| == size
    ensures (n + 1) * size == n * size + size && Chunk(image + last, size, n) == last
  {
  }

  /** The sector loop of `main`. */
  method WriteImage(iso: seq<Byte>) returns (r: Outcome<seq<Byte>>)
    ensures r.Success? <==> iso != [] && |iso| % COOKED_SECTOR_SIZE == 0 && Addressable(|iso| / COOKED_SECTOR_SIZE - 1)
    ensures r.Success? ==> IsRawImage(r.value, iso, |iso| / COOKED_SECTOR_SIZE)
  {
    var edc := Edc.BuildTable();
    var forward, backward := BuildEccTables();
    if iso == [] || |iso| % COOKED_SECTOR_SIZE != 0 {
      return Failure;
    }
    var blocks := |iso| / COOKED_SECTOR_SIZE;
    var output := [];
    var lba := 0;
    while lba < blocks
      invariant 0 <= lba <= blocks
      invariant IsRawImage(output, iso[..lba * COOKED_SECTOR_SIZE], lba)
      invariant lba > 0 ==> Addressable(lba - 1)
    {
      ChunkBound(lba, blocks, COOKED_SECTOR_SIZE);
      var payload := Chunk(iso, COOKED_SECTOR_SIZE, lba);
      var sector := RawSector(lba, payload, edc, forward, backward);
      if sector.Failure? {
        return Failure;
      }
      ImageGrows(output, iso[..lba * COOKED_SECTOR_SIZE], lba, sector.value, payload);
      assert iso[..lba * COOKED_SECTOR_SIZE] + payload == iso[..(lba + 1) * COOKED_SECTOR_SIZE];
      output := output + sector.value;
      lba := lba + 1;
    }
    assert iso[..blocks * COOKED_SECTOR_SIZE] == iso;
    return Success(output);
  }

  /** The user data of a raw image, block after block. */
  function Cooked(raw: seq<Byte>, blocks: nat): seq<Byte>
    requires |raw| == blocks * RAW_SECTOR_SIZE
    decreases blocks
  {
    if blocks == 0 then []
    else Cooked(raw[..(blocks - 1) * RAW_SECTOR_SIZE], blocks - 1) + raw[(blocks - 1) * RAW_SECTOR_SIZE..][16..2064]
  }

  /** Reading the user data back gives the ISO. */
  lemma {:induction false} CookedIsIso(raw: seq<Byte>, iso: seq<Byte>, blocks: nat)
    requires IsRawImage(raw, iso, blocks)
    ensures Cooked(raw, blocks) == iso
    decreases blocks
  {
    if blocks > 0 {
      var n := blocks - 1;
      var raw', iso' := raw[..n * RAW_SECTOR_SIZE], iso[..n * COOKED_SECTOR_SIZE];
      forall i | 0 <= i < n
        ensures SectorAt(raw', iso', n, i)
      {
        ChunkBound(i, n, COOKED_SECTOR_SIZE);
        ChunkBound(i, n, RAW_SECTOR_SIZE);
        ChunkBound(i, blocks, COOKED_SECTOR_SIZE);
        ChunkBound(i, blocks, RAW_SECTOR_SIZE);
        assert SectorAt(raw, iso, blocks, i);
        assert Chunk(raw', RAW_SECTOR_SIZE, i) == Chunk(raw, RAW_SECTOR_SIZE, i);
        assert Chunk(iso', COOKED_SECTOR_SIZE, i) == Chunk(iso, COOKED_SECTOR_SIZE, i);
      }
      CookedIsIso(raw', iso', n);
      assert SectorAt(raw, iso, blocks, n);
      assert raw[n * RAW_SECTOR_SIZE..] == Chunk(raw, RAW_SECTOR_SIZE, n);
      assert iso == iso' + Chunk(iso, COOKED_SECTOR_SIZE, n);
    }
  }
}
