/** The error detection code of a sector: a table-driven checksum, and the
    bit-serial cyclic redundancy check it stands for. */
module Edc {
  import opened Galois
  import opened ByteTables

  /** One shift of the table builder; the lowest bit selects the polynomial. */
  function Shift(x: bv32): bv32 {
    (x >> 1) ^ ((x & 1) * 0xD801_8001)
  }

  lemma {:induction false} ShiftByCases(x: bv32)
    ensures Shift(x) == (x >> 1) ^ (if x & 1 != 0 then 0xD801_8001 else 0)
  {
  }

  /** The bits of a word in reverse order: neighbours are swapped, then pairs, and
      so on up to halves. */
  function Reversed(x: bv32): bv32 {
    var a := ((x >> 1) & 0x5555_5555) | ((x & 0x5555_5555) << 1);
    var b := ((a >> 2) & 0x3333_3333) | ((a & 0x3333_3333) << 2);
    var c := ((b >> 4) & 0x0F0F_0F0F) | ((b & 0x0F0F_0F0F) << 4);
    var d := ((c >> 8) & 0x00FF_00FF) | ((c & 0x00FF_00FF) << 8);
    (d >> 16) | (d << 16)
  }

  /** The polynomial is that of section 14.3 of ECMA-130, the product of
      x^16 + x^15 + x^2 + 1 and x^16 + x^2 + x + 1, lowest power first. */
  lemma {:induction false} PolynomialFactors()
    ensures var f: bv64 := 0x1_8005;
            var product := (f << 16) ^ (f << 2) ^ (f << 1) ^ f;
            product >> 32 == 1 && Reversed((product & 0xFFFF_FFFF) as bv32) == Shift(1)
  {
    assert Shift(1) == 0xD801_8001;
    assert Reversed(0x8001_801B) == 0xD801_8001;
  }

  function Xor32(x: bv32, y: bv32): bv32 {
    x ^ y
  }

  /** Checksums add like bytes do, with a shift in the place of doubling. */
  const Words: Arithmetic<bv32> := Arithmetic(0, Xor32, Shift)

  lemma {:induction false} ShiftIsLinear(x: bv32, y: bv32)
    ensures Shift(x ^ y) == Shift(x) ^ Shift(y)
  {
  }

  lemma {:induction false} Xor32Associates(x: bv32, y: bv32, z: bv32)
    ensures Xor32(Xor32(x, y), z) == Xor32(x, Xor32(y, z))
  {
  }

  lemma {:induction false} Xor32Laws(x: bv32, y: bv32)
    ensures Xor32(x, y) == Xor32(y, x) && Xor32(x, x) == 0 && Xor32(x, 0) == x
  {
  }

  lemma {:induction false} WordsSumLaws(x: bv32, y: bv32, z: bv32)
    ensures SumLaws(Words, x, y, z)
  {
    Xor32Associates(x, y, z);
    Xor32Laws(x, y);
  }

  lemma {:induction false} WordsDoubleLaw(x: bv32, y: bv32)
    ensures DoubleLaw(Words, x, y)
  {
    var s := x ^ y;
    assert Words.add(x, y) == s;
    assert Words.double(s) == Shift(s) && Words.double(x) == Shift(x) && Words.double(y) == Shift(y);
    ShiftIsLinear(x, y);
    assert Words.add(Shift(x), Shift(y)) == Shift(x) ^ Shift(y);
  }

  lemma {:induction false} WordsAreLawful()
    ensures Lawful(Words)
  {
    forall x, y, z
      ensures SumLaws(Words, x, y, z)
    {
      WordsSumLaws(x, y, z);
    }
    forall x, y
      ensures DoubleLaw(Words, x, y)
    {
      WordsDoubleLaw(x, y);
    }
  }

  // ----- the reference: one message bit at a time, lowest bit first

  /** Feeds the lowest bit of `v`. */
  function Feed(c: bv32, v: bv32): bv32 {
    (c >> 1) ^ (((c ^ v) & 1) * 0xD801_8001)
  }

  function Halve(v: bv32): bv32 {
    v >> 1
  }

  function FeedBits(c: bv32, v: bv32, bits: nat): bv32
    decreases bits
  {
    if bits == 0 then c else FeedBits(Feed(c, v), Halve(v), bits - 1)
  }

  const BYTE_BITS: nat := 8

  function FeedWhole(c: bv32, v: bv8): bv32 {
    FeedBits(c, v as bv32, BYTE_BITS)
  }

  function Fold<S, V>(f: (S, V) -> S, s: S, data: seq<V>): S
    decreases |data|
  {
    if data == [] then s else Fold(f, f(s, data[0]), data[1..])
  }

  lemma {:induction false} FoldLast<S, V>(f: (S, V) -> S, s: S, data: seq<V>, v: V)
    ensures Fold(f, s, data + [v]) == f(Fold(f, s, data), v)
    decreases |data|
  {
    if data == [] {
      assert (data + [v])[1..] == [];
    } else {
      assert (data + [v])[1..] == data[1..] + [v];
      FoldLast(f, f(s, data[0]), data[1..], v);
    }
  }

  /** The cyclic redundancy check of a byte string. */
  function Crc(data: seq<bv8>): bv32 {
    Fold(FeedWhole, 0, data)
  }

  // ----- the table

  function Entry(v: bv8): bv32 {
    Times(Words, 8, v as bv32)
  }

  function LowByte(c: bv32): bv8 {
    (c & 0xFF) as bv8
  }

  function Down(c: bv32): bv32 {
    c >> 8
  }

  /** One byte through the table. */
  function Step(c: bv32, v: bv8): bv32 {
    Xor32(Down(c), Entry(LowByte(Xor32(c, v as bv32))))
  }

  lemma {:induction false} FeedLaw(c: bv32, v: bv32)
    ensures Feed(c, v) ^ Halve(v) == Shift(c ^ v)
  {
  }

  /** Feeding bit by bit is shifting the sum of state and message. */
  lemma {:induction false} FeedBitsIsTimes(c: bv32, v: bv32, bits: nat)
    ensures Words.add(FeedBits(c, v, bits), HalveTimes(v, bits)) == Times(Words, bits, Words.add(c, v))
    decreases bits
  {
    if bits > 0 {
      FeedLawWords(c, v);
      FeedBitsIsTimes(Feed(c, v), Halve(v), bits - 1);
      assert Times(Words, 1, Words.add(c, v)) == Words.double(Times(Words, 0, Words.add(c, v)));
      TimesTimes(Words, bits - 1, 1, Words.add(c, v));
    }
  }

  lemma {:induction false} FeedLawWords(c: bv32, v: bv32)
    ensures Words.add(Feed(c, v), Halve(v)) == Words.double(Words.add(c, v))
  {
    FeedLaw(c, v);
  }

  function HalveTimes(v: bv32, bits: nat): bv32
    decreases bits
  {
    if bits == 0 then v else HalveTimes(Halve(v), bits - 1)
  }

  lemma {:induction false} ByteIsHalvedAway(v: bv8)
    ensures HalveTimes(v as bv32, 8) == 0
  {
    var w := v as bv32;
    assert ((((((((w >> 1) >> 1) >> 1) >> 1) >> 1) >> 1) >> 1) >> 1) == 0;
    var h4 := HalveTimes(w, 4);
    HalveMore(w, 4, 4);
    assert HalveTimes(h4, 4) == Halve(Halve(Halve(Halve(h4))));
    assert h4 == Halve(Halve(Halve(Halve(w))));
  }

  lemma {:induction false} HalveMore(v: bv32, m: nat, n: nat)
    ensures HalveTimes(HalveTimes(v, m), n) == HalveTimes(v, m + n)
    decreases m
  {
    if m > 0 {
      HalveMore(Halve(v), m - 1, n);
    }
  }

  lemma {:induction false} EightShiftsOfHighBits(x: bv32)
    requires x & 0xFF == 0
    ensures Shift(Shift(Shift(Shift(Shift(Shift(Shift(Shift(x)))))))) == x >> 8
  {
  }

  lemma {:induction false} HighBitsShiftOut(x: bv32)
    requires x & 0xFF == 0
    ensures Times(Words, 8, x) == x >> 8
  {
    TimesEight(Words, x);
    EightShiftsOfHighBits(x);
  }

  function HighBits(c: bv32): bv32 {
    c & 0xFFFF_FF00
  }

  lemma {:induction false} SplitWord(x: bv32)
    ensures Xor32(HighBits(x), LowByte(x) as bv32) == x
    ensures HighBits(x) & 0xFF == 0
  {
  }

  lemma {:induction false} ByteIsLow(v: bv8)
    ensures (v as bv32) & 0xFFFF_FF00 == 0
  {
  }

  lemma {:induction false} LowBitsShiftOut(c: bv32, w: bv32)
    requires w & 0xFFFF_FF00 == 0
    ensures ((c ^ w) & 0xFFFF_FF00) >> 8 == c >> 8
  {
  }

  lemma {:induction false} ByteLeavesHighBits(c: bv32, v: bv8)
    ensures HighBits(Xor32(c, v as bv32)) >> 8 == Down(c)
  {
    ByteIsLow(v);
    LowBitsShiftOut(c, v as bv32);
  }

  lemma {:induction false} FeedByte(c: bv32, v: bv8)
    ensures FeedWhole(c, v) == Times(Words, 8, Words.add(c, v as bv32))
  {
    WordsAreLawful();
    var fed := FeedWhole(c, v);
    assert SumLaws(Words, fed, fed, fed);
    ByteIsHalvedAway(v);
    FeedBitsIsTimes(c, v as bv32, BYTE_BITS);
  }

  lemma {:induction false} TimesOfSplit(high: bv32, low: bv8)
    requires high & 0xFF == 0
    ensures Times(Words, 8, Words.add(high, low as bv32)) == Words.add(high >> 8, Entry(low))
  {
    WordsAreLawful();
    TimesIsLinear(Words, 8, high, low as bv32);
    HighBitsShiftOut(high);
  }

  lemma {:induction false} SumSplits(c: bv32, v: bv8)
    ensures var sum := Xor32(c, v as bv32);
            && HighBits(sum) & 0xFF == 0
            && Words.add(c, v as bv32) == Words.add(HighBits(sum), LowByte(sum) as bv32)
  {
    SplitWord(Xor32(c, v as bv32));
  }

  lemma {:induction false} StepBySplit(c: bv32, v: bv8)
    ensures var sum := Xor32(c, v as bv32);
            Step(c, v) == Words.add(HighBits(sum) >> 8, Entry(LowByte(sum)))
  {
    ByteLeavesHighBits(c, v);
  }

  lemma {:induction false} StepChain(c: bv32, w: bv32, high: bv32, low: bv8, step: bv32, fed: bv32)
    requires fed == Times(Words, 8, Words.add(c, w))
    requires Words.add(c, w) == Words.add(high, low as bv32) && high & 0xFF == 0
    requires step == Words.add(high >> 8, Entry(low))
    ensures step == fed
  {
    TimesOfSplit(high, low);
  }

  /** One byte through the table feeds its eight bits. */
  lemma {:induction false} StepIsFeedBits(c: bv32, v: bv8)
    ensures Step(c, v) == FeedWhole(c, v)
  {
    var sum := Xor32(c, v as bv32);
    SumSplits(c, v);
    StepBySplit(c, v);
    FeedByte(c, v);
    StepChain(c, v as bv32, HighBits(sum), LowByte(sum), Step(c, v), FeedWhole(c, v));
  }

  /** A table with an entry for every byte value. */
  type Table = seq<bv32>

  ghost predicate IsTable(table: Table) {
    |table| == 256 && forall v: bv8 :: table[Index(v)] == Entry(v)
  }

  ghost predicate TableBelow(table: Table, n: bv16) {
    |table| == 256 && forall v: bv8 :: Below(v, n) ==> table[Index(v)] == Entry(v)
  }

  lemma {:induction false} TableGrows(table: Table, n: bv16)
    requires n < 256 && TableBelow(table, n)
    ensures TableBelow(table[Index(n as bv8) := Entry(n as bv8)], n + 1)
  {
    var w := n as bv8;
    var grown := table[Index(w) := Entry(w)];
    forall v: bv8 | Below(v, n + 1)
      ensures grown[Index(v)] == Entry(v)
    {
      BelowNext(v, n);
      if Index(v) == Index(w) {
        IndexIsInjective(v, w);
      }
    }
  }

  /** `build_edc_table`: eight shifts of every byte value. */
  method BuildTable() returns (table: Table)
    ensures IsTable(table)
  {
    table := seq(256, _ => 0);
    var value: bv16 := 0;
    while value < 256
      invariant value <= 256 && TableBelow(table, value)
      decreases 256 - value
    {
      var v := value as bv8;
      var entry := ShiftLoop(v as bv32);
      TableGrows(table, value);
      table := table[Index(v) := entry];
      value := value + 1;
    }
    forall v: bv8 ensures Below(v, 256) { BelowAll(v); }
  }

  method ShiftLoop(value: bv32) returns (entry: bv32)
    ensures entry == Times(Words, 8, value)
  {
    entry := value;
    var k := 0;
    while k < 8
      invariant 0 <= k <= 8 && entry == Times(Words, k, value)
    {
      ShiftByCases(entry);
      entry := (entry >> 1) ^ (if entry & 1 != 0 then 0xD801_8001 else 0);
      k := k + 1;
    }
  }

  lemma {:induction false} CrcLast(data: seq<bv8>, v: bv8)
    ensures Crc(data + [v]) == Step(Crc(data), v)
  {
    FoldLast(FeedWhole, 0, data, v);
    StepIsFeedBits(Crc(data), v);
  }

  /** `edc`: the table-driven loop computes the bit-serial check. */
  method Checksum(data: seq<bv8>, table: Table) returns (checksum: bv32)
    requires IsTable(table)
    ensures checksum == Crc(data)
  {
    checksum := 0;
    var i := 0;
    while i < |data|
      invariant 0 <= i <= |data|
      invariant checksum == Crc(data[..i])
    {
      var value := data[i];
      CrcLast(data[..i], value);
      assert data[..i + 1] == data[..i] + [value];
      checksum := TableStep(checksum, value, table);
      i := i + 1;
    }
    assert data[..i] == data;
  }

  method TableStep(c: bv32, v: bv8, table: Table) returns (r: bv32)
    requires IsTable(table)
    ensures r == Step(c, v)
  {
    var at := LowByte(Xor32(c, v as bv32));
    r := Xor32(Down(c), table[Index(at)]);
  }

  // ----- the residue

  /** `to_bytes(4, "little")`. */
  function LittleEndian(c: bv32): (r: seq<bv8>)
    ensures |r| == 4
  {
    [LowByte(c), LowByte(Down(c)), LowByte(Down(Down(c))), LowByte(Down(Down(Down(c))))]
  }

  lemma {:induction false} StepOnOwnByte(c: bv32)
    ensures Step(c, LowByte(c)) == Down(c)
  {
    OwnByteCancels(c);
    ZeroEntry();
    Xor32Laws(Down(c), 0);
  }

  lemma {:induction false} OwnByteCancels(c: bv32)
    ensures LowByte(Xor32(c, LowByte(c) as bv32)) == 0
  {
  }

  lemma {:induction false} ZeroEntry()
    ensures Entry(0) == 0
  {
    HighBitsShiftOut(0);
  }

  lemma {:induction false} FourBytesDown(c: bv32)
    ensures Down(Down(Down(Down(c)))) == 0
  {
  }

  /** A message followed by its own checksum checks to zero. */
  lemma {:induction false} ResidueIsZero(data: seq<bv8>)
    ensures Crc(data + LittleEndian(Crc(data))) == 0
  {
    var c0 := Crc(data);
    var c1 := OwnByteFeeds(data, c0);
    var d1 := data + [LowByte(c0)];
    var c2 := OwnByteFeeds(d1, c1);
    var d2 := d1 + [LowByte(c1)];
    var c3 := OwnByteFeeds(d2, c2);
    var d3 := d2 + [LowByte(c2)];
    var c4 := OwnByteFeeds(d3, c3);
    FourBytesDown(c0);
    FourAppended(data, LowByte(c0), LowByte(c1), LowByte(c2), LowByte(c3));
  }

  lemma {:induction false} FourAppended(data: seq<bv8>, a: bv8, b: bv8, c: bv8, d: bv8)
    ensures data + [a, b, c, d] == data + [a] + [b] + [c] + [d]
  {
  }

  lemma {:induction false} OwnByteFeeds(data: seq<bv8>, c: bv32) returns (next: bv32)
    requires c == Crc(data)
    ensures next == Down(c) && next == Crc(data + [LowByte(c)])
  {
    next := Down(c);
    CrcLast(data, LowByte(c));
    StepOnOwnByte(c);
  }
}
