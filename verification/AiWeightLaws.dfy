/**
  What the AI-weight codecs and the block classifier write for a buffer, and what they
  read back, said of the bytes of the buffer.
*/
module AiWeightLaws {
  import opened Bits
  import opened Buffers
  import opened Packing
  import opened ByteBlocks
  import opened BlockStreams
  import opened BlockLaws
  import opened AiWeights
  import BlockClass

  // A stream of rows: their number, the size of the type list, a type of three bits for
  // each row, and the encodings of the rows back to back.
  ghost predicate IsStreamOf(s: seq<Byte>, rows: seq<seq<Byte>>)
    requires AreBlocks(rows)
  {
    var hb := (|rows| * 3 + 7) / 8;
    && NumberAt(s, 0, |rows|, 2) && NumberAt(s, 2, hb, 2)
    && FieldsAt(s, 4, TypesOf(rows), 3)
    && (forall b | 0 <= b < |rows| :: HoldsAt(s, 4 + hb + Offset(rows, b), EncodeBlock(rows[b])))
    && |s| == 4 + hb + Offset(rows, |rows|)
  }

  // ---- The block classifier ----

  // Its rows are the blocks of 64 bytes.
  lemma BlockClassStream(src: seq<Byte>, rows: seq<seq<Byte>>, dstCap: nat)
    requires |rows| == |src| / 64 && forall b | 0 <= b < |rows| :: rows[b] == src[64 * b..64 * b + 64]
    ensures AreBlocks(rows) && IsStreamOf(BlockClass.Stream(src), rows)
    ensures BlockClass.Compressible(src, dstCap) <==>
            |src| > 0 && |src| % 64 == 0 && |BlockClass.Stream(src)| < |src| && |BlockClass.Stream(src)| <= dstCap
  {
    hide RowStream, Offset, NumberAt, FieldsAt, HoldsAt, TypesOf, EncodeBlock, EncodeRows;
    assert rows == Chunks(src);
    StreamLayout(rows);
  }

  // ---- INT8 ----

  // Its rows are the differences between rows.
  lemma Int8Stream(src: seq<Byte>, rows: seq<seq<Byte>>, dstCap: nat)
    requires |rows| == |src| / 64 && forall b | 0 <= b < |rows| :: IsDelta(rows[b], src, b)
    ensures AreBlocks(rows) && IsStreamOf(StreamInt8(src), rows)
    ensures CompressibleInt8(src, dstCap) <==>
            |src| > 0 && |src| % 64 == 0 && |StreamInt8(src)| < |src| && |StreamInt8(src)| <= dstCap
  {
    hide RowStream, Offset, NumberAt, FieldsAt, HoldsAt, TypesOf, EncodeBlock, EncodeRows, DeltaRows, IsDelta;
    DeltaRowsAre(src);
    forall b | 0 <= b < |rows| ensures rows[b] == DeltaRows(src)[b] { OneDelta(rows[b], DeltaRows(src)[b], src, b); }
    assert rows == DeltaRows(src);
    StreamLayout(rows);
  }

  lemma OneDelta(x: seq<Byte>, y: seq<Byte>, src: seq<Byte>, b: nat)
    requires IsDelta(x, src, b) && IsDelta(y, src, b)
    ensures x == y
  {
    if b > 0 {
      forall i | 0 <= i < 64 ensures x[i] == y[i] { assert x[i] as int == y[i] as int; }
    }
  }

  // What comes back from any stream: each row is its difference XOR the row before it.
  lemma Int8Decodes(s: seq<Byte>, dstCap: nat)
    requires TypesReadable(s, 1)
    ensures var d := DecodeStream(s, dstCap, AiTable);
            && (DecodeInt8(s, dstCap).Some? <==> d.Rows?)
            && (d.Rows? ==>
                  && |DecodeInt8(s, dstCap).value| == 64 * |d.rows|
                  && forall b | 0 <= b < |d.rows| :: RowRebuilt(d.rows[b], DecodeInt8(s, dstCap).value, b))
  {
    hide DecodeStream, Concat, Rebuild, RowRebuilt;
    var d := DecodeStream(s, dstCap, AiTable);
    if d.Rows? { RebuiltBytes(d.rows); }
  }

  // A row equal to the one before it adds nothing to the stream.
  lemma EqualRow(src: seq<Byte>, b: nat)
    requires 0 < b < |src| / 64 && src[64 * b..64 * b + 64] == src[64 * (b - 1)..64 * b]
    ensures BlockType(DeltaRows(src)[b]) == 0 && EncodeBlock(DeltaRows(src)[b]) == []
  {
    DeltaRowsAre(src);
    var row, before := DeltaRows(src)[b], src[64 * (b - 1)..64 * b];
    assert IsXor(row, before, before);
    forall i | 0 <= i < 64 ensures row[i] == 0 { XorSelf(before[i]); }
    ZeroBlock(row);
  }

  // So a buffer of equal rows costs a header and one row.
  lemma EqualRows(src: seq<Byte>)
    requires |src| >= 64
    requires forall b | 0 < b < |src| / 64 :: src[64 * b..64 * b + 64] == src[64 * (b - 1)..64 * b]
    ensures |StreamInt8(src)| == 4 + (|src| / 64 * 3 + 7) / 8 + |EncodeBlock(src[..64])|
  {
    hide RowStream, NumberAt, FieldsAt, HoldsAt, TypesOf, EncodeBlock, EncodeRows, DeltaRows, IsDelta;
    DeltaRowsAre(src);
    var rows := DeltaRows(src);
    StreamLayout(rows);
    FirstRow(src);
    forall b | 0 < b < |rows| ensures EncodeBlock(rows[b]) == [] { EqualRow(src, b); }
    OnlyFirst(rows, |rows|);
  }

  lemma FirstRow(src: seq<Byte>)
    requires |src| >= 64
    ensures DeltaRows(src)[0] == src[..64]
  {
  }

  lemma {:induction false} OnlyFirst(rows: seq<seq<Byte>>, b: nat)
    requires AreBlocks(rows) && 0 < b <= |rows| && forall k | 0 < k < b :: EncodeBlock(rows[k]) == []
    ensures Offset(rows, b) == |EncodeBlock(rows[0])|
  {
    hide EncodeBlock;
    if b > 1 { OnlyFirst(rows, b - 1); }
  }

  // ---- Split-16 ----

  // Row 2b has the even bytes of block b, row 2b+1 the odd ones.
  ghost predicate IsHalf(row: seq<Byte>, src: seq<Byte>, j: nat) {
    && |row| == 32 && 64 * (j / 2) + 64 <= |src|
    && forall i | 0 <= i < 32 :: row[i] == src[64 * (j / 2) + 2 * i + j % 2]
  }

  lemma SplitRowsHalves(src: seq<Byte>, rows: seq<seq<Byte>>)
    requires |rows| == 2 * (|src| / 64) && forall j | 0 <= j < |rows| :: IsHalf(rows[j], src, j)
    ensures rows == SplitRows(src)
  {
    hide SplitRow, IsHalf;
    forall j | 0 <= j < |rows| ensures rows[j] == SplitRow(src, j) { HalfIs(rows[j], src, j); }
  }

  lemma HalfIs(row: seq<Byte>, src: seq<Byte>, j: nat)
    requires j < 2 * (|src| / 64) && IsHalf(row, src, j)
    ensures 64 * (j / 2) + 64 <= |src| && row == SplitRow(src, j)
  {
    var block := Chunk(src, j / 2);
    forall i | 0 <= i < 32 ensures row[i] == SplitRow(src, j)[i] {
      assert block[2 * i + j % 2] == src[64 * (j / 2) + 2 * i + j % 2];
    }
  }

  // Number of blocks and size of one type list, two type lists of which only half is
  // written, and the halves of all blocks in turn, low before high.
  ghost predicate IsSplitStreamOf(s: seq<Byte>, rows: seq<seq<Byte>>, gapLo: seq<Byte>, gapHi: seq<Byte>)
    requires AreBlocks(rows) && |rows| % 2 == 0
  {
    var n := |rows| / 2;
    var hb, tb := (n * 6 + 7) / 8, (n * 3 + 7) / 8;
    && NumberAt(s, 0, n, 2) && NumberAt(s, 2, hb, 2)
    && FieldsAt(s, 4, HalfTypes(rows, 0), 3) && HoldsAt(s, 4 + tb, gapLo)
    && FieldsAt(s, 4 + hb, HalfTypes(rows, 1), 3) && HoldsAt(s, 4 + hb + tb, gapHi)
    && (forall j | 0 <= j < |rows| :: HoldsAt(s, 4 + 2 * hb + Offset(rows, j), EncodeBlock(rows[j])))
    && |s| == 4 + 2 * hb + Offset(rows, |rows|)
  }

  lemma SplitHeads(s: seq<Byte>, rows: seq<seq<Byte>>, gapLo: seq<Byte>, gapHi: seq<Byte>)
    requires AreBlocks(rows) && |rows| % 2 == 0 && |gapLo| == |gapHi| == GapBytes(|rows| / 2)
    requires HoldsAt(s, 0, SplitHeader(rows, gapLo, gapHi))
    ensures var n := |rows| / 2;
            var hb, tb := (n * 6 + 7) / 8, (n * 3 + 7) / 8;
            && NumberAt(s, 0, n, 2) && NumberAt(s, 2, hb, 2)
            && FieldsAt(s, 4, HalfTypes(rows, 0), 3) && HoldsAt(s, 4 + tb, gapLo)
            && FieldsAt(s, 4 + hb, HalfTypes(rows, 1), 3) && HoldsAt(s, 4 + hb + tb, gapHi)
  {
    hide Pack, ToLE, HoldsAt, NumberAt, FieldsAt, HalfTypes;
    var n := |rows| / 2;
    var hb := HeaderBytes(n);
    var lo, hi := Pack(HalfTypes(rows, 0), TYPE_BITS), Pack(HalfTypes(rows, 1), TYPE_BITS);
    HoldsSplit(s, 0, SplitPrefix(n) + (lo + gapLo), hi + gapHi);
    HoldsSplit(s, 4 + hb, hi, gapHi);
    HoldsSplit(s, 0, SplitPrefix(n), lo + gapLo);
    HoldsSplit(s, 4, lo, gapLo);
    HoldsSplit(s, 0, ToLE(n, 2), ToLE(hb, 2));
    NumberHolds(s, 0, n, 2);
    NumberHolds(s, 2, hb, 2);
    PackedFields(s, 4, HalfTypes(rows, 0), TYPE_BITS);
    PackedFields(s, 4 + hb, HalfTypes(rows, 1), TYPE_BITS);
  }

  lemma SplitStreamIs(rows: seq<seq<Byte>>, gapLo: seq<Byte>, gapHi: seq<Byte>)
    requires AreBlocks(rows) && |rows| % 2 == 0 && |gapLo| == |gapHi| == GapBytes(|rows| / 2)
    ensures IsSplitStreamOf(SplitStream(rows, gapLo, gapHi), rows, gapLo, gapHi)
  {
    hide EncodeRows, SplitHeader, HoldsAt, NumberAt, FieldsAt, EncodeBlock, HalfTypes, Offset;
    var s := SplitStream(rows, gapLo, gapHi);
    HoldsSelf(s);
    HoldsSplit(s, 0, SplitHeader(rows, gapLo, gapHi), EncodeRows(rows, 0));
    SplitHeads(s, rows, gapLo, gapHi);
    RowsLaid(s, 4 + 2 * HeaderBytes(|rows| / 2), rows);
  }

  lemma Split16Stream(src: seq<Byte>, rows: seq<seq<Byte>>, gapLo: seq<Byte>, gapHi: seq<Byte>)
    requires |rows| == 2 * (|src| / 64) && forall j | 0 <= j < |rows| :: IsHalf(rows[j], src, j)
    requires |gapLo| == |gapHi| == GapBytes(|src| / BLOCK_SIZE)
    ensures AreBlocks(rows) && |rows| % 2 == 0
    ensures IsSplitStreamOf(StreamSplit16(src, gapLo, gapHi), rows, gapLo, gapHi)
    ensures SizeSplit16(src) == |StreamSplit16(src, gapLo, gapHi)|
  {
    hide SplitRow, SplitStream, IsHalf, HalfTypes, BlockType, IsSplitStreamOf, EncodeRows, HeaderBytes, TypeBytes;
    hide AreBlocks, GapBytes, SizeSplit16;
    SplitRowsHalves(src, rows);
    Halves(|src| / BLOCK_SIZE);
    SplitStreamIs(rows, gapLo, gapHi);
  }

  // What comes back from any stream: the bytes of each pair of rows, interleaved.
  lemma Split16Decodes(s: seq<Byte>, dstCap: nat, b: nat, i: nat)
    requires TypesReadable(s, 2) && DecodeSplit16(s, dstCap).Some? && i < 32
    ensures var h := ParseHeader(s, dstCap, 2);
            && h.Header? && DecodeSplitRows(s, h.n, h.bytes).Rows?
            && var (rows, out) := (DecodeSplitRows(s, h.n, h.bytes).rows, DecodeSplit16(s, dstCap).value);
            && |out| == 64 * h.n && |rows| == 2 * h.n
            && (b < h.n ==>
                  && |rows[2 * b]| == |rows[2 * b + 1]| == 32
                  && out[64 * b + 2 * i] == rows[2 * b][i] && out[64 * b + 2 * i + 1] == rows[2 * b + 1][i])
  {
    hide DecodeRows, SplitTypes, Concat, Join, Get16;
    var h := ParseHeader(s, dstCap, 2);
    var rows := DecodeSplitRows(s, h.n, h.bytes).rows;
    ConcatLength(Join(rows));
    if b < h.n { JoinIs(rows, b, i); }
  }

  lemma HalfTypesAre(rows: seq<seq<Byte>>)
    requires AreBlocks(rows) && |rows| % 2 == 0
    ensures forall b | 0 <= b < |rows| / 2 ::
              && rows[2 * b] in rows && HalfTypes(rows, 0)[b] == BlockType(rows[2 * b])
              && rows[2 * b + 1] in rows && HalfTypes(rows, 1)[b] == BlockType(rows[2 * b + 1])
  {
    hide BlockType;
  }

  // ---- Dispatch ----

  // Formats 0 and 1 are split, format 2 is compressed by rows, no other format at all.
  lemma FormatCodec(src: seq<Byte>, was: seq<Byte>, dstCap: nat, fmt: nat)
    requires |src| <= 4096 && CompressBound(|src|) <= |was|
    ensures fmt == 0 || fmt == 1 ==>
              && (Compressible(src, dstCap, fmt) <==>
                  |src| > 0 && |src| % 64 == 0 && SizeSplit16(src) < |src| && SizeSplit16(src) <= dstCap)
              && StreamOf(src, was, fmt) == StreamSplit16(src, StaleLo(was, |src| / 64), StaleHi(was, |src| / 64))
    ensures fmt == 2 ==>
              && (Compressible(src, dstCap, fmt) <==> CompressibleInt8(src, dstCap))
              && StreamOf(src, was, fmt) == StreamInt8(src)
    ensures fmt > 2 ==> !Compressible(src, dstCap, fmt)
  {
    hide SizeSplit16, StreamSplit16, StreamInt8;
  }
}
