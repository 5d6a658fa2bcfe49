/**
  The AI-weight codecs.  Split-16 separates the low and the high bytes of 16-bit
  values into two 32-byte rows per block; INT8 XORs every 64-byte row with the row
  before it.  Both then encode their rows with the block encoding.
*/
module AiWeights {
  import opened Bits
  import opened Buffers
  import opened Packing
  import opened ByteBlocks
  import opened BlockStreams

  const HALF_BLOCK := 32

  function CompressBound(n: nat): nat {
    n + 256
  }

  // ================= INT8: row deltas =================

  function XorRow(a: seq<Byte>, b: seq<Byte>): (r: seq<Byte>)
    requires |a| == |b|
    ensures |r| == |a|
    ensures forall i | 0 <= i < |a| :: r[i] as int == Xor(a[i], b[i])
  {
    XorBytes();
    seq(|a|, i requires 0 <= i < |a| => Xor(a[i], b[i]))
  }

  lemma XorBytes()
    ensures forall x: Byte, y: Byte :: 0 <= Xor(x, y) < 256
  {
    BytePow();
    forall x: Byte, y: Byte ensures 0 <= Xor(x, y) < 256 { XorBound(x, y, 8); }
  }

  lemma XorRowUndo(a: seq<Byte>, b: seq<Byte>)
    requires |a| == |b|
    ensures XorRow(XorRow(a, b), b) == a
  {
    forall i | 0 <= i < |a| ensures XorRow(XorRow(a, b), b)[i] == a[i] { XorUndo(a[i], b[i]); }
  }

  function DeltaRow(src: seq<Byte>, b: nat): (row: seq<Byte>)
    requires BLOCK_SIZE * b + BLOCK_SIZE <= |src|
    ensures |row| == BLOCK_SIZE
  {
    if b == 0 then Chunk(src, 0) else XorRow(Chunk(src, b), Chunk(src, b - 1))
  }

  function DeltaRows(src: seq<Byte>): (rows: seq<seq<Byte>>)
    ensures |rows| == |src| / BLOCK_SIZE
    ensures forall r | r in rows :: |r| == BLOCK_SIZE
  {
    seq(|src| / BLOCK_SIZE, b requires 0 <= b < |src| / BLOCK_SIZE => DeltaRow(src, b))
  }

  // The row decoded after the rows `before`, from its delta.
  function NextRow(before: seq<seq<Byte>>, delta: seq<Byte>): (row: seq<Byte>)
    requires |delta| == BLOCK_SIZE && forall r | r in before :: |r| == BLOCK_SIZE
    ensures |row| == BLOCK_SIZE
  {
    if |before| == 0 then delta
    else assert before[|before| - 1] in before; XorRow(delta, before[|before| - 1])
  }

  // The rows rebuilt one after the other, each from the row just rebuilt.
  function Rebuild(deltas: seq<seq<Byte>>): (out: seq<seq<Byte>>)
    requires forall r | r in deltas :: |r| == BLOCK_SIZE
    ensures |out| == |deltas| && forall r | r in out :: |r| == BLOCK_SIZE
  {
    if |deltas| == 0 then []
    else
      var k := |deltas| - 1;
      var before := Rebuild(deltas[..k]);
      before + [NextRow(before, deltas[k])]
  }

  // A row XOR another.
  ghost predicate IsXor(row: seq<Byte>, a: seq<Byte>, b: seq<Byte>) {
    |row| == |a| == |b| && forall i | 0 <= i < |row| :: row[i] as int == Xor(a[i], b[i])
  }

  // A row as it is written: the first as it is, any other XOR the row before it.
  ghost predicate IsDelta(row: seq<Byte>, src: seq<Byte>, b: nat) {
    && 64 * b + 64 <= |src|
    && if b == 0 then row == src[..64] else IsXor(row, src[64 * b..64 * b + 64], src[64 * (b - 1)..64 * b])
  }

  lemma DeltaRowsAre(src: seq<Byte>)
    ensures |DeltaRows(src)| == |src| / 64
    ensures forall b | 0 <= b < |DeltaRows(src)| :: IsDelta(DeltaRows(src)[b], src, b)
  {
    hide XorRow;
    forall b | 0 <= b < |DeltaRows(src)| ensures IsDelta(DeltaRows(src)[b], src, b) { DeltaRowIs(src, b); }
  }

  lemma DeltaRowIs(src: seq<Byte>, b: nat)
    requires 64 * b + 64 <= |src|
    ensures IsDelta(DeltaRow(src, b), src, b)
  {
    assert 64 * (b - 1) + 64 == 64 * b;
  }

  // And every row rebuilt is its difference XOR the row rebuilt before it.
  lemma {:induction false} RebuildIs(deltas: seq<seq<Byte>>, b: nat)
    requires (forall r | r in deltas :: |r| == BLOCK_SIZE) && b < |deltas|
    ensures var out := Rebuild(deltas);
            |out| == |deltas| && if b == 0 then out[0] == deltas[0] else IsXor(out[b], deltas[b], out[b - 1])
  {
    var k := |deltas| - 1;
    var out := Rebuild(deltas);
    assert out == Rebuild(deltas[..k]) + [NextRow(Rebuild(deltas[..k]), deltas[k])];
    if b < k { RebuildIs(deltas[..k], b); }
  }

  // A decoded row: its difference XOR the row decoded before it.
  ghost predicate RowRebuilt(delta: seq<Byte>, out: seq<Byte>, b: nat) {
    && 64 * b + 64 <= |out|
    && if b == 0 then out[..64] == delta else IsXor(out[64 * b..64 * b + 64], delta, out[64 * (b - 1)..64 * b])
  }

  lemma RebuiltBytes(rows: seq<seq<Byte>>)
    requires forall r | r in rows :: |r| == BLOCK_SIZE
    ensures |Concat(Rebuild(rows))| == 64 * |rows|
    ensures forall b | 0 <= b < |rows| :: RowRebuilt(rows[b], Concat(Rebuild(rows)), b)
  {
    hide Rebuild, Concat, IsXor;
    var out := Concat(Rebuild(rows));
    ConcatLength(Rebuild(rows));
    forall b | 0 <= b < |rows| ensures RowRebuilt(rows[b], out, b) {
      assert rows[b] in rows;
      var row := Rebuild(rows)[b];
      RebuiltRow(rows, b);
      if b == 0 { assert out[..64] == row; } else { assert out[64 * b..64 * b + 64] == row; }
    }
  }

  lemma RebuiltRow(rows: seq<seq<Byte>>, b: nat)
    requires (forall r | r in rows :: |r| == BLOCK_SIZE) && b < |rows|
    ensures var (out, all) := (Rebuild(rows), Concat(Rebuild(rows)));
            && |all| == 64 * |rows| && |out| == |rows| && all[64 * b..64 * b + 64] == out[b]
            && if b == 0 then out[b] == rows[b] else IsXor(out[b], rows[b], all[64 * (b - 1)..64 * b])
  {
    hide Rebuild, Concat;
    var out, all := Rebuild(rows), Concat(Rebuild(rows));
    ConcatLength(out);
    assert rows[b] in rows && out[b] in out;
    RowOf(out, b);
    RebuildIs(rows, b);
    if b > 0 { RowOf(out, b - 1); }
  }

  lemma RowOf(rows: seq<seq<Byte>>, b: nat)
    requires (forall r | r in rows :: |r| == BLOCK_SIZE) && b < |rows|
    ensures |Concat(rows)| == 64 * |rows| && Concat(rows)[64 * b..64 * b + 64] == rows[b]
  {
    hide Concat;
    ConcatLength(rows);
    assert rows[b] in rows;
    forall i | 0 <= i < 64 ensures Concat(rows)[64 * b..64 * b + 64][i] == rows[b][i] { ConcatAt(rows, b, i); }
  }

  lemma RebuildOne(deltas: seq<seq<Byte>>, delta: seq<Byte>)
    requires (forall r | r in deltas :: |r| == BLOCK_SIZE) && |delta| == BLOCK_SIZE
    ensures forall r | r in deltas + [delta] :: |r| == BLOCK_SIZE
    ensures Rebuild(deltas + [delta]) == Rebuild(deltas) + [NextRow(Rebuild(deltas), delta)]
  {
    assert (deltas + [delta])[..|deltas|] == deltas;
  }

  lemma DeltaUndone(src: seq<Byte>, b: nat)
    requires BLOCK_SIZE * b + BLOCK_SIZE <= |src|
    ensures NextRow(Chunks(src)[..b], DeltaRow(src, b)) == Chunk(src, b)
  {
    if b > 0 {
      XorRowUndo(Chunk(src, b), Chunk(src, b - 1));
      assert Chunks(src)[..b][b - 1] == Chunk(src, b - 1);
    }
  }

  lemma {:induction false} RebuildDeltas(src: seq<Byte>, k: nat)
    requires k <= |src| / BLOCK_SIZE
    ensures Rebuild(DeltaRows(src)[..k]) == Chunks(src)[..k]
  {
    hide NextRow, XorRow, Chunk, DeltaRow, Rebuild;
    if k == 0 {
      assert Rebuild([]) == [];
    } else {
      RebuildDeltas(src, k - 1);
      assert DeltaRows(src)[..k] == DeltaRows(src)[..k - 1] + [DeltaRow(src, k - 1)];
      RebuildOne(DeltaRows(src)[..k - 1], DeltaRow(src, k - 1));
      DeltaUndone(src, k - 1);
      assert Chunks(src)[..k] == Chunks(src)[..k - 1] + [Chunk(src, k - 1)];
    }
  }

  function StreamInt8(src: seq<Byte>): seq<Byte> {
    RowStream(DeltaRows(src))
  }

  predicate CompressibleInt8(src: seq<Byte>, dstCap: nat) {
    && |src| > 0
    && |src| % BLOCK_SIZE == 0
    && |StreamInt8(src)| < |src|
    && |StreamInt8(src)| <= dstCap
  }

  // The loops that fill delta_buf, one row at a time.
  method BuildDeltaRows(src: seq<Byte>) returns (rows: seq<seq<Byte>>)
    requires |src| % BLOCK_SIZE == 0
    ensures rows == DeltaRows(src)
    ensures forall b | 0 <= b < |rows| :: IsDelta(rows[b], src, b)
  {
    hide DeltaRow;
    rows := [];
    for b := 0 to |src| / BLOCK_SIZE
      invariant rows == DeltaRows(src)[..b]
    {
      var row := DeltaBlock(src, b);
      rows := rows + [row];
    }
    DeltaRowsAre(src);
  }

  method DeltaBlock(src: seq<Byte>, b: nat) returns (row: seq<Byte>)
    requires BLOCK_SIZE * b + BLOCK_SIZE <= |src|
    ensures row == DeltaRow(src, b)
  {
    hide Xor;
    var buf := new Byte[BLOCK_SIZE](_ => 0);
    XorBytes();
    for i := 0 to BLOCK_SIZE
      invariant forall k | 0 <= k < i :: buf[k] == DeltaRow(src, b)[k]
    {
      buf[i] := if b > 0 then Xor(src[BLOCK_SIZE * b + i], src[BLOCK_SIZE * (b - 1) + i])
                else src[BLOCK_SIZE * b + i];
    }
    row := buf[..];
  }

  lemma DeltaStreamSize(src: seq<Byte>)
    requires |src| <= BLOCK_SIZE * BLOCKS_PER_PAGE && |src| % BLOCK_SIZE == 0
    ensures AreBlocks(DeltaRows(src)) && |DeltaRows(src)| <= BLOCKS_PER_PAGE
    ensures StreamInt8(src) == RowStream(DeltaRows(src)) && 0 < |StreamInt8(src)| <= CompressBound(|src|)
  {
    hide DeltaRow;
    RowStreamSize(DeltaRows(src));
  }

  method CompressInt8(src: seq<Byte>, dst: array<Byte>, dstCap: nat) returns (r: nat)
    requires |src| <= BLOCK_SIZE * BLOCKS_PER_PAGE && CompressBound(|src|) <= dst.Length
    modifies dst
    ensures r > 0 <==> CompressibleInt8(src, dstCap)
    ensures r > 0 ==> r == |StreamInt8(src)| && Written(old(dst[..]), dst[..], 0, StreamInt8(src))
    ensures dst[CompressBound(|src|)..] == old(dst[CompressBound(|src|)..])
  {
    hide RowStream, StreamInt8, DeltaRows, Written;
    if |src| == 0 || |src| % BLOCK_SIZE != 0 { return 0; }
    var rows := BuildDeltaRows(src);
    DeltaStreamSize(src);
    var result := WriteStream(rows, AiTable, dst);
    WrittenBelow(old(dst[..]), dst[..], RowStream(rows), CompressBound(|src|));
    assert dst[CompressBound(|src|)..] == dst[..][CompressBound(|src|)..];
    if result >= |src| || result > dstCap { return 0; }
    return result;
  }

  function DecodeInt8(s: seq<Byte>, dstCap: nat): (o: Option<seq<Byte>>)
    requires TypesReadable(s, 1)
    ensures o.Some? ==> 0 < |o.value| <= dstCap
  {
    var d := DecodeStream(s, dstCap, AiTable);
    if d.NoRows? then None else ConcatLength(Rebuild(d.rows)); Some(Concat(Rebuild(d.rows)))
  }

  method DecompressInt8(s: seq<Byte>, dst: array<Byte>, dstCap: nat) returns (r: nat)
    requires TypesReadable(s, 1) && dstCap <= dst.Length
    modifies dst
    ensures r > 0 <==> DecodeInt8(s, dstCap).Some?
    ensures r > 0 ==>
              r == |DecodeInt8(s, dstCap).value| && Written(old(dst[..]), dst[..], 0, DecodeInt8(s, dstCap).value)
  {
    hide DecodeRows, Concat, FromLE, Rebuild;
    if |s| < 4 { return 0; }
    var n, headerBytes := Get16(s, 0), Get16(s, 2);
    if n == 0 || n > BLOCKS_PER_PAGE { return 0; }
    if 4 + headerBytes > |s| { return 0; }
    var expected := n * BLOCK_SIZE;
    if expected > dstCap { return 0; }
    r := ReadDeltaRows(s, n, 4 + headerBytes, dst);
  }

  method ReadDeltaRows(s: seq<Byte>, n: nat, start: nat, dst: array<Byte>) returns (r: nat)
    requires 0 < n && 8 * 4 + TYPE_BITS * n <= 8 * |s| && BLOCK_SIZE * n <= dst.Length
    modifies dst
    ensures r > 0 <==> DecodeRows(s, HeaderTypes(s, 4, n), 0, start, BLOCK_SIZE, AiTable).Rows?
    ensures r > 0 ==>
              var rows := DecodeRows(s, HeaderTypes(s, 4, n), 0, start, BLOCK_SIZE, AiTable).rows;
              && r == |Concat(Rebuild(rows))| && Written(old(dst[..]), dst[..], 0, Concat(Rebuild(rows)))
              && |rows| == n && r == 64 * n && forall b | 0 <= b < n :: RowRebuilt(rows[b], dst[..r], b)
  {
    hide DecodeBlock, DecodeRows, PrependRows, Extract, Concat, Rebuild, XorRow, Written, RowRebuilt;
    ghost var types := HeaderTypes(s, 4, n);
    ghost var all := DecodeRows(s, types, 0, start, BLOCK_SIZE, AiTable);
    ghost var done: seq<seq<Byte>>, out: seq<seq<Byte>> := [], [];
    var prev := new Byte[BLOCK_SIZE](_ => 0);
    var pos := start;
    PrependNothing(all);
    NoRowsYet();
    WrittenNothing(dst[..], 0);
    for b := 0 to n
      invariant |done| == b && forall row | row in done :: |row| == BLOCK_SIZE
      invariant all == PrependRows(done, DecodeRows(s, types, b, pos, BLOCK_SIZE, AiTable))
      invariant out == Rebuild(done) && (b > 0 ==> prev[..] == out[b - 1])
      invariant |Concat(out)| == BLOCK_SIZE * b && Written(old(dst[..]), dst[..], 0, Concat(out))
    {
      var ty := Extract(s, 4, TYPE_BITS * b, TYPE_BITS);
      ghost var d, was := DecodeBlock(s, pos, ty, BLOCK_SIZE, AiTable), dst[..];
      DecodeRowsAdvance(s, types, b, pos, BLOCK_SIZE, AiTable, done, all);
      var ok, next := ReadDelta(s, pos, ty, b, dst, prev);
      if !ok { return 0; }
      ghost var row := NextRow(out, d.bytes);
      assert prev[..] == row;
      WrittenThen(old(dst[..]), was, dst[..], 0, Concat(out), row);
      ConcatOne(out, row);
      RebuildOne(done, d.bytes);
      done, out := done + [d.bytes], out + [row];
      pos := next;
    }
    DecodeRowsEnd(s, types, pos, BLOCK_SIZE, AiTable, done, all);
    RebuiltBytes(done);
    WrittenHolds(old(dst[..]), dst[..], 0, Concat(out));
    assert dst[..BLOCK_SIZE * n] == Concat(out);
    r := n * BLOCK_SIZE;
  }

  // One row: its delta decoded, then undone.
  method ReadDelta(s: seq<Byte>, pos: nat, ty: nat, b: nat, dst: array<Byte>, prev: array<Byte>)
    returns (ok: bool, next: nat)
    requires prev.Length == BLOCK_SIZE && BLOCK_SIZE * b + BLOCK_SIZE <= dst.Length && prev != dst
    modifies dst, prev
    ensures var d := DecodeBlock(s, pos, ty, BLOCK_SIZE, AiTable);
            && (ok <==> d.Decoded?)
            && (ok ==> next == d.next && prev[..] == (if b == 0 then d.bytes else XorRow(d.bytes, old(prev[..]))))
    ensures ok ==> Written(old(dst[..]), dst[..], BLOCK_SIZE * b, prev[..])
  {
    hide DecodeBlock, XorRow, Written;
    var cur := new Byte[BLOCK_SIZE](_ => 0);
    ghost var before := cur[..];
    ok, next := ReadBlock(s, pos, ty, BLOCK_SIZE, AiTable, cur, 0);
    if !ok { return; }
    WrittenWhole(before, cur[..], DecodeBlock(s, pos, ty, BLOCK_SIZE, AiTable).bytes);
    UndoDelta(cur[..], b, dst, prev);
  }

  // out[i] = cur[i] ^ prev[i] (the first row is copied), then prev becomes that row.
  method UndoDelta(cur: seq<Byte>, b: nat, dst: array<Byte>, prev: array<Byte>)
    requires |cur| == BLOCK_SIZE == prev.Length && BLOCK_SIZE * b + BLOCK_SIZE <= dst.Length && prev != dst
    modifies dst, prev
    ensures prev[..] == if b == 0 then cur else XorRow(cur, old(prev[..]))
    ensures Written(old(dst[..]), dst[..], BLOCK_SIZE * b, prev[..])
  {
    hide XorRow, Xor;
    ghost var row := if b == 0 then cur else XorRow(cur, prev[..]);
    XorBytes();
    for i := 0 to BLOCK_SIZE
      invariant prev[..] == old(prev[..])
      invariant forall j | 0 <= j < dst.Length ::
                  dst[j] == if BLOCK_SIZE * b <= j < BLOCK_SIZE * b + i then row[j - BLOCK_SIZE * b] else old(dst[j])
    {
      dst[BLOCK_SIZE * b + i] := if b > 0 then Xor(cur[i], prev[i]) else cur[i];
    }
    Copy(if b > 0 then dst[BLOCK_SIZE * b..BLOCK_SIZE * b + BLOCK_SIZE] else cur, prev, 0);
    assert prev[..] == row;
  }

  // Decoding row b from the row decoded before it undoes the XOR delta, for every
  // number of rows.
  lemma LosslessInt8(src: seq<Byte>, dstCap: nat)
    requires 0 < |src| <= BLOCK_SIZE * BLOCKS_PER_PAGE && |src| % BLOCK_SIZE == 0
    requires |src| <= dstCap
    ensures TypesReadable(StreamInt8(src), 1)
    ensures DecodeInt8(StreamInt8(src), dstCap) == Some(src)
  {
    StreamRoundTrip(DeltaRows(src), dstCap, AiTable);
    RebuildDeltas(src, |src| / BLOCK_SIZE);
    assert DeltaRows(src)[..|src| / BLOCK_SIZE] == DeltaRows(src);
    assert Chunks(src)[..|src| / BLOCK_SIZE] == Chunks(src);
    ConcatChunks(src);
  }

  // ================= Split-16: low and high byte rows =================

  function LoRow(row: seq<Byte>): (r: seq<Byte>)
    requires |row| == BLOCK_SIZE
    ensures |r| == HALF_BLOCK
  {
    seq(HALF_BLOCK, i requires 0 <= i < HALF_BLOCK => row[2 * i])
  }

  function HiRow(row: seq<Byte>): (r: seq<Byte>)
    requires |row| == BLOCK_SIZE
    ensures |r| == HALF_BLOCK
  {
    seq(HALF_BLOCK, i requires 0 <= i < HALF_BLOCK => row[2 * i + 1])
  }

  function Zip(lo: seq<Byte>, hi: seq<Byte>): (row: seq<Byte>)
    requires |lo| == |hi| == HALF_BLOCK
    ensures |row| == BLOCK_SIZE
  {
    seq(BLOCK_SIZE, j requires 0 <= j < BLOCK_SIZE => if j % 2 == 0 then lo[j / 2] else hi[j / 2])
  }

  lemma ZipSplit(row: seq<Byte>)
    requires |row| == BLOCK_SIZE
    ensures Zip(LoRow(row), HiRow(row)) == row
  {
    forall j | 0 <= j < BLOCK_SIZE ensures Zip(LoRow(row), HiRow(row))[j] == row[j] {
      assert j == 2 * (j / 2) + j % 2;
    }
  }

  // Row 2b is the low bytes of block b, row 2b+1 its high bytes.
  function SplitRow(src: seq<Byte>, j: nat): (row: seq<Byte>)
    requires BLOCK_SIZE * (j / 2) + BLOCK_SIZE <= |src|
    ensures |row| == HALF_BLOCK
  {
    if j % 2 == 0 then LoRow(Chunk(src, j / 2)) else HiRow(Chunk(src, j / 2))
  }

  function SplitRows(src: seq<Byte>): (rows: seq<seq<Byte>>)
    ensures |rows| == 2 * (|src| / BLOCK_SIZE)
    ensures AreBlocks(rows) && forall r | r in rows :: |r| == HALF_BLOCK
  {
    seq(2 * (|src| / BLOCK_SIZE), j requires 0 <= j < 2 * (|src| / BLOCK_SIZE) => SplitRow(src, j))
  }

  function Join(rows: seq<seq<Byte>>): (out: seq<seq<Byte>>)
    requires forall r | r in rows :: |r| == HALF_BLOCK
    ensures |out| == |rows| / 2 && forall r | r in out :: |r| == BLOCK_SIZE
  {
    seq(|rows| / 2, b requires 0 <= b < |rows| / 2 =>
      assert rows[2 * b] in rows && rows[2 * b + 1] in rows; Zip(rows[2 * b], rows[2 * b + 1]))
  }

  // Each 16-bit value of a decoded buffer, from its two rows.
  lemma JoinIs(rows: seq<seq<Byte>>, b: nat, i: nat)
    requires (forall r | r in rows :: |r| == HALF_BLOCK) && 2 * b + 1 < |rows| && i < 32
    ensures var out := Concat(Join(rows));
            && |out| == 64 * (|rows| / 2) && |rows[2 * b]| == |rows[2 * b + 1]| == 32
            && out[64 * b + 2 * i] == rows[2 * b][i] && out[64 * b + 2 * i + 1] == rows[2 * b + 1][i]
  {
    hide Concat;
    assert rows[2 * b] in rows && rows[2 * b + 1] in rows;
    assert b < |rows| / 2;
    var zip := Zip(rows[2 * b], rows[2 * b + 1]);
    assert Join(rows)[b] == zip;
    assert zip[2 * i] == rows[2 * b][i] && zip[2 * i + 1] == rows[2 * b + 1][i];
    ConcatAt(Join(rows), b, 2 * i);
    ConcatAt(Join(rows), b, 2 * i + 1);
  }

  lemma JoinTwo(rows: seq<seq<Byte>>, lo: seq<Byte>, hi: seq<Byte>)
    requires |rows| % 2 == 0 && (forall r | r in rows :: |r| == HALF_BLOCK) && |lo| == |hi| == HALF_BLOCK
    ensures forall r | r in rows + [lo] + [hi] :: |r| == HALF_BLOCK
    ensures Join(rows + [lo] + [hi]) == Join(rows) + [Zip(lo, hi)]
  {
  }

  lemma JoinSplit(src: seq<Byte>)
    ensures Join(SplitRows(src)) == Chunks(src)
  {
    hide LoRow, HiRow, Zip, Chunk;
    var rows := SplitRows(src);
    forall b | 0 <= b < |src| / BLOCK_SIZE ensures Join(rows)[b] == Chunk(src, b) {
      ZipSplit(Chunk(src, b));
      assert (2 * b) / 2 == b && (2 * b + 1) / 2 == b && (2 * b + 1) % 2 == 1;
      assert rows[2 * b] == LoRow(Chunk(src, b)) && rows[2 * b + 1] == HiRow(Chunk(src, b));
    }
  }

  // Types of the rows first, first + 2, first + 4, ...
  function HalfTypes(rows: seq<seq<Byte>>, first: nat): (ts: seq<Byte>)
    requires AreBlocks(rows) && |rows| % 2 == 0 && first < 2
    ensures |ts| == |rows| / 2 && forall t | t in ts :: t < 8
  {
    seq(|rows| / 2, b requires 0 <= b < |rows| / 2 =>
      assert rows[2 * b + first] in rows; BlockType(rows[2 * b + first]))
  }

  // The header reserves 6 bits per block for each of the two type lists, but only 3
  // bits per block of either are ever written.
  function HeaderBytes(n: nat): nat {
    (n * TYPE_BITS * 2 + 7) / 8
  }

  function TypeBytes(n: nat): (t: nat)
    ensures t == PackedLen(n, TYPE_BITS) <= HeaderBytes(n)
  {
    (n * TYPE_BITS + 7) / 8
  }

  function GapBytes(n: nat): nat {
    HeaderBytes(n) - TypeBytes(n)
  }

  function SplitPrefix(n: nat): (s: seq<Byte>)
    ensures |s| == 4
  {
    ToLE(n, 2) + ToLE(HeaderBytes(n), 2)
  }

  function SplitHeader(rows: seq<seq<Byte>>, gapLo: seq<Byte>, gapHi: seq<Byte>): (s: seq<Byte>)
    requires AreBlocks(rows) && |rows| % 2 == 0 && |gapLo| == |gapHi| == GapBytes(|rows| / 2)
    ensures |s| == 4 + 2 * HeaderBytes(|rows| / 2)
  {
    SplitPrefix(|rows| / 2)
    + (Pack(HalfTypes(rows, 0), TYPE_BITS) + gapLo)
    + (Pack(HalfTypes(rows, 1), TYPE_BITS) + gapHi)
  }

  function SplitStream(rows: seq<seq<Byte>>, gapLo: seq<Byte>, gapHi: seq<Byte>): (s: seq<Byte>)
    requires AreBlocks(rows) && |rows| % 2 == 0 && |gapLo| == |gapHi| == GapBytes(|rows| / 2)
    ensures |s| == 4 + 2 * HeaderBytes(|rows| / 2) + |EncodeRows(rows, 0)|
  {
    SplitHeader(rows, gapLo, gapHi) + EncodeRows(rows, 0)
  }

  function StreamSplit16(src: seq<Byte>, gapLo: seq<Byte>, gapHi: seq<Byte>): (s: seq<Byte>)
    requires |gapLo| == |gapHi| == GapBytes(|src| / BLOCK_SIZE)
    ensures |s| == SizeSplit16(src)
  {
    hide EncodeRows, HeaderBytes, TypeBytes, GapBytes, SplitStream, SplitRows, AreBlocks;
    Halves(|src| / BLOCK_SIZE);
    SplitStream(SplitRows(src), gapLo, gapHi)
  }

  lemma Halves(n: nat)
    ensures 2 * n / 2 == n && 2 * n % 2 == 0
  {
  }

  function SizeSplit16(src: seq<Byte>): nat {
    4 + 2 * HeaderBytes(|src| / BLOCK_SIZE) + |EncodeRows(SplitRows(src), 0)|
  }

  lemma SplitSizeBound(src: seq<Byte>)
    requires |src| <= BLOCK_SIZE * BLOCKS_PER_PAGE
    ensures SizeSplit16(src) <= |src| + 100
  {
    hide EncodeRows, SplitRow;
    EncodeRowsSize(SplitRows(src), 0);
    TotalSizeUniform(SplitRows(src), 0, HALF_BLOCK);
  }

  predicate CompressibleSplit16(src: seq<Byte>, dstCap: nat) {
    && |src| > 0
    && |src| % BLOCK_SIZE == 0
    && SizeSplit16(src) < |src|
    && SizeSplit16(src) <= dstCap
  }

  // What the gaps of the two type headers hold: whatever dst held before.
  function StaleLo(was: seq<Byte>, n: nat): (g: seq<Byte>)
    requires 4 + 2 * HeaderBytes(n) <= |was|
    ensures |g| == GapBytes(n)
  {
    was[4 + TypeBytes(n)..4 + HeaderBytes(n)]
  }

  function StaleHi(was: seq<Byte>, n: nat): (g: seq<Byte>)
    requires 4 + 2 * HeaderBytes(n) <= |was|
    ensures |g| == GapBytes(n)
  {
    was[4 + HeaderBytes(n) + TypeBytes(n)..4 + 2 * HeaderBytes(n)]
  }

  // The loops that fill lo_buf and hi_buf, one block at a time.
  method BuildSplitRows(src: seq<Byte>) returns (rows: seq<seq<Byte>>)
    requires |src| % BLOCK_SIZE == 0
    ensures rows == SplitRows(src)
  {
    hide SplitRow, SplitRows, LoRow, HiRow, Chunk;
    rows := [];
    for b := 0 to |src| / BLOCK_SIZE
      invariant rows == SplitRows(src)[..2 * b]
    {
      var lo, hi := SplitBlock(src, b);
      RowPair(src, b);
      rows := rows + [lo] + [hi];
    }
    assert SplitRows(src)[..2 * (|src| / BLOCK_SIZE)] == SplitRows(src);
  }

  lemma RowPair(src: seq<Byte>, b: nat)
    requires b < |src| / BLOCK_SIZE
    ensures var all := SplitRows(src);
            all[..2 * (b + 1)] == all[..2 * b] + [LoRow(Chunk(src, b))] + [HiRow(Chunk(src, b))]
  {
    hide LoRow, HiRow;
    assert (2 * b) / 2 == b && (2 * b + 1) / 2 == b && (2 * b + 1) % 2 == 1;
    var all := SplitRows(src);
    assert all[2 * b] == LoRow(Chunk(src, b)) && all[2 * b + 1] == HiRow(Chunk(src, b));
  }

  method SplitBlock(src: seq<Byte>, b: nat) returns (lo: seq<Byte>, hi: seq<Byte>)
    requires BLOCK_SIZE * b + BLOCK_SIZE <= |src|
    ensures lo == LoRow(Chunk(src, b)) && hi == HiRow(Chunk(src, b))
  {
    var loBuf, hiBuf := new Byte[HALF_BLOCK](_ => 0), new Byte[HALF_BLOCK](_ => 0);
    for i := 0 to HALF_BLOCK
      invariant forall k | 0 <= k < i :: loBuf[k] == Chunk(src, b)[2 * k] && hiBuf[k] == Chunk(src, b)[2 * k + 1]
    {
      loBuf[i] := src[BLOCK_SIZE * b + 2 * i];
      hiBuf[i] := src[BLOCK_SIZE * b + 2 * i + 1];
    }
    lo, hi := loBuf[..], hiBuf[..];
  }

  method CompressSplit16(src: seq<Byte>, dst: array<Byte>, dstCap: nat) returns (r: nat)
    requires |src| <= BLOCK_SIZE * BLOCKS_PER_PAGE && CompressBound(|src|) <= dst.Length
    modifies dst
    ensures r > 0 <==> CompressibleSplit16(src, dstCap)
    ensures r > 0 ==>
              var n, was := |src| / BLOCK_SIZE, old(dst[..]);
              && r == SizeSplit16(src)
              && Written(was, dst[..], 0, StreamSplit16(src, StaleLo(was, n), StaleHi(was, n)))
    ensures dst[CompressBound(|src|)..] == old(dst[CompressBound(|src|)..])
  {
    hide Written, SplitRows, EncodeRows, SplitStream, HeaderBytes, TypeBytes, PackedLen;
    if |src| == 0 || |src| % BLOCK_SIZE != 0 { return 0; }
    var rows := BuildSplitRows(src);
    SplitSizeBound(src);
    ghost var was, n := dst[..], |rows| / 2;
    var result := WriteSplit(rows, dst);
    WrittenBelow(was, dst[..], SplitStream(rows, StaleLo(was, n), StaleHi(was, n)), CompressBound(|src|));
    assert dst[CompressBound(|src|)..] == dst[..][CompressBound(|src|)..];
    if result >= |src| || result > dstCap { return 0; }
    return result;
  }

  // One type header: the packed types, then whatever the buffer already held.
  method WriteTypeHeader(ts: seq<Byte>, headerBytes: nat, dst: array<Byte>, off: nat)
    requires forall t | t in ts :: t < 8
    requires TypeBytes(|ts|) <= headerBytes && off + headerBytes <= dst.Length
    modifies dst
    ensures Written(old(dst[..]), dst[..], off,
                    Pack(ts, TYPE_BITS) + old(dst[off + TypeBytes(|ts|)..off + headerBytes]))
  {
    hide Pack, Written;
    BytePow();
    ghost var was := dst[..];
    PackFields(ts, TYPE_BITS, dst, off);
    WrittenGap(was, dst[..], off, Pack(ts, TYPE_BITS), headerBytes - TypeBytes(|ts|));
  }

  method WritePrefix(n: nat, headerBytes: nat, dst: array<Byte>)
    requires n <= BLOCKS_PER_PAGE && headerBytes == HeaderBytes(n) && 4 <= dst.Length
    modifies dst
    ensures Written(old(dst[..]), dst[..], 0, SplitPrefix(n))
  {
    hide ToLE, Written;
    ghost var s0 := dst[..];
    Put16(n, dst, 0);
    ghost var s1 := dst[..];
    Put16(headerBytes, dst, 2);
    WrittenThen(s0, s1, dst[..], 0, ToLE(n, 2), ToLE(headerBytes, 2));
  }

  method WriteSplitHeader(rows: seq<seq<Byte>>, infos: seq<Info>, dst: array<Byte>)
    requires AreBlocks(rows) && DescribesAll(infos, rows) && |rows| % 2 == 0 && |rows| <= 2 * BLOCKS_PER_PAGE
    requires 4 + 2 * HeaderBytes(|rows| / 2) <= dst.Length
    modifies dst
    ensures Written(old(dst[..]), dst[..], 0,
                    SplitHeader(rows, StaleLo(old(dst[..]), |rows| / 2), StaleHi(old(dst[..]), |rows| / 2)))
  {
    hide Pack, ToLE, BlockType, Written, HalfTypes, DescribesAll, SplitPrefix, HeaderBytes, TypeBytes, PackedLen;
    var n := |rows| / 2;
    var headerBytes, typeBytes := HeaderBytes(n), TypeBytes(n);
    ghost var lo, hi := Pack(HalfTypes(rows, 0), TYPE_BITS), Pack(HalfTypes(rows, 1), TYPE_BITS);
    ghost var s0 := dst[..];
    ghost var gapLo, gapHi := StaleLo(s0, n), StaleHi(s0, n);
    WritePrefix(n, headerBytes, dst);
    ghost var s2 := dst[..];
    ghost var front := SplitPrefix(n);
    WrittenBehind(s0, s2, 0, front, 4 + typeBytes, 4 + headerBytes);
    WriteTypeHeader(InfoTypes(rows, infos, 0), headerBytes, dst, 4);
    ghost var s3 := dst[..];
    WrittenThen(s0, s2, s3, 0, front, lo + gapLo);
    WrittenBehind(s0, s3, 0, front + (lo + gapLo), 4 + headerBytes + typeBytes, 4 + 2 * headerBytes);
    WriteTypeHeader(InfoTypes(rows, infos, 1), headerBytes, dst, 4 + headerBytes);
    WrittenThen(s0, s3, dst[..], 0, front + (lo + gapLo), hi + gapHi);
  }

  method WriteSplit(rows: seq<seq<Byte>>, dst: array<Byte>) returns (next: nat)
    requires AreBlocks(rows) && |rows| % 2 == 0 && |rows| <= 2 * BLOCKS_PER_PAGE
    requires 4 + 2 * HeaderBytes(|rows| / 2) + |EncodeRows(rows, 0)| <= dst.Length
    modifies dst
    ensures next == 4 + 2 * HeaderBytes(|rows| / 2) + |EncodeRows(rows, 0)|
    ensures Written(old(dst[..]), dst[..], 0,
                    SplitStream(rows, StaleLo(old(dst[..]), |rows| / 2), StaleHi(old(dst[..]), |rows| / 2)))
  {
    hide EncodeRows, BlockType, Written, SplitHeader, DescribesAll;
    var infos := ClassifyRows(rows, AiTable);
    ghost var n, s0 := |rows| / 2, dst[..];
    WriteSplitHeader(rows, infos, dst);
    ghost var s1 := dst[..];
    next := WriteRows(rows, infos, AiTable, dst, 4 + 2 * HeaderBytes(|rows| / 2));
    WrittenThen(s0, s1, dst[..], 0, SplitHeader(rows, StaleLo(s0, n), StaleHi(s0, n)), EncodeRows(rows, 0));
  }

  function InfoTypes(rows: seq<seq<Byte>>, infos: seq<Info>, first: nat): (ts: seq<Byte>)
    requires AreBlocks(rows) && DescribesAll(infos, rows) && |rows| % 2 == 0 && first < 2
    ensures ts == HalfTypes(rows, first)
  {
    hide BlockType, MinOf, MaxOf, RangeOf;
    seq(|rows| / 2, b requires 0 <= b < |rows| / 2 => infos[2 * b + first].ty)
  }

  // Row types as the decoder reads them, low and high alternating.
  function SplitTypes(s: seq<Byte>, n: nat, bytes: nat): (ts: seq<nat>)
    requires 8 * 4 + TYPE_BITS * n <= 8 * |s| && 8 * (4 + bytes) + TYPE_BITS * n <= 8 * |s|
    ensures |ts| == 2 * n
  {
    seq(2 * n, j requires 0 <= j < 2 * n =>
      Extract(s, if j % 2 == 0 then 4 else 4 + bytes, TYPE_BITS * (j / 2), TYPE_BITS))
  }

  function DecodeSplitRows(s: seq<Byte>, n: nat, bytes: nat): (d: DecodedRows)
    requires 8 * (4 + bytes) + TYPE_BITS * n <= 8 * |s|
    ensures d.Rows? ==> |d.rows| == 2 * n && forall r | r in d.rows :: |r| == HALF_BLOCK
  {
    DecodeRows(s, SplitTypes(s, n, bytes), 0, 4 + 2 * bytes, HALF_BLOCK, AiTable)
  }

  function DecodeSplit16(s: seq<Byte>, dstCap: nat): (o: Option<seq<Byte>>)
    requires TypesReadable(s, 2)
    ensures o.Some? ==> 0 < |o.value| <= dstCap
  {
    var h := ParseHeader(s, dstCap, 2);
    if h.BadHeader? then None else
      var d := DecodeSplitRows(s, h.n, h.bytes);
      if d.NoRows? then None else ConcatLength(Join(d.rows)); Some(Concat(Join(d.rows)))
  }

  method DecompressSplit16(s: seq<Byte>, dst: array<Byte>, dstCap: nat) returns (r: nat)
    requires TypesReadable(s, 2) && dstCap <= dst.Length
    modifies dst
    ensures r > 0 <==> DecodeSplit16(s, dstCap).Some?
    ensures r > 0 ==>
              r == |DecodeSplit16(s, dstCap).value| && Written(old(dst[..]), dst[..], 0, DecodeSplit16(s, dstCap).value)
  {
    hide DecodeSplitRows, Concat, FromLE, Join;
    if |s| < 4 { return 0; }
    var n, headerBytes := Get16(s, 0), Get16(s, 2);
    if n == 0 || n > BLOCKS_PER_PAGE { return 0; }
    if 4 + headerBytes * 2 > |s| { return 0; }
    var expected := n * BLOCK_SIZE;
    if expected > dstCap { return 0; }
    r := ReadSplitRows(s, n, headerBytes, dst);
  }

  // The low and the high half of one block, decoded and interleaved into place.
  method ReadHalves(s: seq<Byte>, pos: nat, loType: nat, hiType: nat, dst: array<Byte>, off: nat)
    returns (ok: bool, next: nat)
    requires off + BLOCK_SIZE <= dst.Length
    modifies dst
    ensures var d := DecodeBlock(s, pos, loType, HALF_BLOCK, AiTable);
            && (d.Fail? ==> !ok)
            && (d.Decoded? ==>
                  var e := DecodeBlock(s, d.next, hiType, HALF_BLOCK, AiTable);
                  && (ok <==> e.Decoded?)
                  && (ok ==> next == e.next && Written(old(dst[..]), dst[..], off, Zip(d.bytes, e.bytes))))
  {
    hide DecodeBlock, Written, Zip;
    var lo, hi := new Byte[HALF_BLOCK](_ => 0), new Byte[HALF_BLOCK](_ => 0);
    ghost var lo0, hi0 := lo[..], hi[..];
    ghost var d := DecodeBlock(s, pos, loType, HALF_BLOCK, AiTable);
    ok, next := ReadBlock(s, pos, loType, HALF_BLOCK, AiTable, lo, 0);
    if !ok { return; }
    WrittenWhole(lo0, lo[..], d.bytes);
    ghost var e := DecodeBlock(s, d.next, hiType, HALF_BLOCK, AiTable);
    ok, next := ReadBlock(s, next, hiType, HALF_BLOCK, AiTable, hi, 0);
    if !ok { return; }
    WrittenWhole(hi0, hi[..], e.bytes);
    Interleave(lo, hi, dst, off);
  }

  method ReadSplitRows(s: seq<Byte>, n: nat, bytes: nat, dst: array<Byte>) returns (r: nat)
    requires 0 < n && 8 * (4 + bytes) + TYPE_BITS * n <= 8 * |s| && BLOCK_SIZE * n <= dst.Length
    modifies dst
    ensures r > 0 <==> DecodeSplitRows(s, n, bytes).Rows?
    ensures r > 0 ==>
              var rows := DecodeSplitRows(s, n, bytes).rows;
              r == |Concat(Join(rows))| && Written(old(dst[..]), dst[..], 0, Concat(Join(rows)))
  {
    hide DecodeBlock, DecodeRows, PrependRows, Extract, Concat, Join, Written, Zip, SplitTypes;
    ghost var types := SplitTypes(s, n, bytes);
    ghost var all := DecodeSplitRows(s, n, bytes);
    ghost var done: seq<seq<Byte>>, out: seq<seq<Byte>> := [], [];
    var pos: nat := 4 + 2 * bytes;
    PrependNothing(all);
    NoRowsYet();
    WrittenNothing(dst[..], 0);
    for b := 0 to n
      invariant |done| == 2 * b && forall row | row in done :: |row| == HALF_BLOCK
      invariant all == PrependRows(done, DecodeRows(s, types, 2 * b, pos, HALF_BLOCK, AiTable))
      invariant out == Join(done)
      invariant |Concat(out)| == BLOCK_SIZE * b && Written(old(dst[..]), dst[..], 0, Concat(out))
    {
      var loType := Extract(s, 4, TYPE_BITS * b, TYPE_BITS);
      var hiType := Extract(s, 4 + bytes, TYPE_BITS * b, TYPE_BITS);
      TypePair(s, n, bytes, b);
      ghost var was := dst[..];
      ghost var d := DecodeBlock(s, pos, loType, HALF_BLOCK, AiTable);
      DecodeRowsAdvance(s, types, 2 * b, pos, HALF_BLOCK, AiTable, done, all);
      if d.Decoded? { DecodeRowsAdvance(s, types, 2 * b + 1, d.next, HALF_BLOCK, AiTable, done + [d.bytes], all); }
      var ok, next := ReadHalves(s, pos, loType, hiType, dst, BLOCK_SIZE * b);
      if !ok { return 0; }
      ghost var e := DecodeBlock(s, d.next, hiType, HALF_BLOCK, AiTable);
      ghost var row := Zip(d.bytes, e.bytes);
      WrittenThen(old(dst[..]), was, dst[..], 0, Concat(out), row);
      ConcatOne(out, row);
      JoinTwo(done, d.bytes, e.bytes);
      done, out := done + [d.bytes] + [e.bytes], out + [row];
      pos := next;
    }
    DecodeRowsEnd(s, types, pos, HALF_BLOCK, AiTable, done, all);
    r := n * BLOCK_SIZE;
  }

  lemma NoRowsYet()
    ensures Concat([]) == [] && Join([]) == [] && Rebuild([]) == []
  {
    ConcatLength([]);
  }

  lemma TypePair(s: seq<Byte>, n: nat, bytes: nat, b: nat)
    requires 8 * (4 + bytes) + TYPE_BITS * n <= 8 * |s| && b < n
    ensures SplitTypes(s, n, bytes)[2 * b] == Extract(s, 4, TYPE_BITS * b, TYPE_BITS)
    ensures SplitTypes(s, n, bytes)[2 * b + 1] == Extract(s, 4 + bytes, TYPE_BITS * b, TYPE_BITS)
  {
    hide Extract;
    assert (2 * b) / 2 == b && (2 * b + 1) / 2 == b && (2 * b + 1) % 2 == 1;
  }

  method Interleave(lo: array<Byte>, hi: array<Byte>, dst: array<Byte>, off: nat)
    requires lo.Length == hi.Length == HALF_BLOCK && off + BLOCK_SIZE <= dst.Length && lo != dst && hi != dst
    modifies dst
    ensures Written(old(dst[..]), dst[..], off, Zip(lo[..], hi[..]))
  {
    ghost var row := Zip(lo[..], hi[..]);
    for i := 0 to HALF_BLOCK
      invariant forall j | 0 <= j < dst.Length :: dst[j] == if off <= j < off + 2 * i then row[j - off] else old(dst[j])
    {
      dst[off + i * 2] := lo[i];
      dst[off + i * 2 + 1] := hi[i];
    }
  }

  // Split-16 is lossless whatever the destination buffer held before: the stale
  // bytes left in the two type headers are stepped over, never read.
  lemma LosslessSplit16(src: seq<Byte>, gapLo: seq<Byte>, gapHi: seq<Byte>, dstCap: nat)
    requires 0 < |src| <= BLOCK_SIZE * BLOCKS_PER_PAGE && |src| % BLOCK_SIZE == 0
    requires |gapLo| == |gapHi| == GapBytes(|src| / BLOCK_SIZE)
    requires |src| <= dstCap
    ensures TypesReadable(StreamSplit16(src, gapLo, gapHi), 2)
    ensures DecodeSplit16(StreamSplit16(src, gapLo, gapHi), dstCap) == Some(src)
  {
    hide Pack, EncodeRows, ToLE, DecodeRows, SplitTypes, Get16, SplitRows, Concat, Join, Chunks, HoldsAt, SplitStream;
    hide TypesOf, HeaderBytes, TypeBytes, PackedLen;
    var rows, n := SplitRows(src), |src| / BLOCK_SIZE;
    var s := StreamSplit16(src, gapLo, gapHi);
    SplitParts(rows, gapLo, gapHi);
    RowsRoundTrip(s, rows, TypesOf(rows), 0, 4 + 2 * HeaderBytes(n), HALF_BLOCK, AiTable);
    assert rows[0..] == rows;
    JoinSplit(src);
    ConcatChunks(src);
  }

  // Where the parts of a split stream are found.
  lemma SplitParts(rows: seq<seq<Byte>>, gapLo: seq<Byte>, gapHi: seq<Byte>)
    requires AreBlocks(rows) && |rows| % 2 == 0 && 0 < |rows| <= 2 * BLOCKS_PER_PAGE
    requires |gapLo| == |gapHi| == GapBytes(|rows| / 2)
    ensures var s, n := SplitStream(rows, gapLo, gapHi), |rows| / 2;
            && Get16(s, 0) == n && Get16(s, 2) == HeaderBytes(n)
            && 8 * 4 + TYPE_BITS * n <= 8 * |s| && 8 * (4 + HeaderBytes(n)) + TYPE_BITS * n <= 8 * |s|
            && SplitTypes(s, n, HeaderBytes(n)) == TypesOf(rows)
            && HoldsAt(s, 4 + 2 * HeaderBytes(n), EncodeRows(rows, 0))
  {
    hide Pack, EncodeRows, ToLE, Get16, BlockType, SplitTypes, HalfTypes, TypesOf, HoldsAt;
    var s, n := SplitStream(rows, gapLo, gapHi), |rows| / 2;
    var bytes := HeaderBytes(n);
    var lo, hi := Pack(HalfTypes(rows, 0), TYPE_BITS), Pack(HalfTypes(rows, 1), TYPE_BITS);
    HoldsSelf(s);
    HoldsSplit(s, 0, SplitHeader(rows, gapLo, gapHi), EncodeRows(rows, 0));
    HoldsSplit(s, 0, SplitPrefix(n) + (lo + gapLo), hi + gapHi);
    HoldsSplit(s, 4 + bytes, hi, gapHi);
    HeaderRoundTrip(s, 4 + bytes, HalfTypes(rows, 1));
    HoldsSplit(s, 0, SplitPrefix(n), lo + gapLo);
    HoldsSplit(s, 4, lo, gapLo);
    HeaderRoundTrip(s, 4, HalfTypes(rows, 0));
    MergeTypes(s, rows, bytes);
    HoldsSplit(s, 0, ToLE(n, 2), ToLE(bytes, 2));
    Get16Put(s, 0, n);
    Get16Put(s, 2, bytes);
  }

  lemma MergeTypes(s: seq<Byte>, rows: seq<seq<Byte>>, bytes: nat)
    requires AreBlocks(rows) && |rows| % 2 == 0
    requires 8 * 4 + TYPE_BITS * (|rows| / 2) <= 8 * |s| && 8 * (4 + bytes) + TYPE_BITS * (|rows| / 2) <= 8 * |s|
    requires HeaderTypes(s, 4, |rows| / 2) == HalfTypes(rows, 0)
    requires HeaderTypes(s, 4 + bytes, |rows| / 2) == HalfTypes(rows, 1)
    ensures SplitTypes(s, |rows| / 2, bytes) == TypesOf(rows)
  {
    hide Extract, BlockType;
    var n := |rows| / 2;
    forall j | 0 <= j < 2 * n ensures SplitTypes(s, n, bytes)[j] == TypesOf(rows)[j] {
      var b := j / 2;
      assert j == 2 * b + j % 2;
      assert HeaderTypes(s, 4, n)[b] == HalfTypes(rows, 0)[b];
      assert HeaderTypes(s, 4 + bytes, n)[b] == HalfTypes(rows, 1)[b];
    }
  }

  // ================= Dispatch on the weight format =================

  const FMT_FP16 := 0
  const FMT_BF16 := 1
  const FMT_INT8 := 2

  predicate Compressible(src: seq<Byte>, dstCap: nat, fmt: nat) {
    if fmt == FMT_FP16 || fmt == FMT_BF16 then CompressibleSplit16(src, dstCap)
    else fmt == FMT_INT8 && CompressibleInt8(src, dstCap)
  }

  // The stream written for src into a buffer that held `was`.
  function StreamOf(src: seq<Byte>, was: seq<Byte>, fmt: nat): seq<Byte>
    requires |src| <= BLOCK_SIZE * BLOCKS_PER_PAGE && CompressBound(|src|) <= |was|
  {
    var n := |src| / BLOCK_SIZE;
    if fmt == FMT_INT8 then StreamInt8(src) else StreamSplit16(src, StaleLo(was, n), StaleHi(was, n))
  }

  predicate Readable(s: seq<Byte>, fmt: nat) {
    if fmt == FMT_INT8 then TypesReadable(s, 1) else TypesReadable(s, 2)
  }

  function Decode(s: seq<Byte>, dstCap: nat, fmt: nat): (o: Option<seq<Byte>>)
    requires Readable(s, fmt)
    ensures o.Some? ==> 0 < |o.value| <= dstCap
  {
    if fmt == FMT_FP16 || fmt == FMT_BF16 then DecodeSplit16(s, dstCap)
    else if fmt == FMT_INT8 then DecodeInt8(s, dstCap)
    else None
  }

  method Compress(src: seq<Byte>, dst: array<Byte>, dstCap: nat, fmt: nat) returns (r: nat)
    requires |src| <= BLOCK_SIZE * BLOCKS_PER_PAGE || |src| % BLOCK_SIZE != 0
    requires CompressBound(|src|) <= dst.Length
    modifies dst
    ensures r > 0 <==> Compressible(src, dstCap, fmt)
    ensures r > 0 ==> r < |src| && r <= dstCap && |src| <= BLOCK_SIZE * BLOCKS_PER_PAGE
    ensures r > 0 ==>
              var s := StreamOf(src, old(dst[..]), fmt); r == |s| && Written(old(dst[..]), dst[..], 0, s)
    ensures dst[CompressBound(|src|)..] == old(dst[CompressBound(|src|)..])
  {
    hide SizeSplit16, StreamSplit16, StreamInt8, Written;
    if |src| == 0 || |src| % BLOCK_SIZE != 0 { return 0; }
    if fmt == FMT_FP16 || fmt == FMT_BF16 {
      r := CompressSplit16(src, dst, dstCap);
    } else if fmt == FMT_INT8 {
      r := CompressInt8(src, dst, dstCap);
    } else {
      r := 0;
    }
  }

  method Decompress(s: seq<Byte>, dst: array<Byte>, dstCap: nat, fmt: nat) returns (r: nat)
    requires Readable(s, fmt) && dstCap <= dst.Length
    modifies dst
    ensures r > 0 <==> Decode(s, dstCap, fmt).Some?
    ensures r > 0 ==>
              r == |Decode(s, dstCap, fmt).value| && Written(old(dst[..]), dst[..], 0, Decode(s, dstCap, fmt).value)
  {
    hide DecodeSplit16, DecodeInt8, TypesReadable, Written;
    if fmt == FMT_FP16 || fmt == FMT_BF16 {
      r := DecompressSplit16(s, dst, dstCap);
    } else if fmt == FMT_INT8 {
      r := DecompressInt8(s, dst, dstCap);
    } else {
      r := 0;
    }
  }

  // All three formats: what a non-zero Compress wrote decodes to the source, for any
  // prior contents of the destination buffer.
  lemma Lossless(src: seq<Byte>, was: seq<Byte>, dstCap: nat, outCap: nat, fmt: nat)
    requires |src| <= BLOCK_SIZE * BLOCKS_PER_PAGE && CompressBound(|src|) <= |was|
    requires Compressible(src, dstCap, fmt) && |src| <= outCap
    ensures Readable(StreamOf(src, was, fmt), fmt)
    ensures Decode(StreamOf(src, was, fmt), outCap, fmt) == Some(src)
  {
    hide SizeSplit16, StreamSplit16, StreamInt8, DecodeSplit16, DecodeInt8, TypesReadable;
    var n := |src| / BLOCK_SIZE;
    if fmt == FMT_INT8 {
      LosslessInt8(src, outCap);
    } else {
      LosslessSplit16(src, StaleLo(was, n), StaleHi(was, n), outCap);
    }
  }

  // Compress into a buffer, then decompress exactly what was written.
  method RoundTrip(src: seq<Byte>, buf: array<Byte>, out: array<Byte>, fmt: nat) returns (r: nat, n: nat)
    requires |src| <= BLOCK_SIZE * BLOCKS_PER_PAGE
    requires CompressBound(|src|) <= buf.Length && |src| <= out.Length && buf != out
    modifies buf, out
    ensures r > 0 <==> Compressible(src, buf.Length, fmt)
    ensures r > 0 ==> n == |src| && out[..n] == src
  {
    hide StreamOf, Decode, Readable, Compressible;
    n := 0;
    ghost var was := buf[..];
    r := Compress(src, buf, buf.Length, fmt);
    if r > 0 {
      Lossless(src, was, buf.Length, out.Length, fmt);
      assert buf[..r] == StreamOf(src, was, fmt);
      n := Decompress(buf[..r], out, out.Length, fmt);
    }
  }
}
