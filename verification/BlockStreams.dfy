/**
  Streams of encoded rows.  The block classifier, the split-16 codec and the INT8
  codec all turn a buffer into a list of rows, write a header of 3-bit row types and
  then the encoded rows back to back; they differ only in what a row is.
*/
module BlockStreams {
  import opened Bits
  import opened Buffers
  import opened Packing
  import opened ByteBlocks

  const BLOCK_SIZE := 64
  const BLOCKS_PER_PAGE := 64
  const TYPE_BITS := 3

  predicate AreBlocks(rows: seq<seq<Byte>>) {
    forall r | r in rows :: IsBlock(r)
  }

  // ---- A buffer as rows of 64 bytes ----

  function Chunk(src: seq<Byte>, b: nat): (row: seq<Byte>)
    requires BLOCK_SIZE * b + BLOCK_SIZE <= |src|
    ensures |row| == BLOCK_SIZE
  {
    src[BLOCK_SIZE * b..BLOCK_SIZE * b + BLOCK_SIZE]
  }

  function Chunks(src: seq<Byte>): (rows: seq<seq<Byte>>)
    ensures |rows| == |src| / BLOCK_SIZE
    ensures forall r | r in rows :: |r| == BLOCK_SIZE
  {
    seq(|src| / BLOCK_SIZE, b requires 0 <= b < |src| / BLOCK_SIZE => Chunk(src, b))
  }

  function Concat(rows: seq<seq<Byte>>): seq<Byte> {
    if |rows| == 0 then [] else Concat(rows[..|rows| - 1]) + rows[|rows| - 1]
  }

  lemma ConcatOne(rows: seq<seq<Byte>>, row: seq<Byte>)
    ensures Concat(rows + [row]) == Concat(rows) + row
  {
    assert (rows + [row])[..|rows|] == rows;
  }

  lemma {:induction false} ConcatLength(rows: seq<seq<Byte>>)
    requires forall r | r in rows :: |r| == BLOCK_SIZE
    ensures |Concat(rows)| == BLOCK_SIZE * |rows|
  {
    if |rows| > 0 { ConcatLength(rows[..|rows| - 1]); }
  }

  lemma {:induction false} ConcatAt(rows: seq<seq<Byte>>, b: nat, i: nat)
    requires (forall r | r in rows :: |r| == BLOCK_SIZE) && b < |rows| && i < BLOCK_SIZE
    ensures |Concat(rows)| == 64 * |rows| && Concat(rows)[64 * b + i] == rows[b][i]
  {
    ConcatLength(rows);
    var k := |rows| - 1;
    ConcatLength(rows[..k]);
    if b < k { ConcatAt(rows[..k], b, i); }
  }

  lemma {:induction false} ConcatChunksPrefix(src: seq<Byte>, k: nat)
    requires k <= |src| / BLOCK_SIZE
    ensures Concat(Chunks(src)[..k]) == src[..BLOCK_SIZE * k]
  {
    hide Concat;
    if k == 0 {
      ConcatLength([]);
    } else {
      var rows := Chunks(src);
      ConcatChunksPrefix(src, k - 1);
      assert rows[..k] == rows[..k - 1] + [Chunk(src, k - 1)];
      ConcatOne(rows[..k - 1], Chunk(src, k - 1));
      assert src[..BLOCK_SIZE * k] == src[..BLOCK_SIZE * (k - 1)] + Chunk(src, k - 1);
    }
  }

  lemma ConcatChunks(src: seq<Byte>)
    requires |src| % BLOCK_SIZE == 0
    ensures Concat(Chunks(src)) == src
  {
    ConcatChunksPrefix(src, |src| / BLOCK_SIZE);
    assert Chunks(src)[..|src| / BLOCK_SIZE] == Chunks(src);
    assert src[..|src|] == src;
  }

  // ---- Encoding rows ----

  function TypesOf(rows: seq<seq<Byte>>): (ts: seq<Byte>)
    requires AreBlocks(rows)
    ensures |ts| == |rows| && forall t | t in ts :: t < 8
  {
    seq(|rows|, b requires 0 <= b < |rows| => assert rows[b] in rows; BlockType(rows[b]))
  }

  function EncodeRows(rows: seq<seq<Byte>>, b: nat): seq<Byte>
    requires AreBlocks(rows) && b <= |rows|
    decreases |rows| - b
  {
    if b == |rows| then [] else EncodeBlock(rows[b]) + EncodeRows(rows, b + 1)
  }

  // What one classification call reports.
  datatype Info = Info(ty: Byte, uniform: Byte, rmin: Byte, range: Byte)

  predicate Describes(info: Info, row: seq<Byte>)
    requires IsBlock(row)
  {
    && info.ty == BlockType(row)
    && (info.ty == UNIFORM ==> info.uniform == row[0])
    && (info.ty == SMALL_RANGE ==> info.rmin == MinOf(row) && info.range == RangeOf(row))
  }

  predicate DescribesAll(infos: seq<Info>, rows: seq<seq<Byte>>)
    requires AreBlocks(rows)
  {
    |infos| == |rows| && forall b | 0 <= b < |rows| :: Describes(infos[b], rows[b])
  }

  // First pass: classify every row.
  method ClassifyRows(rows: seq<seq<Byte>>, table: Table) returns (infos: seq<Info>)
    requires AreBlocks(rows)
    ensures DescribesAll(infos, rows)
  {
    infos := [];
    for b := 0 to |rows|
      invariant |infos| == b && forall k | 0 <= k < b :: Describes(infos[k], rows[k])
    {
      assert rows[b] in rows;
      var ty, uniform, rmin, range := Classify(rows[b], table);
      infos := infos + [Info(ty, uniform, rmin, range)];
    }
  }

  // Second pass: write every row at the output cursor.
  method WriteRows(rows: seq<seq<Byte>>, infos: seq<Info>, table: Table, dst: array<Byte>, off: nat)
    returns (next: nat)
    requires AreBlocks(rows) && DescribesAll(infos, rows)
    requires off + |EncodeRows(rows, 0)| <= dst.Length
    modifies dst
    ensures next == off + |EncodeRows(rows, 0)|
    ensures Written(old(dst[..]), dst[..], off, EncodeRows(rows, 0))
  {
    hide EncodeBlock, BlockType;
    next := off;
    ghost var done: seq<Byte> := [];
    for b := 0 to |rows|
      invariant next == off + |done| && done + EncodeRows(rows, b) == EncodeRows(rows, 0)
      invariant Written(old(dst[..]), dst[..], off, done)
    {
      ghost var was, e := dst[..], EncodeBlock(rows[b]);
      AppendSeq(done, e, EncodeRows(rows, b + 1));
      next := WriteBlock(rows[b], infos[b].ty, infos[b].uniform, infos[b].rmin, infos[b].range, table, dst, next);
      WrittenThen(old(dst[..]), was, dst[..], off, done, e);
      done := done + e;
    }
    assert done + [] == done;
  }

  lemma AppendSeq(a: seq<Byte>, b: seq<Byte>, c: seq<Byte>)
    ensures a + (b + c) == (a + b) + c
  {
  }

  function TotalSize(rows: seq<seq<Byte>>, b: nat): nat
    requires b <= |rows|
    decreases |rows| - b
  {
    if b == |rows| then 0 else |rows[b]| + TotalSize(rows, b + 1)
  }

  // In-flight writes: the encoded rows never need more room than the rows themselves.
  lemma {:induction false} EncodeRowsSize(rows: seq<seq<Byte>>, b: nat)
    requires AreBlocks(rows) && b <= |rows|
    ensures |EncodeRows(rows, b)| <= TotalSize(rows, b)
    decreases |rows| - b
  {
    hide EncodeBlock;
    if b < |rows| {
      EncodeBlockSize(rows[b]);
      EncodeRowsSize(rows, b + 1);
    }
  }

  lemma {:induction false} TotalSizeUniform(rows: seq<seq<Byte>>, b: nat, n: nat)
    requires b <= |rows| && forall r | r in rows :: |r| == n
    ensures TotalSize(rows, b) == n * (|rows| - b)
    decreases |rows| - b
  {
    if b < |rows| {
      TotalSizeUniform(rows, b + 1, n);
      assert n * (|rows| - b) == n * (|rows| - (b + 1)) + n;
    }
  }

  // ---- Decoding rows ----

  datatype DecodedRows = NoRows | Rows(rows: seq<seq<Byte>>, next: nat)

  function PrependRow(row: seq<Byte>, d: DecodedRows): DecodedRows {
    if d.NoRows? then NoRows else Rows([row] + d.rows, d.next)
  }

  ghost function PrependRows(done: seq<seq<Byte>>, d: DecodedRows): DecodedRows {
    if d.NoRows? then NoRows else Rows(done + d.rows, d.next)
  }

  lemma PrependNothing(d: DecodedRows)
    ensures PrependRows([], d) == d
  {
    if d.Rows? { assert [] + d.rows == d.rows; }
  }

  // Rows b.. of the stream, whose types are ts, the input cursor standing at pos.
  function DecodeRows(s: seq<Byte>, ts: seq<nat>, b: nat, pos: nat, n: nat, table: Table): (d: DecodedRows)
    requires b <= |ts| && n % 8 == 0
    ensures d.Rows? ==> |d.rows| == |ts| - b && forall r | r in d.rows :: |r| == n
    decreases |ts| - b
  {
    if b == |ts| then Rows([], pos)
    else
      var d := DecodeBlock(s, pos, ts[b], n, table);
      if d.Fail? then NoRows else PrependRow(d.bytes, DecodeRows(s, ts, b + 1, d.next, n, table))
  }

  // The decoding loops: with the rows `done` behind it, reading row b either fails
  // the whole stream or moves one row from the rest to `done`.
  lemma DecodeRowsAdvance(s: seq<Byte>, ts: seq<nat>, b: nat, pos: nat, n: nat, table: Table,
                          done: seq<seq<Byte>>, all: DecodedRows)
    requires b < |ts| && n % 8 == 0
    requires all == PrependRows(done, DecodeRows(s, ts, b, pos, n, table))
    ensures DecodeBlock(s, pos, ts[b], n, table).Fail? ==> all.NoRows?
    ensures DecodeBlock(s, pos, ts[b], n, table).Decoded? ==>
              var d := DecodeBlock(s, pos, ts[b], n, table);
              all == PrependRows(done + [d.bytes], DecodeRows(s, ts, b + 1, d.next, n, table))
  {
    hide DecodeBlock;
    var d := DecodeBlock(s, pos, ts[b], n, table);
    if d.Decoded? {
      var rest := DecodeRows(s, ts, b + 1, d.next, n, table);
      if rest.Rows? { assert done + ([d.bytes] + rest.rows) == done + [d.bytes] + rest.rows; }
    }
  }

  lemma DecodeRowsEnd(s: seq<Byte>, ts: seq<nat>, pos: nat, n: nat, table: Table, done: seq<seq<Byte>>,
            all: DecodedRows)
    requires n % 8 == 0 && all == PrependRows(done, DecodeRows(s, ts, |ts|, pos, n, table))
    ensures all == Rows(done, pos)
  {
    assert done + [] == done;
  }

  // The decoder's input cursor at every row is the encoder's output cursor, so
  // rows of different encoded lengths all come back.
  lemma {:induction false} RowsRoundTrip(s: seq<Byte>, rows: seq<seq<Byte>>, ts: seq<nat>, b: nat, pos: nat, n: nat,
            table: Table)
    requires AreBlocks(rows) && b <= |rows| && (n == 32 || n == 64)
    requires forall r | r in rows :: |r| == n
    requires ts == TypesOf(rows)
    requires HoldsAt(s, pos, EncodeRows(rows, b))
    ensures DecodeRows(s, ts, b, pos, n, table) == Rows(rows[b..], pos + |EncodeRows(rows, b)|)
    decreases |rows| - b
  {
    hide EncodeBlock, DecodeBlock, BlockType, HoldsAt, DecodeRows;
    if b == |rows| {
      DecodeNoRows(s, ts, pos, n, table);
    } else {
      var row := rows[b];
      var e := EncodeBlock(row);
      HoldsSplit(s, pos, e, EncodeRows(rows, b + 1));
      BlockRoundTrip(s, pos, row, table);
      RowsRoundTrip(s, rows, ts, b + 1, pos + |e|, n, table);
      DecodeOneRow(s, ts, b, pos, n, table, row, pos + |e|);
      assert rows[b..] == [row] + rows[b + 1..];
    }
  }

  lemma DecodeNoRows(s: seq<Byte>, ts: seq<nat>, pos: nat, n: nat, table: Table)
    requires n % 8 == 0
    ensures DecodeRows(s, ts, |ts|, pos, n, table) == Rows([], pos)
  {
  }

  lemma DecodeOneRow(s: seq<Byte>, ts: seq<nat>, b: nat, pos: nat, n: nat, table: Table, row: seq<Byte>, next: nat)
    requires b < |ts| && n % 8 == 0
    requires DecodeBlock(s, pos, ts[b], n, table) == Decoded(row, next)
    ensures DecodeRows(s, ts, b, pos, n, table) == PrependRow(row, DecodeRows(s, ts, b + 1, next, n, table))
  {
  }

  // ---- The type header ----

  function HeaderTypes(s: seq<Byte>, base: nat, n: nat): (ts: seq<nat>)
    requires 8 * base + TYPE_BITS * n <= 8 * |s|
    ensures |ts| == n
  {
    seq(n, b requires 0 <= b < n => Extract(s, base, TYPE_BITS * b, TYPE_BITS))
  }

  lemma HeaderRoundTrip(s: seq<Byte>, base: nat, ts: seq<Byte>)
    requires forall t | t in ts :: t < 8
    requires HoldsAt(s, base, Pack(ts, TYPE_BITS))
    ensures 8 * base + TYPE_BITS * |ts| <= 8 * |s|
    ensures HeaderTypes(s, base, |ts|) == ts
  {
    hide Pack, Extract, FieldAt;
    BytePow();
    assert |Pack(ts, TYPE_BITS)| == (3 * |ts| + 7) / 8;
    forall b | 0 <= b < |ts| ensures Extract(s, base, TYPE_BITS * b, TYPE_BITS) == ts[b] {
      assert ts[b] in ts;
      ExtractIsField(s, base, TYPE_BITS * b, TYPE_BITS);
      PackRoundTrip(s, base, ts, TYPE_BITS, b);
    }
  }

  // ---- 16-bit header words ----

  method Put16(v: nat, dst: array<Byte>, off: nat)
    requires v < 0x10000 && off + 2 <= dst.Length
    modifies dst
    ensures Written(old(dst[..]), dst[..], off, ToLE(v, 2))
  {
    Copy(ToLE(v, 2), dst, off);
  }

  function Get16(s: seq<Byte>, off: nat): nat
    requires off + 2 <= |s|
  {
    FromLE(s[off..off + 2])
  }

  lemma Get16Put(s: seq<Byte>, off: nat, v: nat)
    requires v < 0x10000 && HoldsAt(s, off, ToLE(v, 2))
    ensures off + 2 <= |s| && Get16(s, off) == v
  {
    assert Pow2(16) == 0x10000 by { BytePow(); PowByte(1); }
    FromToLE(v, 2);
  }

  // ---- One header, one list of rows (block classifier and INT8) ----

  function RowStream(rows: seq<seq<Byte>>): seq<Byte>
    requires AreBlocks(rows)
  {
    ToLE(|rows|, 2) + (ToLE(PackedLen(|rows|, TYPE_BITS), 2) + (Pack(TypesOf(rows), TYPE_BITS) + EncodeRows(rows, 0)))
  }

  lemma RowStreamSize(rows: seq<seq<Byte>>)
    requires |rows| <= BLOCKS_PER_PAGE && forall r | r in rows :: |r| == BLOCK_SIZE
    ensures AreBlocks(rows)
    ensures |RowStream(rows)| <= BLOCK_SIZE * |rows| + 28
  {
    EncodeRowsSize(rows, 0);
    TotalSizeUniform(rows, 0, BLOCK_SIZE);
  }

  // Header, packed types and rows, written at the start of dst.
  method WriteStream(rows: seq<seq<Byte>>, table: Table, dst: array<Byte>) returns (next: nat)
    requires AreBlocks(rows) && |rows| <= BLOCKS_PER_PAGE
    requires |RowStream(rows)| <= dst.Length
    modifies dst
    ensures next == |RowStream(rows)|
    ensures Written(old(dst[..]), dst[..], 0, RowStream(rows))
  {
    hide Pack, EncodeRows, ToLE;
    BytePow();
    var infos := ClassifyRows(rows, table);
    var n, headerBytes := |rows|, (|rows| * TYPE_BITS + 7) / 8;
    ghost var types, body := Pack(TypesOf(rows), TYPE_BITS), EncodeRows(rows, 0);
    ghost var s0 := dst[..];
    Put16(n, dst, 0);
    ghost var s1 := dst[..];
    Put16(headerBytes, dst, 2);
    ghost var s2 := dst[..];
    PackFields(seq(n, b requires 0 <= b < n => infos[b].ty), TYPE_BITS, dst, 4);
    assert seq(n, b requires 0 <= b < n => infos[b].ty) == TypesOf(rows);
    ghost var s3 := dst[..];
    next := WriteRows(rows, infos, table, dst, 4 + headerBytes);
    WrittenThen(s2, s3, dst[..], 4, types, body);
    WrittenThen(s1, s2, dst[..], 2, ToLE(headerBytes, 2), types + body);
    WrittenThen(s0, s1, dst[..], 0, ToLE(n, 2), ToLE(headerBytes, 2) + (types + body));
  }

  // The header checks of the decoders: row count and the size of each of the
  // `headers` type headers (one, or two for split-16).
  datatype Header = BadHeader | Header(n: nat, bytes: nat)

  function ParseHeader(s: seq<Byte>, dstCap: nat, headers: nat): (h: Header)
    ensures h.Header? ==> 0 < h.n <= BLOCKS_PER_PAGE && BLOCK_SIZE * h.n <= dstCap && 4 + h.bytes * headers <= |s|
  {
    if |s| < 4 then BadHeader else
      var n, bytes := Get16(s, 0), Get16(s, 2);
      if n == 0 || n > BLOCKS_PER_PAGE then BadHeader
      else if 4 + bytes * headers > |s| then BadHeader
      else if n * BLOCK_SIZE > dstCap then BadHeader
      else Header(n, bytes)
  }

  // The decoders read type fields without a bounds check of their own: they rely on
  // the header being as long as the encoder makes it.
  predicate TypesReadable(s: seq<Byte>, headers: nat)
    requires headers > 0
  {
    (|s| >= 4 && Get16(s, 0) <= BLOCKS_PER_PAGE) ==>
      8 * (4 + Get16(s, 2) * (headers - 1)) + TYPE_BITS * Get16(s, 0) <= 8 * |s|
  }

  function DecodeStream(s: seq<Byte>, dstCap: nat, table: Table): (d: DecodedRows)
    requires TypesReadable(s, 1)
    ensures d.Rows? ==> 0 < |d.rows| <= BLOCKS_PER_PAGE && BLOCK_SIZE * |d.rows| <= dstCap
    ensures d.Rows? ==> forall r | r in d.rows :: |r| == BLOCK_SIZE
  {
    var h := ParseHeader(s, dstCap, 1);
    if h.BadHeader? then NoRows
    else DecodeRows(s, HeaderTypes(s, 4, h.n), 0, 4 + h.bytes, BLOCK_SIZE, table)
  }

  lemma StreamRoundTrip(rows: seq<seq<Byte>>, dstCap: nat, table: Table)
    requires 0 < |rows| <= BLOCKS_PER_PAGE && BLOCK_SIZE * |rows| <= dstCap
    requires forall r | r in rows :: |r| == BLOCK_SIZE
    ensures AreBlocks(rows) && TypesReadable(RowStream(rows), 1)
    ensures DecodeStream(RowStream(rows), dstCap, table) == Rows(rows, |RowStream(rows)|)
  {
    hide Pack, EncodeRows, ToLE, DecodeRows, HeaderTypes, Get16;
    var s, n, bytes := RowStream(rows), |rows|, PackedLen(|rows|, TYPE_BITS);
    var types, body := Pack(TypesOf(rows), TYPE_BITS), EncodeRows(rows, 0);
    HoldsSelf(s);
    HoldsSplit(s, 0, ToLE(n, 2), ToLE(bytes, 2) + (types + body));
    HoldsSplit(s, 2, ToLE(bytes, 2), types + body);
    HoldsSplit(s, 4, types, body);
    Get16Put(s, 0, n);
    Get16Put(s, 2, bytes);
    HeaderRoundTrip(s, 4, TypesOf(rows));
    RowsRoundTrip(s, rows, TypesOf(rows), 0, 4 + bytes, BLOCK_SIZE, table);
    assert rows[0..] == rows;
  }
}
