/**
  The block-classifier codec: 64-byte blocks, each encoded by its own type.
*/
module BlockClass {
  import opened Bits
  import opened Buffers
  import opened Packing
  import opened ByteBlocks
  import opened BlockStreams

  function Stream(src: seq<Byte>): seq<Byte> {
    RowStream(Chunks(src))
  }

  predicate Compressible(src: seq<Byte>, dstCap: nat) {
    && |src| > 0
    && |src| % BLOCK_SIZE == 0
    && |Stream(src)| < |src|
    && |Stream(src)| <= dstCap
  }

  function CompressBound(n: nat): nat {
    n + 256
  }

  // The capacity is tested only after everything is written, so the buffer must be
  // as large as the compress bound; every write in flight then stays inside it.
  method Compress(src: seq<Byte>, dst: array<Byte>, dstCap: nat) returns (r: nat)
    requires |src| <= BLOCK_SIZE * BLOCKS_PER_PAGE
    requires CompressBound(|src|) <= dst.Length
    modifies dst
    ensures r > 0 <==> Compressible(src, dstCap)
    ensures r > 0 ==> r == |Stream(src)| && Written(old(dst[..]), dst[..], 0, Stream(src))
    ensures dst[CompressBound(|src|)..] == old(dst[CompressBound(|src|)..])
  {
    hide Stream, RowStream, Chunks, Written;
    if |src| == 0 || |src| % BLOCK_SIZE != 0 { return 0; }
    var rows := Chunks(src);
    StreamSize(src);
    ghost var was := dst[..];
    var result := WriteStream(rows, BlockClassTable, dst);
    WrittenBelow(was, dst[..], RowStream(rows), CompressBound(|src|));
    assert dst[CompressBound(|src|)..] == dst[..][CompressBound(|src|)..];
    if result >= |src| || result > dstCap { return 0; }
    return result;
  }

  lemma StreamSize(src: seq<Byte>)
    requires |src| <= BLOCK_SIZE * BLOCKS_PER_PAGE && |src| % BLOCK_SIZE == 0
    ensures AreBlocks(Chunks(src)) && |Chunks(src)| <= BLOCKS_PER_PAGE
    ensures Stream(src) == RowStream(Chunks(src)) && 0 < |Stream(src)| <= CompressBound(|src|)
  {
    RowStreamSize(Chunks(src));
  }

  function Decode(s: seq<Byte>, dstCap: nat): (o: Option<seq<Byte>>)
    requires TypesReadable(s, 1)
    ensures o.Some? ==> 0 < |o.value| <= dstCap
  {
    var d := DecodeStream(s, dstCap, BlockClassTable);
    if d.NoRows? then None else ConcatLength(d.rows); Some(Concat(d.rows))
  }

  method Decompress(s: seq<Byte>, dst: array<Byte>, dstCap: nat) returns (r: nat)
    requires TypesReadable(s, 1) && dstCap <= dst.Length
    modifies dst
    ensures r > 0 <==> Decode(s, dstCap).Some?
    ensures r > 0 ==> r == |Decode(s, dstCap).value| && Written(old(dst[..]), dst[..], 0, Decode(s, dstCap).value)
  {
    hide DecodeRows, Concat, FromLE;
    if |s| < 4 { return 0; }
    var n, headerBytes := Get16(s, 0), Get16(s, 2);
    if n == 0 || n > BLOCKS_PER_PAGE { return 0; }
    if 4 + headerBytes > |s| { return 0; }
    var expected := n * BLOCK_SIZE;
    if expected > dstCap { return 0; }
    r := ReadRows(s, n, 4 + headerBytes, dst);
  }

  method ReadRows(s: seq<Byte>, n: nat, start: nat, dst: array<Byte>) returns (r: nat)
    requires 0 < n && 8 * 4 + TYPE_BITS * n <= 8 * |s| && BLOCK_SIZE * n <= dst.Length
    modifies dst
    ensures r > 0 <==> DecodeRows(s, HeaderTypes(s, 4, n), 0, start, BLOCK_SIZE, BlockClassTable).Rows?
    ensures r > 0 ==>
              var rows := DecodeRows(s, HeaderTypes(s, 4, n), 0, start, BLOCK_SIZE, BlockClassTable).rows;
              r == |Concat(rows)| && Written(old(dst[..]), dst[..], 0, Concat(rows))
  {
    hide DecodeBlock, DecodeRows, PrependRows, Extract, Concat, Written;
    ghost var types := HeaderTypes(s, 4, n);
    ghost var all := DecodeRows(s, types, 0, start, BLOCK_SIZE, BlockClassTable);
    ghost var done: seq<seq<Byte>> := [];
    var pos := start;
    PrependNothing(all);
    assert Concat([]) == [] by { ConcatLength([]); }
    WrittenNothing(dst[..], 0);
    for b := 0 to n
      invariant |done| == b && forall row | row in done :: |row| == BLOCK_SIZE
      invariant all == PrependRows(done, DecodeRows(s, types, b, pos, BLOCK_SIZE, BlockClassTable))
      invariant |Concat(done)| == BLOCK_SIZE * b && Written(old(dst[..]), dst[..], 0, Concat(done))
    {
      var ty := Extract(s, 4, TYPE_BITS * b, TYPE_BITS);
      ghost var d, was := DecodeBlock(s, pos, ty, BLOCK_SIZE, BlockClassTable), dst[..];
      var ok, next := ReadBlock(s, pos, ty, BLOCK_SIZE, BlockClassTable, dst, BLOCK_SIZE * b);
      DecodeRowsAdvance(s, types, b, pos, BLOCK_SIZE, BlockClassTable, done, all);
      if !ok { return 0; }
      WrittenThen(old(dst[..]), was, dst[..], 0, Concat(done), d.bytes);
      ConcatOne(done, d.bytes);
      done := done + [d.bytes];
      pos := next;
    }
    DecodeRowsEnd(s, types, pos, BLOCK_SIZE, BlockClassTable, done, all);
    r := n * BLOCK_SIZE;
  }

  // Every stream the encoder produces decodes to the original bytes.
  lemma Lossless(src: seq<Byte>, dstCap: nat)
    requires 0 < |src| <= BLOCK_SIZE * BLOCKS_PER_PAGE && |src| % BLOCK_SIZE == 0
    requires |src| <= dstCap
    ensures TypesReadable(Stream(src), 1)
    ensures Decode(Stream(src), dstCap) == Some(src)
  {
    StreamRoundTrip(Chunks(src), dstCap, BlockClassTable);
    ConcatChunks(src);
  }

  // Compress into any buffer, then decompress what was written.
  method RoundTrip(src: seq<Byte>, buf: array<Byte>, out: array<Byte>) returns (r: nat, n: nat)
    requires |src| <= BLOCK_SIZE * BLOCKS_PER_PAGE
    requires CompressBound(|src|) <= buf.Length && |src| <= out.Length && buf != out
    modifies buf, out
    ensures r > 0 <==> Compressible(src, buf.Length)
    ensures r > 0 ==> n == |src| && out[..n] == src
  {
    hide Stream, Decode;
    n := 0;
    r := Compress(src, buf, buf.Length);
    if r > 0 {
      Lossless(src, out.Length);
      assert buf[..r] == Stream(src);
      n := Decompress(buf[..r], out, out.Length);
    }
  }
}
