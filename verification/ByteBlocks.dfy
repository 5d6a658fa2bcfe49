/**
  The block encoding shared by the block classifier and the AI-weight codecs: a
  64-byte (or, after byte splitting, 32-byte) block is classified as zero, sparse,
  uniform, small-range or dense and written in the form chosen for its type.
*/
module ByteBlocks {
  import opened Bits
  import opened Packing
  import opened Buffers

  const ZERO: Byte := 0
  const SPARSE: Byte := 1
  const UNIFORM: Byte := 2
  const SMALL_RANGE: Byte := 3
  const DENSE: Byte := 4

  const SPARSE_THRESHOLD := 16
  const RANGE_MAX_BITS := 6

  // bits_for_range (block classifier)
  function BitsForRange(range: Byte): nat {
    if range == 0 then 0
    else if range <= 1 then 1
    else if range <= 3 then 2
    else if range <= 7 then 3
    else if range <= 15 then 4
    else if range <= 31 then 5
    else if range <= 63 then 6
    else if range <= 127 then 7
    else 8
  }

  // bits_needed (AI-weight codecs): the same table without the 7-bit row
  function BitsNeeded(range: Byte): nat {
    if range == 0 then 0
    else if range <= 1 then 1
    else if range <= 3 then 2
    else if range <= 7 then 3
    else if range <= 15 then 4
    else if range <= 31 then 5
    else if range <= 63 then 6
    else 8
  }

  // Which of the two tables a codec uses.
  datatype Table = BlockClassTable | AiTable

  function Width(t: Table, range: Byte): nat {
    match t
    case BlockClassTable => BitsForRange(range)
    case AiTable => BitsNeeded(range)
  }

  predicate IsBlock(block: seq<Byte>) {
    |block| == 32 || |block| == 64
  }

  // ---- What the classifier measures ----

  function NonZeroCount(s: seq<nat>): (n: nat)
    ensures n <= |s|
  {
    if |s| == 0 then 0 else NonZeroCount(s[..|s| - 1]) + BitValue(s[|s| - 1] != 0)
  }

  function MinOf(s: seq<Byte>): (m: Byte)
    ensures forall v | v in s :: m <= v
  {
    if |s| == 0 then 255 else
      var m := MinOf(s[..|s| - 1]);
      assert s == s[..|s| - 1] + [s[|s| - 1]];
      if s[|s| - 1] < m then s[|s| - 1] else m
  }

  function MaxOf(s: seq<Byte>): (m: Byte)
    ensures forall v | v in s :: v <= m
  {
    if |s| == 0 then 0 else
      var m := MaxOf(s[..|s| - 1]);
      assert s == s[..|s| - 1] + [s[|s| - 1]];
      if s[|s| - 1] > m then s[|s| - 1] else m
  }

  function RangeOf(block: seq<Byte>): Byte
    requires |block| > 0
  {
    assert block[0] in block;
    MaxOf(block) - MinOf(block)
  }

  function BlockType(block: seq<Byte>): (t: Byte)
    requires |block| > 0
    ensures t < 8
  {
    if forall i | 0 <= i < |block| :: block[i] == 0 then ZERO
    else if forall i | 0 <= i < |block| :: block[i] == block[0] then UNIFORM
    else if NonZeroCount(block) <= SPARSE_THRESHOLD && NonZeroCount(block) < |block| then SPARSE
    else if 0 < BitsNeeded(RangeOf(block)) <= RANGE_MAX_BITS then SMALL_RANGE
    else DENSE
  }

  // classify_block_impl and classify_byte_block
  method Classify(block: seq<Byte>, table: Table) returns (ty: Byte, uniform: Byte, rmin: Byte, range: Byte)
    requires |block| > 0
    ensures ty == BlockType(block)
    ensures ty == UNIFORM ==> uniform == block[0]
    ensures ty == SMALL_RANGE ==> rmin == MinOf(block) && range == RangeOf(block)
  {
    var first := block[0];
    var allZero, allSame := true, true;
    var minV: Byte, maxV: Byte := 0xFF, 0x00;
    var nz := 0;
    uniform, rmin, range := 0, 0, 0;
    for i := 0 to |block|
      invariant allZero == (forall k | 0 <= k < i :: block[k] == 0)
      invariant allSame == (forall k | 0 <= k < i :: block[k] == first)
      invariant minV == MinOf(block[..i]) && maxV == MaxOf(block[..i]) && nz == NonZeroCount(block[..i])
    {
      var v := block[i];
      assert block[..i + 1][..i] == block[..i];
      if v != 0 { allZero := false; nz := nz + 1; }
      if v != first { allSame := false; }
      if v < minV { minV := v; }
      if v > maxV { maxV := v; }
    }
    assert block[..|block|] == block;
    if allZero { return ZERO, uniform, rmin, range; }
    if allSame { return UNIFORM, first, rmin, range; }
    if nz <= SPARSE_THRESHOLD && nz < |block| { return SPARSE, uniform, rmin, range; }
    assert block[0] in block;
    var r: Byte := maxV - minV;
    var bpv := Width(table, r);
    if bpv > 0 && bpv <= RANGE_MAX_BITS { return SMALL_RANGE, uniform, minV, r; }
    return DENSE, uniform, rmin, range;
  }

  // ---- Encoding ----

  function Flags(block: seq<Byte>): (fs: seq<Byte>)
    ensures |fs| == |block|
  {
    seq(|block|, i requires 0 <= i < |block| => BitValue(block[i] != 0))
  }

  // The non-zero bytes from position i on, in order.
  function NonZeros(block: seq<Byte>, i: nat): (s: seq<Byte>)
    requires i <= |block|
    decreases |block| - i
  {
    if i == |block| then []
    else if block[i] != 0 then [block[i]] + NonZeros(block, i + 1)
    else NonZeros(block, i + 1)
  }

  function DeltaAt(block: seq<Byte>, i: nat): (d: Byte)
    requires i < |block|
    ensures d <= RangeOf(block)
  {
    assert block[i] in block;
    block[i] - MinOf(block)
  }

  function Deltas(block: seq<Byte>): (ds: seq<Byte>)
    ensures |ds| == |block|
  {
    seq(|block|, i requires 0 <= i < |block| => DeltaAt(block, i))
  }

  function EncodeBlock(block: seq<Byte>): seq<Byte>
    requires IsBlock(block)
  {
    var ty := BlockType(block);
    if ty == ZERO then []
    else if ty == UNIFORM then [block[0]]
    else if ty == SPARSE then SparseBytes(block)
    else if ty == SMALL_RANGE then RangeBytes(block, BitsNeeded(RangeOf(block)))
    else block
  }

  lemma {:induction false} NonZerosLength(block: seq<Byte>, i: nat)
    requires i <= |block|
    ensures |NonZeros(block, i)| + NonZeroCount(block[..i]) == NonZeroCount(block)
    decreases |block| - i
  {
    if i == |block| {
      assert block[..i] == block;
    } else {
      assert block[..i + 1][..i] == block[..i];
      NonZerosLength(block, i + 1);
    }
  }

  lemma BlockBits(block: seq<Byte>, w: nat)
    requires IsBlock(block) && w <= 8
    ensures PackedLen(|block|, w) == |block| / 8 * w
  {
    if |block| == 32 {
      assert (32 * w + 7) / 8 == 4 * w;
    } else {
      assert (64 * w + 7) / 8 == 8 * w;
    }
  }

  // No block grows: the worst case of every type still fits in the block's own size.
  lemma EncodeBlockSize(block: seq<Byte>)
    requires IsBlock(block)
    ensures |EncodeBlock(block)| <= |block|
    ensures BlockType(block) == SPARSE ==> |EncodeBlock(block)| <= |block| / 8 + 16
    ensures BlockType(block) == SMALL_RANGE ==> |EncodeBlock(block)| <= 2 + |block| / 8 * 6
  {
    NonZerosLength(block, 0);
    BlockBits(block, 1);
    var w := BitsNeeded(RangeOf(block));
    BlockBits(block, w);
    if w <= 6 { MulMono(w, 6, |block| / 8); }
  }

  function SparseBytes(block: seq<Byte>): seq<Byte> {
    Pack(Flags(block), 1) + NonZeros(block, 0)
  }

  function RangeBytes(block: seq<Byte>, w: nat): seq<Byte>
    requires |block| > 0 && w > 0
  {
    [MinOf(block), RangeOf(block)] + Pack(Deltas(block), w)
  }

  // encode_byte_block, and the per-block switch of the block classifier
  method WriteBlock(block: seq<Byte>, ty: Byte, uniform: Byte, rmin: Byte, range: Byte, table: Table,
                    dst: array<Byte>, off: nat) returns (next: nat)
    requires IsBlock(block) && off + |EncodeBlock(block)| <= dst.Length
    requires ty == BlockType(block)
    requires ty == UNIFORM ==> uniform == block[0]
    requires ty == SMALL_RANGE ==> rmin == MinOf(block) && range == RangeOf(block)
    modifies dst
    ensures next == off + |EncodeBlock(block)|
    ensures Written(old(dst[..]), dst[..], off, EncodeBlock(block))
  {
    next := off;
    if ty == UNIFORM {
      dst[next] := uniform;
      next := next + 1;
    } else if ty == SPARSE {
      next := WriteSparse(block, dst, off);
    } else if ty == SMALL_RANGE {
      EncodeBlockSize(block);
      next := WriteRange(block, rmin, range, Width(table, range), dst, off);
    } else if ty == DENSE {
      Copy(block, dst, next);
      next := next + |block|;
    }
  }

  method WriteSparse(block: seq<Byte>, dst: array<Byte>, off: nat) returns (next: nat)
    requires IsBlock(block) && off + |SparseBytes(block)| <= dst.Length
    modifies dst
    ensures next == off + |SparseBytes(block)|
    ensures Written(old(dst[..]), dst[..], off, SparseBytes(block))
  {
    var n := (|block| + 7) / 8;
    var bitmap := new Byte[n](_ => 0);
    PackBits(Flags(block), 1, bitmap, 0);
    ghost var done := Pack(Flags(block), 1);
    assert bitmap[..] == done;
    Copy(bitmap[..], dst, off);
    next := off + n;
    for i := 0 to |block|
      invariant next == off + |done| && done + NonZeros(block, i) == SparseBytes(block)
      invariant Written(old(dst[..]), dst[..], off, done)
    {
      if block[i] != 0 {
        ghost var was := dst[..];
        AppendOne(done, block[i], NonZeros(block, i + 1));
        dst[next] := block[i];
        WrittenThen(old(dst[..]), was, dst[..], off, done, [block[i]]);
        done := done + [block[i]];
        next := next + 1;
      }
    }
    assert done == SparseBytes(block);
  }

  lemma AppendOne(a: seq<Byte>, v: Byte, b: seq<Byte>)
    ensures a + ([v] + b) == (a + [v]) + b
  {
  }

  method WriteRange(block: seq<Byte>, rmin: Byte, range: Byte, w: nat, dst: array<Byte>, off: nat)
    returns (next: nat)
    requires IsBlock(block) && 0 < w <= 8 && rmin == MinOf(block) && range == RangeOf(block)
    requires off + |RangeBytes(block, w)| <= dst.Length
    modifies dst
    ensures next == off + |RangeBytes(block, w)|
    ensures Written(old(dst[..]), dst[..], off, RangeBytes(block, w))
  {
    hide Pack, Deltas, MinOf, MaxOf;
    ghost var s0 := dst[..];
    dst[off] := rmin;
    dst[off + 1] := range;
    ghost var s1 := dst[..];
    var n := (|block| * w + 7) / 8;
    BlockBits(block, w);
    MulMono(w, 8, |block| / 8);
    var packed := new Byte[64](_ => 0);
    PackBits(Deltas(block), w, packed, 0);
    assert packed[..n] == Pack(Deltas(block), w);
    Copy(packed[..n], dst, off + 2);
    WrittenThen(s0, s1, dst[..], off, [rmin, range], Pack(Deltas(block), w));
    next := off + 2 + n;
  }

  // ---- Decoding ----

  datatype Decoded = Fail | Decoded(bytes: seq<Byte>, next: nat)

  function Repeat(v: Byte, n: nat): (s: seq<Byte>)
    ensures |s| == n && forall i | 0 <= i < n :: s[i] == v
  {
    seq(n, _ => v)
  }

  function Prepend(a: seq<Byte>, d: Decoded): Decoded {
    if d.Fail? then Fail else Decoded(a + d.bytes, d.next)
  }

  // Bytes i.. of a sparse block whose bitmap starts at bm, values read from pos on.
  function Scatter(s: seq<Byte>, bm: nat, pos: nat, i: nat, n: nat): (d: Decoded)
    requires i <= n && 8 * bm + n <= 8 * |s|
    ensures d.Decoded? ==> |d.bytes| == n - i && pos <= d.next && (pos <= |s| ==> d.next <= |s|)
    decreases n - i
  {
    if i == n then Decoded([], pos)
    else if BitAt(s, 8 * bm + i) then
      if pos >= |s| then Fail else Prepend([s[pos]], Scatter(s, bm, pos + 1, i + 1, n))
    else Prepend([0], Scatter(s, bm, pos, i + 1, n))
  }

  // uint8 addition of the block minimum and a delta
  function RangeByte(s: seq<Byte>, rmin: Byte, base: nat, w: nat, i: nat): Byte
    requires 8 * base + i * w + w <= 8 * |s|
  {
    (rmin + FieldAt(s, 8 * base + i * w, w)) % 256
  }

  function DecodeRange(s: seq<Byte>, rmin: Byte, base: nat, w: nat, n: nat): (b: seq<Byte>)
    requires base + PackedLen(n, w) <= |s|
    ensures |b| == n
    ensures forall i | 0 <= i < n :: 8 * base + i * w + w <= 8 * |s| && b[i] == RangeByte(s, rmin, base, w, i)
  {
    RangeFits(n, w);
    seq(n, i requires 0 <= i < n => RangeByte(s, rmin, base, w, i))
  }

  lemma RangeFits(n: nat, w: nat)
    ensures forall i | 0 <= i < n :: i * w + w <= 8 * PackedLen(n, w)
  {
    forall i | 0 <= i < n ensures i * w + w <= 8 * PackedLen(n, w) {
      if w == 0 { assert i * w == 0; } else { FieldPosition(n, w, i, 0); }
    }
  }

  // One block of type ty and size n at position pos of the stream.
  function DecodeBlock(s: seq<Byte>, pos: nat, ty: nat, n: nat, table: Table): (d: Decoded)
    requires n % 8 == 0
    ensures d.Decoded? ==> |d.bytes| == n && pos <= d.next && (pos <= |s| ==> d.next <= |s|)
  {
    if ty == ZERO then Decoded(Repeat(0, n), pos)
    else if ty == UNIFORM then
      if pos >= |s| then Fail else Decoded(Repeat(s[pos], n), pos + 1)
    else if ty == SPARSE then
      if pos + n / 8 > |s| then Fail else Scatter(s, pos, pos + n / 8, 0, n)
    else if ty == SMALL_RANGE then
      if pos + 2 > |s| then Fail else
        var w := Width(table, s[pos + 1]);
        if w == 0 then Decoded(Repeat(s[pos], n), pos + 2)
        else if pos + 2 + PackedLen(n, w) > |s| then Fail
        else Decoded(DecodeRange(s, s[pos], pos + 2, w, n), pos + 2 + PackedLen(n, w))
    else if ty == DENSE then
      if pos + n > |s| then Fail else Decoded(s[pos..pos + n], pos + n)
    else Fail
  }

  // The per-block switch of the three decoders, writing the block at dst + off.
  method ReadBlock(s: seq<Byte>, pos: nat, ty: nat, n: nat, table: Table, dst: array<Byte>, off: nat)
    returns (ok: bool, next: nat)
    requires n % 8 == 0 && off + n <= dst.Length
    modifies dst
    ensures ok == DecodeBlock(s, pos, ty, n, table).Decoded?
    ensures ok ==> next == DecodeBlock(s, pos, ty, n, table).next
    ensures ok ==> Written(old(dst[..]), dst[..], off, DecodeBlock(s, pos, ty, n, table).bytes)
    ensures forall j | 0 <= j < off || off + n <= j < dst.Length :: dst[j] == old(dst[j])
  {
    hide Scatter, DecodeRange;
    next := pos;
    if ty == ZERO {
      Copy(Repeat(0, n), dst, off);
    } else if ty == UNIFORM {
      if next >= |s| { return false, next; }
      Copy(Repeat(s[next], n), dst, off);
      next := next + 1;
    } else if ty == SPARSE {
      if next + n / 8 > |s| { return false, next; }
      ok, next := ReadSparse(s, pos, n, dst, off);
      return;
    } else if ty == SMALL_RANGE {
      if next + 2 > |s| { return false, next; }
      var rmin, range := s[next], s[next + 1];
      next := next + 2;
      var w := Width(table, range);
      if w == 0 {
        Copy(Repeat(rmin, n), dst, off);
      } else {
        var packedBytes := (n * w + 7) / 8;
        if next + packedBytes > |s| { return false, next; }
        ReadRange(s, rmin, next, w, n, dst, off);
        next := next + packedBytes;
      }
    } else if ty == DENSE {
      if next + n > |s| { return false, next; }
      Copy(s[next..next + n], dst, off);
      next := next + n;
    } else {
      return false, next;
    }
    ok := true;
  }

  method ReadSparse(s: seq<Byte>, bm: nat, n: nat, dst: array<Byte>, off: nat) returns (ok: bool, next: nat)
    requires n % 8 == 0 && bm + n / 8 <= |s| && off + n <= dst.Length
    modifies dst
    ensures ok == Scatter(s, bm, bm + n / 8, 0, n).Decoded?
    ensures ok ==> next == Scatter(s, bm, bm + n / 8, 0, n).next
    ensures ok ==> Written(old(dst[..]), dst[..], off, Scatter(s, bm, bm + n / 8, 0, n).bytes)
    ensures forall j | 0 <= j < off || off + n <= j < dst.Length :: dst[j] == old(dst[j])
  {
    hide BitAt, Scatter, Prepend;
    next := bm + n / 8;
    ghost var all := Scatter(s, bm, next, 0, n);
    Copy(Repeat(0, n), dst, off);
    ghost var done: seq<Byte> := [];
    PrependEmpty(all);
    for i := 0 to n
      invariant |done| == i && all == Prepend(done, Scatter(s, bm, next, i, n))
      invariant forall j | off <= j < off + i :: dst[j] == done[j - off]
      invariant forall j | off + i <= j < off + n :: dst[j] == 0
      invariant forall j | 0 <= j < off || off + n <= j < dst.Length :: dst[j] == old(dst[j])
    {
      ScatterStep(s, bm, next, i, n);
      PrependLast(done, next);
      if BitAt(s, 8 * bm + i) {
        if next >= |s| { return false, next; }
        dst[off + i] := s[next];
        next := next + 1;
      }
      PrependTwice(done, [dst[off + i]], Scatter(s, bm, next, i + 1, n));
      done := done + [dst[off + i]];
    }
    ok := true;
    ScatterEnd(s, bm, next, n);
    PrependLast(done, next);
  }

  lemma ScatterStep(s: seq<Byte>, bm: nat, pos: nat, i: nat, n: nat)
    requires i < n && 8 * bm + n <= 8 * |s|
    ensures Scatter(s, bm, pos, i, n) ==
            if BitAt(s, 8 * bm + i) then
              if pos >= |s| then Fail else Prepend([s[pos]], Scatter(s, bm, pos + 1, i + 1, n))
            else Prepend([0], Scatter(s, bm, pos, i + 1, n))
  {
  }

  lemma ScatterEnd(s: seq<Byte>, bm: nat, pos: nat, n: nat)
    requires 8 * bm + n <= 8 * |s|
    ensures Scatter(s, bm, pos, n, n) == Decoded([], pos)
  {
  }

  lemma PrependTwice(a: seq<Byte>, b: seq<Byte>, d: Decoded)
    ensures Prepend(a, Prepend(b, d)) == Prepend(a + b, d)
  {
    if d.Decoded? { assert a + (b + d.bytes) == a + b + d.bytes; }
  }

  lemma PrependLast(a: seq<Byte>, pos: nat)
    ensures Prepend(a, Fail) == Fail && Prepend(a, Decoded([], pos)) == Decoded(a, pos)
  {
    assert a + [] == a;
  }

  lemma PrependEmpty(d: Decoded)
    ensures Prepend([], d) == d
  {
    if d.Decoded? { assert [] + d.bytes == d.bytes; }
  }

  method ReadRange(s: seq<Byte>, rmin: Byte, base: nat, w: nat, n: nat, dst: array<Byte>, off: nat)
    requires base + PackedLen(n, w) <= |s| && off + n <= dst.Length
    modifies dst
    ensures Written(old(dst[..]), dst[..], off, DecodeRange(s, rmin, base, w, n))
  {
    ghost var all := DecodeRange(s, rmin, base, w, n);
    for i := 0 to n
      invariant forall j | 0 <= j < off || off + i <= j < dst.Length :: dst[j] == old(dst[j])
      invariant forall j | off <= j < off + i :: dst[j] == all[j - off]
    {
      RangeFits(n, w);
      var delta := UnpackBits(s, 8 * base + i * w, w);
      dst[off + i] := (rmin + delta) % 256;
    }
  }

  // ---- Round trip of one block ----

  lemma FlagBit(s: seq<Byte>, bm: nat, block: seq<Byte>, i: nat)
    requires i < |block| && HoldsAt(s, bm, Pack(Flags(block), 1))
    ensures 8 * bm + i < 8 * |s|
    ensures BitAt(s, 8 * bm + i) == (block[i] != 0)
  {
    PackedFieldBit(s, bm, Flags(block), 1, i, 0);
  }

  lemma {:induction false} ScatterNonZeros(s: seq<Byte>, bm: nat, pos: nat, block: seq<Byte>, i: nat)
    requires i <= |block| && IsBlock(block)
    requires bm + |block| / 8 <= |s|
    requires HoldsAt(s, bm, Pack(Flags(block), 1)) && HoldsAt(s, pos, NonZeros(block, i))
    ensures Scatter(s, bm, pos, i, |block|) == Decoded(block[i..], pos + |NonZeros(block, i)|)
    decreases |block| - i
  {
    hide Pack, BitAt, Flags;
    if i < |block| {
      FlagBit(s, bm, block, i);
      if block[i] != 0 {
        HoldsSplit(s, pos, [block[i]], NonZeros(block, i + 1));
        assert s[pos] == s[pos..pos + 1][0];
        ScatterNonZeros(s, bm, pos + 1, block, i + 1);
      } else {
        ScatterNonZeros(s, bm, pos, block, i + 1);
      }
      assert block[i..] == [block[i]] + block[i + 1..];
    }
  }

  lemma SparseRoundTrip(s: seq<Byte>, pos: nat, block: seq<Byte>)
    requires IsBlock(block) && HoldsAt(s, pos, SparseBytes(block))
    ensures pos + |block| / 8 <= |s|
    ensures Scatter(s, pos, pos + |block| / 8, 0, |block|) == Decoded(block, pos + |SparseBytes(block)|)
  {
    hide Pack, NonZeros, Scatter;
    BlockBits(block, 1);
    var a, b := Pack(Flags(block), 1), NonZeros(block, 0);
    assert |a| == |block| / 8;
    HoldsSplit(s, pos, a, b);
    ScatterNonZeros(s, pos, pos + |a|, block, 0);
    assert block[0..] == block;
  }

  lemma DeltaFits(range: Byte, d: Byte)
    requires d <= range
    ensures d < Pow2(BitsNeeded(range))
    ensures BitsNeeded(range) <= 6 ==> BitsForRange(range) == BitsNeeded(range)
  {
    BytePow();
  }

  lemma RangeByteRoundTrip(s: seq<Byte>, base: nat, block: seq<Byte>, w: nat, i: nat)
    requires IsBlock(block) && w > 0 && w == BitsNeeded(RangeOf(block)) && i < |block|
    requires HoldsAt(s, base, Pack(Deltas(block), w))
    ensures 8 * base + i * w + w <= 8 * |s|
    ensures RangeByte(s, MinOf(block), base, w, i) == block[i]
  {
    hide Pack, MinOf, MaxOf, BitsNeeded, FieldAt, HoldsAt;
    DeltaFits(RangeOf(block), DeltaAt(block, i));
    PackRoundTrip(s, base, Deltas(block), w, i);
  }

  lemma RangeRoundTrip(s: seq<Byte>, base: nat, block: seq<Byte>, w: nat)
    requires IsBlock(block) && w > 0 && w == BitsNeeded(RangeOf(block))
    requires HoldsAt(s, base, Pack(Deltas(block), w))
    ensures DecodeRange(s, MinOf(block), base, w, |block|) == block
  {
    hide Pack, MinOf, MaxOf, BitsNeeded, RangeByte;
    var b := DecodeRange(s, MinOf(block), base, w, |block|);
    forall i | 0 <= i < |block| ensures b[i] == block[i] {
      RangeByteRoundTrip(s, base, block, w, i);
    }
  }

  lemma RangeBlockRoundTrip(s: seq<Byte>, pos: nat, block: seq<Byte>, table: Table)
    requires IsBlock(block) && 0 < BitsNeeded(RangeOf(block)) <= RANGE_MAX_BITS
    requires HoldsAt(s, pos, RangeBytes(block, BitsNeeded(RangeOf(block))))
    ensures DecodeBlock(s, pos, SMALL_RANGE, |block|, table)
            == Decoded(block, pos + |RangeBytes(block, BitsNeeded(RangeOf(block)))|)
  {
    var w := BitsNeeded(RangeOf(block));
    var head := [MinOf(block), RangeOf(block)];
    HoldsSplit(s, pos, head, Pack(Deltas(block), w));
    assert s[pos] == s[pos..pos + 2][0] && s[pos + 1] == s[pos..pos + 2][1];
    DeltaFits(RangeOf(block), 0);
    RangeRoundTrip(s, pos + 2, block, w);
  }

  // Decoding what was encoded gives the block back and leaves the input cursor
  // exactly where the encoder left its output cursor.
  lemma BlockRoundTrip(s: seq<Byte>, pos: nat, block: seq<Byte>, table: Table)
    requires IsBlock(block) && HoldsAt(s, pos, EncodeBlock(block))
    ensures DecodeBlock(s, pos, BlockType(block), |block|, table) == Decoded(block, pos + |EncodeBlock(block)|)
  {
    var ty, e := BlockType(block), EncodeBlock(block);
    if ty == UNIFORM {
      assert s[pos] == s[pos..pos + |e|][0];
    } else if ty == SPARSE {
      SparseRoundTrip(s, pos, block);
    } else if ty == SMALL_RANGE {
      RangeBlockRoundTrip(s, pos, block, table);
    }
  }
}
