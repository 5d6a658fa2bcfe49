/**
  What the block encoding writes, said of the bytes of a block: the form chosen for it,
  what that form holds and costs, and where each row stands in a stream.
*/
module BlockLaws {
  import opened Bits
  import opened Buffers
  import opened Packing
  import opened ByteBlocks
  import opened BlockStreams

  // ---- Blocks ----

  ghost function NonZeroSet(s: seq<nat>, i: nat, m: nat): set<int>
    requires m <= |s|
  {
    set j | i <= j < m && s[j] != 0
  }

  lemma {:induction false} NonZerosCounted(s: seq<nat>)
    ensures NonZeroCount(s) == |NonZeroSet(s, 0, |s|)|
  {
    if |s| > 0 {
      var n := |s| - 1;
      NonZerosCounted(s[..n]);
      var rest := NonZeroSet(s[..n], 0, n);
      assert n !in rest;
      assert NonZeroSet(s, 0, |s|) == if s[n] != 0 then rest + {n as int} else rest;
    } else {
      assert NonZeroSet(s, 0, |s|) == {};
    }
  }

  // All zero: nothing is written.
  lemma ZeroBlock(block: seq<Byte>)
    requires IsBlock(block) && forall i | 0 <= i < |block| :: block[i] == 0
    ensures BlockType(block) == 0 && EncodeBlock(block) == []
  {
  }

  // One repeated value: that value.
  lemma UniformBlock(block: seq<Byte>)
    requires IsBlock(block) && block[0] != 0 && forall i | 0 <= i < |block| :: block[i] == block[0]
    ensures BlockType(block) == 2 && EncodeBlock(block) == [block[0]]
  {
  }

  lemma {:induction false} NonZerosAt(block: seq<Byte>, i: nat)
    requires i <= |block|
    ensures |NonZeros(block, i)| == |NonZeroSet(block, i, |block|)|
    ensures forall m | i <= m < |block| && block[m] != 0 ::
              var k := |NonZeroSet(block, i, m)|; k < |NonZeros(block, i)| && NonZeros(block, i)[k] == block[m]
    decreases |block| - i
  {
    hide NonZeroSet;
    if i < |block| {
      NonZerosAt(block, i + 1);
      FirstNonZero(block, i, |block|);
      forall m | i <= m < |block| && block[m] != 0
        ensures var k := |NonZeroSet(block, i, m)|; k < |NonZeros(block, i)| && NonZeros(block, i)[k] == block[m]
      {
        if m == i { NoneBetween(block, i); } else { FirstNonZero(block, i, m); }
      }
    } else {
      NoneBetween(block, i);
    }
  }

  lemma FirstNonZero(s: seq<nat>, i: nat, m: nat)
    requires i < m <= |s|
    ensures |NonZeroSet(s, i, m)| == |NonZeroSet(s, i + 1, m)| + BitValue(s[i] != 0)
  {
    var rest := NonZeroSet(s, i + 1, m);
    assert i !in rest;
    assert NonZeroSet(s, i, m) == if s[i] != 0 then rest + {i as int} else rest;
  }

  lemma NoneBetween(s: seq<nat>, i: nat)
    requires i <= |s|
    ensures NonZeroSet(s, i, i) == {}
  {
  }

  // At most sixteen non-zero bytes: one bit per byte, then those bytes in order.
  lemma SparseBlock(block: seq<Byte>)
    requires IsBlock(block) && exists i | 0 <= i < |block| :: block[i] != block[0]
    requires |set i | 0 <= i < |block| && block[i] != 0| <= 16
    ensures BlockType(block) == 1
    ensures var e, n := EncodeBlock(block), |block|;
            && |e| == n / 8 + |set i | 0 <= i < n && block[i] != 0|
            && (forall i | 0 <= i < n :: Bit(e[i / 8], i % 8) <==> block[i] != 0)
            && (forall i | 0 <= i < n && block[i] != 0 ::
                  var k := n / 8 + |set j | 0 <= j < i && block[j] != 0|; k < |e| && e[k] == block[i])
  {
    hide Bit, Pack, NonZeros;
    var e, n := EncodeBlock(block), |block|;
    NonZerosCounted(block);
    assert NonZeroSet(block, 0, n) == set i | 0 <= i < n && block[i] != 0;
    assert e == SparseBytes(block);
    BlockBits(block, 1);
    NonZerosAt(block, 0);
    HoldsSelf(e);
    HoldsSplit(e, 0, Pack(Flags(block), 1), NonZeros(block, 0));
    forall i | 0 <= i < n ensures Bit(e[i / 8], i % 8) <==> block[i] != 0 { FlagLaw(e, block, i); }
    forall i | 0 <= i < n && block[i] != 0
      ensures var k := n / 8 + |set j | 0 <= j < i && block[j] != 0|; k < |e| && e[k] == block[i]
    {
      assert NonZeroSet(block, 0, i) == set j | 0 <= j < i && block[j] != 0;
    }
  }

  lemma FlagLaw(e: seq<Byte>, block: seq<Byte>, i: nat)
    requires i < |block| && HoldsAt(e, 0, Pack(Flags(block), 1))
    ensures i / 8 < |e| && (Bit(e[i / 8], i % 8) <==> block[i] != 0)
  {
    hide Pack;
    PackedBit(e, 0, Flags(block), 1, i, 0);
  }

  lemma {:induction false} Extremes(s: seq<Byte>)
    requires |s| > 0
    ensures MinOf(s) in s && MaxOf(s) in s
  {
    var k := |s| - 1;
    assert s == s[..k] + [s[k]];
    if k > 0 { Extremes(s[..k]); }
  }

  lemma ExtremesAre(block: seq<Byte>, lo: Byte, hi: Byte)
    requires lo in block && hi in block && forall v | v in block :: lo <= v <= hi
    ensures MinOf(block) == lo && MaxOf(block) == hi
  {
    hide MinOf, MaxOf;
    Extremes(block);
  }

  // The width is the number of bits of the range.
  lemma WidthIs(range: Byte, w: nat)
    requires 1 <= w <= 6 && Pow2(w - 1) <= range < Pow2(w)
    ensures BitsNeeded(range) == BitsForRange(range) == w
  {
    BytePow();
  }

  lemma RangeForm(block: seq<Byte>, lo: Byte, hi: Byte, w: nat)
    requires IsBlock(block) && |set i | 0 <= i < |block| && block[i] != 0| > 16
    requires lo in block && hi in block && forall v | v in block :: lo <= v <= hi
    requires 1 <= w <= 6 && Pow2(w - 1) <= hi - lo < Pow2(w)
    ensures BlockType(block) == 3 && EncodeBlock(block) == [lo, hi - lo] + Pack(Deltas(block), w)
    ensures forall i | 0 <= i < |block| :: Deltas(block)[i] as int == block[i] - lo
  {
    hide Pack, MinOf, MaxOf, BitsNeeded;
    PowPositive(w - 1);
    ExtremesAre(block, lo, hi);
    WidthIs(hi - lo, w);
    NotConstant(block, lo, hi);
    NonZerosCounted(block);
    assert NonZeroSet(block, 0, |block|) == set i | 0 <= i < |block| && block[i] != 0;
  }

  lemma PowPositive(n: nat)
    ensures Pow2(n) > 0
  {
  }

  // More than sixteen non-zero bytes within a range of w bits, w at most six: smallest
  // value, range, and the distances from the smallest value in w bits each.
  lemma RangeBlock(block: seq<Byte>, lo: Byte, hi: Byte, w: nat, ds: seq<nat>)
    requires IsBlock(block) && |set i | 0 <= i < |block| && block[i] != 0| > 16
    requires lo in block && hi in block && forall v | v in block :: lo <= v <= hi
    requires 1 <= w <= 6 && Pow2(w - 1) <= hi - lo < Pow2(w)
    requires |ds| == |block| && forall i | 0 <= i < |ds| :: ds[i] == block[i] - lo
    ensures BlockType(block) == 3
    ensures var e := EncodeBlock(block);
            && |e| == 2 + |block| / 8 * w && e[0] == lo && e[1] as int == hi - lo
            && FieldsAt(e, 2, ds, w)
  {
    hide FieldsAt, Pack, Deltas, EncodeBlock, BlockType, MinOf, MaxOf;
    var e := EncodeBlock(block);
    RangeForm(block, lo, hi, w);
    assert Deltas(block) == ds;
    BlockBits(block, w);
    HoldsSelf(e);
    HoldsSplit(e, 0, [lo, hi - lo], Pack(ds, w));
    PackedFields(e, 2, ds, w);
  }

  lemma NotConstant(block: seq<Byte>, lo: Byte, hi: Byte)
    requires lo in block && hi in block && lo < hi
    ensures |block| > 0 && !(forall i | 0 <= i < |block| :: block[i] == block[0])
    ensures !(forall i | 0 <= i < |block| :: block[i] == 0)
  {
    var i :| 0 <= i < |block| && block[i] == lo;
    var j :| 0 <= j < |block| && block[j] == hi;
    assert block[i] != block[j];
  }

  // Anything else: the block as it is.
  lemma DenseBlock(block: seq<Byte>, lo: Byte, hi: Byte)
    requires IsBlock(block) && |set i | 0 <= i < |block| && block[i] != 0| > 16
    requires lo in block && hi in block && hi - lo > 63 && forall v | v in block :: lo <= v <= hi
    ensures BlockType(block) == 4 && EncodeBlock(block) == block
  {
    hide MinOf, MaxOf;
    ExtremesAre(block, lo, hi);
    NotConstant(block, lo, hi);
    NonZerosCounted(block);
    assert NonZeroSet(block, 0, |block|) == set i | 0 <= i < |block| && block[i] != 0;
  }

  // ---- Rows in a stream ----

  // Where row b begins behind the headers.
  function Offset(rows: seq<seq<Byte>>, b: nat): nat
    requires AreBlocks(rows) && b <= |rows|
  {
    if b == 0 then 0 else Offset(rows, b - 1) + |EncodeBlock(rows[b - 1])|
  }

  lemma {:induction false} RowsFrom(s: seq<Byte>, pos: nat, rows: seq<seq<Byte>>, b: nat)
    requires AreBlocks(rows) && b <= |rows| && HoldsAt(s, pos, EncodeRows(rows, 0))
    ensures HoldsAt(s, pos + Offset(rows, b), EncodeRows(rows, b))
    ensures Offset(rows, b) + |EncodeRows(rows, b)| == |EncodeRows(rows, 0)|
  {
    hide EncodeBlock, HoldsAt, IsBlock;
    if b > 0 {
      RowsFrom(s, pos, rows, b - 1);
      HoldsSplit(s, pos + Offset(rows, b - 1), EncodeBlock(rows[b - 1]), EncodeRows(rows, b));
    }
  }

  lemma RowAt(s: seq<Byte>, pos: nat, rows: seq<seq<Byte>>, b: nat)
    requires AreBlocks(rows) && b < |rows| && HoldsAt(s, pos, EncodeRows(rows, 0))
    ensures HoldsAt(s, pos + Offset(rows, b), EncodeBlock(rows[b]))
  {
    hide EncodeBlock, HoldsAt, IsBlock;
    RowsFrom(s, pos, rows, b);
    HoldsSplit(s, pos + Offset(rows, b), EncodeBlock(rows[b]), EncodeRows(rows, b + 1));
  }

  // Every row of the encoding of all rows.
  lemma RowsLaid(s: seq<Byte>, pos: nat, rows: seq<seq<Byte>>)
    requires AreBlocks(rows) && HoldsAt(s, pos, EncodeRows(rows, 0))
    ensures forall b | 0 <= b < |rows| :: HoldsAt(s, pos + Offset(rows, b), EncodeBlock(rows[b]))
    ensures |EncodeRows(rows, 0)| == Offset(rows, |rows|)
  {
    hide EncodeRows, EncodeBlock, HoldsAt, Offset;
    forall b | 0 <= b < |rows| ensures HoldsAt(s, pos + Offset(rows, b), EncodeBlock(rows[b])) {
      RowAt(s, pos, rows, b);
    }
    RowsFrom(s, pos, rows, |rows|);
    NoRowsLeft(rows);
  }

  lemma HeaderLaid(s: seq<Byte>, n: nat, hb: nat, types: seq<Byte>, body: seq<Byte>)
    requires s == ToLE(n, 2) + (ToLE(hb, 2) + (types + body))
    ensures NumberAt(s, 0, n, 2) && NumberAt(s, 2, hb, 2)
    ensures HoldsAt(s, 4, types) && HoldsAt(s, 4 + |types|, body)
  {
    hide ToLE, NumberAt, HoldsAt;
    HoldsSelf(s);
    HoldsSplit(s, 0, ToLE(n, 2), ToLE(hb, 2) + (types + body));
    HoldsSplit(s, 2, ToLE(hb, 2), types + body);
    HoldsSplit(s, 4, types, body);
    NumberHolds(s, 0, n, 2);
    NumberHolds(s, 2, hb, 2);
  }

  // Number of rows, size of the type list, three bits for the type of each row, and the
  // rows back to back.
  lemma StreamLayout(rows: seq<seq<Byte>>)
    requires AreBlocks(rows)
    ensures var s, hb := RowStream(rows), (|rows| * 3 + 7) / 8;
            && NumberAt(s, 0, |rows|, 2) && NumberAt(s, 2, hb, 2)
            && FieldsAt(s, 4, TypesOf(rows), 3)
            && (forall b | 0 <= b < |rows| :: rows[b] in rows && TypesOf(rows)[b] == BlockType(rows[b]))
            && (forall b | 0 <= b < |rows| :: HoldsAt(s, 4 + hb + Offset(rows, b), EncodeBlock(rows[b])))
            && |s| == 4 + hb + Offset(rows, |rows|)
  {
    hide Pack, EncodeRows, ToLE, NumberAt, EncodeBlock, BlockType, FieldsAt, HoldsAt, TypesOf, Offset;
    var s, hb := RowStream(rows), PackedLen(|rows|, TYPE_BITS);
    var types, body := Pack(TypesOf(rows), TYPE_BITS), EncodeRows(rows, 0);
    HeaderLaid(s, |rows|, hb, types, body);
    PackedFields(s, 4, TypesOf(rows), TYPE_BITS);
    TypesAre(rows);
    RowsLaid(s, 4 + hb, rows);
  }

  lemma TypesAre(rows: seq<seq<Byte>>)
    requires AreBlocks(rows)
    ensures forall b | 0 <= b < |rows| :: rows[b] in rows && TypesOf(rows)[b] == BlockType(rows[b])
  {
    hide BlockType;
  }

  lemma NoRowsLeft(rows: seq<seq<Byte>>)
    requires AreBlocks(rows)
    ensures EncodeRows(rows, |rows|) == []
  {
  }

  // The block classifier's rows are the blocks of its input.
  lemma ChunkAt(src: seq<Byte>, b: nat, i: nat)
    requires b < |src| / 64 && i < 64
    ensures |Chunks(src)| == |src| / 64 && |Chunks(src)[b]| == 64 && Chunks(src)[b][i] == src[64 * b + i]
  {
  }
}
