/**
  The VRAM registry: a growable array of weight buffers, each in a tier, whose idle
  members are kept as AI-weight streams.
*/
module Vram {
  import opened Bits
  import opened Buffers
  import opened AiWeights
  import opened ByteBlocks
  import opened BlockStreams

  const SIZE_MAX := 0xFFFF_FFFF_FFFF_FFFF
  const U64 := 0x1_0000_0000_0000_0000

  const ALGO_LZ4 := 3
  const ALGO_AI_FP16 := 9
  const ALGO_AI_BF16 := 10
  const ALGO_AI_INT8 := 11

  datatype Tier = Hot | Warm | Cold | Frozen

  datatype WeightFormat = Fp32 | Fp16 | Bf16 | Int8 | Int4 | Unknown

  // weight_fmt_to_algo
  function AlgoOf(f: WeightFormat): nat {
    match f
    case Fp16 => ALGO_AI_FP16
    case Bf16 => ALGO_AI_BF16
    case Int8 => ALGO_AI_INT8
    case _ => ALGO_LZ4
  }

  // weight_fmt_to_ai_fmt: whatever has no codec of its own is compressed as FP16.
  function AiFmt(f: WeightFormat): nat {
    match f
    case Fp16 => FMT_FP16
    case Bf16 => FMT_BF16
    case Int8 => FMT_INT8
    case _ => FMT_FP16
  }

  // A registered buffer; the compressed copy is the private allocation behind
  // compressed_ptr.
  datatype Buf = Buf(ptr: array?<Byte>, copy: Option<seq<Byte>>, size: nat, compressedSize: nat, algoId: nat,
                     format: WeightFormat, tier: Tier, isDevice: bool, lastAccess: nat)

  // A slot of zeroed memory.
  const BLANK := Buf(null, None, 0, 0, 0, Fp32, Hot, false, 0)

  function SumSizes(s: seq<Buf>): nat {
    if |s| == 0 then 0 else SumSizes(s[..|s| - 1]) + s[|s| - 1].size
  }

  function Copies(s: seq<Buf>): nat {
    if |s| == 0 then 0 else Copies(s[..|s| - 1]) + BitValue(s[|s| - 1].copy.Some?)
  }

  function NotHot(s: seq<Buf>): nat {
    if |s| == 0 then 0 else NotHot(s[..|s| - 1]) + BitValue(s[|s| - 1].tier != Hot)
  }

  lemma {:induction false} SumUpdate(s: seq<Buf>, i: nat, b: Buf)
    requires i < |s|
    ensures SumSizes(s[i := b]) == SumSizes(s) - s[i].size + b.size
    ensures Copies(s[i := b]) == Copies(s) - BitValue(s[i].copy.Some?) + BitValue(b.copy.Some?)
    decreases |s|
  {
    var k := |s| - 1;
    if i == k {
      assert s[i := b][..k] == s[..k];
    } else {
      assert s[i := b][..k] == s[..k][i := b];
      SumUpdate(s[..k], i, b);
    }
  }

  // The array after the record at i has been replaced by the last one.
  function SwapRemoved<T>(s: seq<T>, i: nat): (r: seq<T>)
    requires i < |s|
    ensures |r| == |s| - 1 && forall k | 0 <= k < |r| :: r[k] == if k == i then s[|s| - 1] else s[k]
  {
    s[i := s[|s| - 1]][..|s| - 1]
  }

  lemma LastApart<T>(t: seq<T>)
    requires |t| > 0
    ensures multiset(t) == multiset(t[..|t| - 1]) + multiset{t[|t| - 1]}
  {
    assert t == t[..|t| - 1] + [t[|t| - 1]];
  }

  // Swap-remove keeps all other records.
  lemma SwapRemovedKeeps<T>(s: seq<T>, i: nat)
    requires i < |s|
    ensures multiset(SwapRemoved(s, i)) == multiset(s) - multiset{s[i]}
  {
    var x := s[|s| - 1];
    LastApart(s[i := x]);
    UpdateApart(s, i, x);
    assert s[i := x][|s| - 1] == x;
    Cancel(multiset(SwapRemoved(s, i)), multiset(s) - multiset{s[i]}, x);
  }

  lemma Cancel<T>(a: multiset<T>, b: multiset<T>, x: T)
    requires a + multiset{x} == b + multiset{x}
    ensures a == b
  {
    assert a == a + multiset{x} - multiset{x};
    assert b == b + multiset{x} - multiset{x};
  }

  lemma UpdateApart<T>(s: seq<T>, i: nat, x: T)
    requires i < |s|
    ensures multiset(s[i := x]) == multiset(s) - multiset{s[i]} + multiset{x}
  {
    var a, b := s[..i], s[i + 1..];
    assert s == a + [s[i]] + b;
    assert s[i := x] == a + [x] + b;
    assert multiset(a + [s[i]] + b) == multiset(a) + multiset{s[i]} + multiset(b);
    assert multiset(a + [x] + b) == multiset(a) + multiset{x} + multiset(b);
  }

  lemma SwapRemovedSums(s: seq<Buf>, i: nat)
    requires i < |s|
    ensures SumSizes(SwapRemoved(s, i)) == SumSizes(s) - s[i].size
    ensures Copies(SwapRemoved(s, i)) == Copies(s) - BitValue(s[i].copy.Some?)
  {
    SumUpdate(s, i, s[|s| - 1]);
  }

  // Copies and tiers tell the same story when every record is tidy.
  lemma {:induction false} TidyCopies(s: seq<Buf>)
    requires forall i | 0 <= i < |s| :: s[i].tier == Hot <==> s[i].copy.None?
    ensures Copies(s) == NotHot(s)
  {
    if |s| > 0 { TidyCopies(s[..|s| - 1]); }
  }

  // The first record of a buffer.
  ghost predicate FirstAt(s: seq<Buf>, ptr: array?<Byte>, i: nat) {
    i < |s| && s[i].ptr == ptr && forall k | 0 <= k < i :: s[k].ptr != ptr
  }

  // A record that was compressed into a tier.
  ghost predicate CompressedInto(was: Buf, now: Buf, tier: Tier) {
    && now.copy.Some? && now.compressedSize == |now.copy.value| && 0 < now.compressedSize < now.size
    && now == was.(copy := now.copy, compressedSize := now.compressedSize, tier := tier)
  }

  // A record that was compressed, with a snapshot of its contents, or left as it was.
  ghost predicate Turned(picked: bool, tier: Tier, was: Buf, now: Buf, snapWas: seq<Byte>, snapNow: seq<Byte>,
                         contents: seq<Byte>)
  {
    if picked then CompressedInto(was, now, tier) && snapNow == contents else now == was && snapNow == snapWas
  }

  // A record's copy decodes to the contents its buffer had when it was compressed.
  ghost predicate CopyOf(b: Buf, snapshot: seq<Byte>) {
    && b.copy.Some? && Readable(b.copy.value, AiFmt(b.format))
    && |snapshot| == b.size
    && Decode(b.copy.value, b.size, AiFmt(b.format)) == Some(snapshot)
  }

  ghost predicate BufValid(b: Buf, snapshot: seq<Byte>) {
    && b.ptr != null && b.size <= b.ptr.Length
    && (b.tier != Hot ==> b.copy.Some?)
    && (b.copy.Some? ==> CopyOf(b, snapshot) && b.compressedSize == |b.copy.value| && 0 < b.compressedSize < b.size)
  }

  // The codec's tables have room for one page.  A larger buffer may be registered, but
  // not be handed to it, unless the codec turns it down for not being whole blocks.
  predicate Fits(b: Buf) {
    b.tier == Hot ==> b.size <= BLOCK_SIZE * BLOCKS_PER_PAGE || b.size % BLOCK_SIZE != 0
  }

  // The test of minimem_vram_compress_buf on a record's contents.
  predicate Packable(b: Buf, contents: seq<Byte>, tier: Tier) {
    && b.tier == Hot && (b.isDevice ==> tier == Warm)
    && Compressible(contents, CompressBound(b.size), AiFmt(b.format))
  }

  // 8-bit weights are compressed row by row, all others as 16-bit values, and only what
  // gets shorter is kept.
  ghost predicate Shrinks(b: Buf, contents: seq<Byte>) {
    && |contents| > 0 && |contents| % 64 == 0
    && (if b.format.Int8? then |StreamInt8(contents)| else SizeSplit16(contents)) < |contents|
  }

  // A copy made by splitting 16-bit values, whatever its gaps hold.
  ghost predicate IsSplitCopy(copy: seq<Byte>, contents: seq<Byte>) {
    exists lo: seq<Byte>, hi: seq<Byte> ::
      |lo| == |hi| == GapBytes(|contents| / BLOCK_SIZE) && copy == StreamSplit16(contents, lo, hi)
  }

  // A hot buffer that gets shorter, and a device's only into the warm tier.
  ghost predicate Allowed(b: Buf, contents: seq<Byte>, tier: Tier) {
    b.tier == Hot && (b.isDevice ==> tier == Warm) && Shrinks(b, contents)
  }

  lemma PackableShrinks(b: Buf, contents: seq<Byte>, tier: Tier)
    requires |contents| == b.size
    ensures Packable(b, contents, tier) <==> Allowed(b, contents, tier)
  {
    hide StreamInt8, SizeSplit16;
  }

  lemma CopyForm(b: Buf, contents: seq<Byte>, was: seq<Byte>)
    requires |contents| <= BLOCK_SIZE * BLOCKS_PER_PAGE && AiWeights.CompressBound(|contents|) <= |was|
    ensures b.format.Int8? ==> StreamOf(contents, was, AiFmt(b.format)) == StreamInt8(contents)
    ensures !b.format.Int8? ==> IsSplitCopy(StreamOf(contents, was, AiFmt(b.format)), contents)
  {
    hide StreamInt8, StreamSplit16;
    var n := |contents| / BLOCK_SIZE;
    if !b.format.Int8? {
      assert StreamOf(contents, was, AiFmt(b.format)) == StreamSplit16(contents, StaleLo(was, n), StaleHi(was, n));
    }
  }

  // uint64_t subtraction
  function Cutoff(now: nat, idle: nat): nat {
    (now as int - idle) % U64
  }

  // Not used for longer than the threshold, which wraps beyond the uptime.
  predicate IdleSince(access: nat, now: nat, idle: nat) {
    if idle <= now then access + idle < now else access + idle < now + U64
  }

  // The idle test is the intended one only up to an uptime's worth of threshold: a
  // larger threshold wraps, and then the test adds 2^64 to the time of day.
  lemma CutoffMeaning(now: nat, idle: nat, access: nat)
    requires now < U64 && idle < U64 && access <= now
    ensures idle <= now ==> (access < Cutoff(now, idle) <==> access + idle < now)
    ensures idle > now ==> (access < Cutoff(now, idle) <==> access + idle < now + U64)
    ensures access < Cutoff(now, idle) <==> IdleSince(access, now, idle)
  {
    if idle > now { assert (now - idle) % U64 == now - idle + U64; }
  }

  class Context {
    var bufs: array<Buf>
    var nBufs: nat
    var cap: nat

    var statBufs: int
    var totalVramBytes: int
    var totalCompressedBytes: nat
    var totalSavedBytes: nat
    var compressCount: nat
    var decompressCount: nat

    // What each buffer held when it was last compressed; copies released with their
    // record; copies lost because a hot buffer that already had one was compressed.
    ghost var snapshots: seq<seq<Byte>>
    ghost var dropped: nat
    ghost var leaked: nat

    ghost function Contents(): (s: seq<Buf>)
      reads this, bufs
      requires nBufs <= bufs.Length
      ensures |s| == nBufs
    {
      bufs[..nBufs]
    }

    ghost predicate Consistent()
      reads this, bufs
    {
      && 0 < cap == bufs.Length && nBufs <= cap && |snapshots| == nBufs
      && statBufs == nBufs && totalVramBytes == SumSizes(Contents())
      && (forall i | 0 <= i < nBufs :: BufValid(bufs[i], snapshots[i]))
      && compressCount == decompressCount + Copies(Contents()) + dropped + leaked
    }

    // Hot exactly without a copy.
    ghost predicate Tidy()
      reads this, bufs
      requires nBufs <= bufs.Length
    {
      leaked == 0 && forall i | 0 <= i < nBufs :: bufs[i].tier == Hot <==> bufs[i].copy.None?
    }

    ghost predicate Valid()
      reads this, bufs
    {
      Consistent() && Tidy()
    }

    // Every compression is accounted for: undone, still standing, or released with its
    // record.
    lemma Ledger()
      requires Valid()
      ensures compressCount == decompressCount + NotHot(Contents()) + dropped
    {
      hide BufValid, SumSizes;
      TidyCopies(Contents());
    }

    // minimem_vram_ctx_create
    constructor (initialCap: nat)
      ensures Valid() && fresh(bufs) && nBufs == 0 && cap == (if initialCap > 0 then initialCap else 64)
    {
      cap := if initialCap > 0 then initialCap else 64;
      bufs := new Buf[if initialCap > 0 then initialCap else 64](_ => BLANK);
      nBufs, statBufs, totalVramBytes, totalCompressedBytes, totalSavedBytes := 0, 0, 0, 0, 0;
      compressCount, decompressCount := 0, 0;
      snapshots, dropped, leaked := [], 0, 0;
    }

    // minimem_vram_register
    method Register(ptr: array?<Byte>, size: nat, format: WeightFormat, isDevice: bool, now: nat, realloc: bool)
      returns (ret: int)
      requires Consistent()
      requires ptr != null ==> size <= ptr.Length
      modifies this, bufs
      ensures Consistent() && (bufs == old(bufs) || fresh(bufs))
      ensures old(Tidy()) ==> Tidy()
      ensures ret == if ptr == null || (old(nBufs) == old(cap) && !realloc) then -1 else 0
      ensures ret != 0 ==> Contents() == old(Contents())
      ensures ret == 0 ==>
                Contents() == old(Contents()) + [Buf(ptr, None, size, 0, AlgoOf(format), format, Hot, isDevice, now)]
      ensures ret == 0 ==>
                Contents()[old(nBufs)].algoId ==
                if format.Fp16? then 9 else if format.Bf16? then 10 else if format.Int8? then 11 else 3
      ensures compressCount == old(compressCount) && decompressCount == old(decompressCount)
    {
      hide BufValid, SumSizes, Copies;
      if ptr == null { return -1; }
      if nBufs >= cap {
        if !realloc { return -1; }
        Grow();
      }
      label Grown:
      var b := Buf(ptr, None, size, 0, AlgoOf(format), format, Hot, isDevice, now);
      bufs[nBufs] := b;
      nBufs := nBufs + 1;
      statBufs := statBufs + 1;
      totalVramBytes := totalVramBytes + size;
      snapshots := snapshots + [[]];
      assert Contents() == old@Grown(Contents()) + [b];
      SumAppend(old@Grown(Contents()), b);
      BlankValid(b);
      return 0;
    }

    // realloc to twice the capacity, the new half zeroed
    method Grow()
      requires 0 < cap == bufs.Length && nBufs <= cap
      modifies this`bufs, this`cap
      ensures fresh(bufs) && cap == bufs.Length == 2 * old(cap)
      ensures bufs[..old(cap)] == old(bufs[..]) && bufs[..nBufs] == old(bufs[..nBufs])
      ensures forall k | old(cap) <= k < cap :: bufs[k] == BLANK
    {
      var newCap := cap * 2;
      var newBufs := new Buf[newCap](_ => BLANK);
      for i := 0 to cap
        invariant bufs == old(bufs) && cap == bufs.Length && newCap == newBufs.Length
        invariant forall k | 0 <= k < i :: newBufs[k] == bufs[k]
        invariant forall k | cap <= k < newCap :: newBufs[k] == BLANK
      {
        newBufs[i] := bufs[i];
      }
      bufs, cap := newBufs, newCap;
    }

    // minimem_vram_buf_index
    method BufIndex(ptr: array?<Byte>) returns (i: nat)
      requires Consistent()
      ensures i != SIZE_MAX && ptr != null ==> FirstAt(Contents(), ptr, i)
      ensures i >= nBufs ==> i == SIZE_MAX
      ensures nBufs < SIZE_MAX ==> (i == SIZE_MAX <==> ptr == null || forall k | 0 <= k < nBufs :: bufs[k].ptr != ptr)
    {
      hide BufValid, SumSizes, Copies;
      if ptr == null { return SIZE_MAX; }
      i := 0;
      while i < nBufs
        invariant i <= nBufs && forall k | 0 <= k < i :: bufs[k].ptr != ptr
      {
        if bufs[i].ptr == ptr { return i; }
        i := i + 1;
      }
      return SIZE_MAX;
    }

    // minimem_vram_unregister: the first record of the buffer goes, the last one takes
    // its slot.
    method Unregister(ptr: array?<Byte>) returns (ret: int, ghost at: nat)
      requires Consistent()
      modifies this`nBufs, this`statBufs, this`totalVramBytes, this`snapshots, this`dropped, bufs
      ensures Consistent() && bufs == old(bufs)
      ensures old(Tidy()) ==> Tidy()
      ensures ret != 0 ==>
                ret == -1 && Contents() == old(Contents()) && snapshots == old(snapshots) && dropped == old(dropped)
      ensures ret != 0 ==> ptr == null || forall k | 0 <= k < nBufs :: bufs[k].ptr != ptr
      ensures ret == 0 ==>
                && FirstAt(old(Contents()), ptr, at)
                && Contents() == SwapRemoved(old(Contents()), at) && snapshots == SwapRemoved(old(snapshots), at)
                && dropped == old(dropped) + BitValue(old(Contents())[at].copy.Some?)
      ensures compressCount == old(compressCount) && decompressCount == old(decompressCount)
      ensures totalCompressedBytes == old(totalCompressedBytes) && totalSavedBytes == old(totalSavedBytes)
    {
      hide BufValid, SumSizes, Copies;
      at := 0;
      if ptr == null { return -1, 0; }
      var i := 0;
      while i < nBufs
        invariant i <= nBufs && forall k | 0 <= k < i :: bufs[k].ptr != ptr
        invariant Consistent() && Contents() == old(Contents()) && bufs == old(bufs) && nBufs == old(nBufs)
        invariant snapshots == old(snapshots) && dropped == old(dropped) && leaked == old(leaked)
      {
        if bufs[i].ptr == ptr {
          at := i;
          Remove(i);
          return 0, i;
        }
        i := i + 1;
      }
      return -1, 0;
    }

    method Remove(i: nat)
      requires Consistent() && i < nBufs
      modifies this`nBufs, this`statBufs, this`totalVramBytes, this`snapshots, this`dropped, bufs
      ensures Consistent() && bufs == old(bufs)
      ensures old(Tidy()) ==> Tidy()
      ensures Contents() == SwapRemoved(old(Contents()), i) && snapshots == SwapRemoved(old(snapshots), i)
      ensures dropped == old(dropped) + BitValue(old(Contents())[i].copy.Some?)
    {
      hide BufValid, SumSizes, Copies, BitValue, SwapRemoved;
      ghost var was := Contents();
      SwapRemovedSums(was, i);
      dropped := dropped + BitValue(bufs[i].copy.Some?);
      totalVramBytes := totalVramBytes - bufs[i].size;
      statBufs := statBufs - 1;
      MoveLast(i);
      nBufs := nBufs - 1;
      snapshots := SwapRemoved(snapshots, i);
      assert Contents() == SwapRemoved(was, i);
    }

    // The last record takes the slot, and its own is zeroed.
    method MoveLast(i: nat)
      requires i < nBufs <= bufs.Length
      modifies bufs
      ensures bufs[..nBufs - 1] == SwapRemoved(old(bufs[..nBufs]), i) && bufs[nBufs - 1] == BLANK
      ensures bufs[nBufs..] == old(bufs[nBufs..])
    {
      hide SwapRemoved;
      if i < nBufs - 1 { bufs[i] := bufs[nBufs - 1]; }
      bufs[nBufs - 1] := BLANK;
    }
  
    // ---- Compression ----

    // minimem_vram_compress_buf.  The destination is fresh memory with whatever it held
    // before.
    method CompressBuf(idx: nat, tier: Tier, malloc: bool) returns (ret: int)
      requires Consistent() && (idx < nBufs ==> Fits(bufs[idx]))
      modifies this, bufs
      ensures Consistent() && bufs == old(bufs) && nBufs == old(nBufs)
      ensures ret == 0 || ret == -1
      ensures ret == 0 <==> idx < nBufs && malloc && Packable(old(bufs[idx]), old(bufs[idx].ptr[..bufs[idx].size]),
                tier)
      ensures ret != 0 ==>
                Contents() == old(Contents()) && snapshots == old(snapshots) && compressCount == old(compressCount)
      ensures ret != 0 ==> leaked == old(leaked)
      ensures ret != 0 ==> totalCompressedBytes == old(totalCompressedBytes) && totalSavedBytes == old(totalSavedBytes)
      ensures forall k | 0 <= k < nBufs && k != idx :: bufs[k] == old(bufs[k]) && snapshots[k] == old(snapshots[k])
      ensures ret == 0 ==>
                && CompressedInto(old(bufs[idx]), bufs[idx], tier) && snapshots[idx] == bufs[idx].ptr[..bufs[idx].size]
                && compressCount == old(compressCount) + 1
                && totalCompressedBytes == old(totalCompressedBytes) + bufs[idx].compressedSize
                && totalCompressedBytes + totalSavedBytes ==
                          old(totalCompressedBytes + totalSavedBytes) + bufs[idx].size
      ensures decompressCount == old(decompressCount) && dropped == old(dropped)
      ensures old(Tidy()) ==> (Tidy() <==> ret != 0 || tier != Hot)
      ensures idx < nBufs && malloc && old(bufs[idx]).tier == Hot && (old(bufs[idx]).isDevice ==> tier == Warm) ==>
                (ret == 0 <==> Shrinks(old(bufs[idx]), old(bufs[idx].ptr[..bufs[idx].size])))
      ensures ret == 0 && bufs[idx].format.Int8? ==> bufs[idx].copy == Some(StreamInt8(snapshots[idx]))
      ensures ret == 0 && !bufs[idx].format.Int8? ==> IsSplitCopy(bufs[idx].copy.value, snapshots[idx])
    {
      hide SumSizes, Copies, Compressible, StreamOf, Decode, Readable, Written, Shrinks, IsSplitCopy, StreamInt8;
      if idx >= nBufs { return -1; }
      var buf := bufs[idx];
      PackableShrinks(buf, buf.ptr[..buf.size], tier);
      if buf.tier != Hot { return -1; }
      if buf.isDevice && tier != Warm { return -1; }
      var bound := CompressBound(buf.size);
      if !malloc { return -1; }
      var dst := new Byte[bound];
      ghost var was := dst[..];
      var contents := buf.ptr[..buf.size];
      var compressed := Compress(contents, dst, bound, AiFmt(buf.format));
      if compressed == 0 || compressed >= buf.size { return -1; }
      Lossless(contents, was, bound, buf.size, AiFmt(buf.format));
      WrittenHolds(was, dst[..], 0, StreamOf(contents, was, AiFmt(buf.format)));
      CopyForm(buf, contents, was);
      Keep(idx, dst[..compressed], tier);
      return 0;
    }

    // The bookkeeping of a successful compression.
    method Keep(idx: nat, copy: seq<Byte>, tier: Tier)
      requires Consistent() && idx < nBufs && bufs[idx].tier == Hot && 0 < |copy| < bufs[idx].size
      requires Readable(copy, AiFmt(bufs[idx].format))
      requires Decode(copy, bufs[idx].size, AiFmt(bufs[idx].format)) == Some(bufs[idx].ptr[..bufs[idx].size])
      modifies this`compressCount, this`totalCompressedBytes, this`totalSavedBytes, this`snapshots, this`leaked, bufs
      ensures Consistent()
      ensures forall k | 0 <= k < nBufs && k != idx :: bufs[k] == old(bufs[k]) && snapshots[k] == old(snapshots[k])
      ensures CompressedInto(old(bufs[idx]), bufs[idx], tier) && snapshots[idx] == bufs[idx].ptr[..bufs[idx].size]
      ensures bufs[idx].copy == Some(copy)
      ensures compressCount == old(compressCount) + 1
      ensures totalCompressedBytes == old(totalCompressedBytes) + |copy| ==
                old(totalCompressedBytes) + bufs[idx].compressedSize
      ensures totalSavedBytes == old(totalSavedBytes) + bufs[idx].size - |copy|
      ensures old(Tidy()) ==> (Tidy() <==> tier != Hot)
    {
      hide SumSizes, Copies, Decode, Readable;
      var buf := bufs[idx];
      ghost var was := Contents();
      SumUpdate(was, idx, buf.(copy := Some(copy), compressedSize := |copy|, tier := tier));
      leaked := leaked + BitValue(buf.copy.Some?);
      snapshots := snapshots[idx := buf.ptr[..buf.size]];
      bufs[idx] := buf.(copy := Some(copy), compressedSize := |copy|, tier := tier);
      totalCompressedBytes := totalCompressedBytes + |copy|;
      totalSavedBytes := totalSavedBytes + (buf.size - |copy|);
      compressCount := compressCount + 1;
      assert Contents() == was[idx := bufs[idx]];
    }

    // minimem_vram_decompress_buf: every buffer outside the hot tier comes back as it
    // was when it was compressed, whatever its memory holds by now.
    method DecompressBuf(idx: nat, now: nat) returns (ret: int)
      requires Consistent()
      modifies this, bufs, if idx < nBufs && bufs[idx].ptr != null then {bufs[idx].ptr} else {}
      ensures Consistent() && bufs == old(bufs) && nBufs == old(nBufs)
      ensures ret == 0 || ret == -1
      ensures ret == 0 <==> idx < nBufs && old(bufs[idx]).tier != Hot
      ensures ret != 0 ==> Contents() == old(Contents()) && decompressCount == old(decompressCount)
      ensures forall k | 0 <= k < nBufs && k != idx :: bufs[k] == old(bufs[k])
      ensures ret == 0 ==>
                && bufs[idx] == old(bufs[idx]).(copy := None, compressedSize := 0, tier := Hot, lastAccess := now)
                && bufs[idx].ptr[..bufs[idx].size] == old(snapshots[idx])
                && bufs[idx].ptr[bufs[idx].size..] == old(bufs[idx].ptr[bufs[idx].size..])
                && decompressCount == old(decompressCount) + 1
      ensures compressCount == old(compressCount) && snapshots == old(snapshots)
      ensures old(Tidy()) ==> Tidy()
    {
      hide SumSizes, Copies, Decode, Readable, Written;
      if idx >= nBufs { return -1; }
      var buf := bufs[idx];
      if buf.tier == Hot { return -1; }
      if buf.copy.None? || buf.compressedSize == 0 { return -1; }
      ghost var was := buf.ptr[..];
      var decompressed := Decompress(buf.copy.value, buf.ptr, buf.size, AiFmt(buf.format));
      if decompressed != buf.size { return -1; }
      WrittenHolds(was, buf.ptr[..], 0, snapshots[idx]);
      Release(idx, now);
      return 0;
    }

    // The bookkeeping of a successful decompression.
    method Release(idx: nat, now: nat)
      requires Consistent() && idx < nBufs && bufs[idx].copy.Some?
      modifies this`decompressCount, bufs
      ensures Consistent()
      ensures forall k | 0 <= k < nBufs && k != idx :: bufs[k] == old(bufs[k])
      ensures bufs[idx] == old(bufs[idx]).(copy := None, compressedSize := 0, tier := Hot, lastAccess := now)
      ensures decompressCount == old(decompressCount) + 1
      ensures old(Tidy()) ==> Tidy()
    {
      hide SumSizes, Copies, Decode, Readable;
      ghost var was := Contents();
      SumUpdate(was, idx, bufs[idx].(copy := None, compressedSize := 0, tier := Hot, lastAccess := now));
      bufs[idx] := bufs[idx].(copy := None, compressedSize := 0, tier := Hot, lastAccess := now);
      decompressCount := decompressCount + 1;
      assert Contents() == was[idx := bufs[idx]];
    }
  
    // ---- Idle buffers ----

    // minimem_vram_touch
    method Touch(idx: nat, now: nat)
      requires Consistent()
      modifies bufs
      ensures Consistent()
      ensures Contents() == if idx < nBufs then old(Contents())[idx := old(bufs[idx]).(lastAccess := now)]
                else old(Contents())
      ensures old(Tidy()) ==> Tidy()
    {
      hide SumSizes, Copies, Decode, Readable;
      if idx >= nBufs { return; }
      ghost var was := Contents();
      SumUpdate(was, idx, bufs[idx].(lastAccess := now));
      bufs[idx] := bufs[idx].(lastAccess := now);
      assert Contents() == was[idx := bufs[idx]];
    }

    // The buffers that a pass over the idle ones will compress.
    ghost predicate Chosen(k: nat, cutoff: nat, tier: Tier, malloc: bool)
      reads this, bufs, if k < nBufs <= bufs.Length && bufs[k].ptr != null then {bufs[k].ptr} else {}
      requires Consistent() && k < nBufs
    {
      bufs[k].lastAccess < cutoff && malloc && Packable(bufs[k], bufs[k].ptr[..bufs[k].size], tier)
    }

    // One turn of the loop over the idle buffers.
    method CompressIfIdle(i: nat, cutoff: nat, tier: Tier, malloc: bool) returns (pick: bool)
      requires Consistent() && i < nBufs && Fits(bufs[i])
      modifies this, bufs
      ensures Consistent() && bufs == old(bufs) && nBufs == old(nBufs)
      ensures pick == old(Chosen(i, cutoff, tier, malloc))
      ensures Turned(pick, tier, old(bufs[i]), bufs[i], old(snapshots[i]), snapshots[i],
                old(bufs[i].ptr[..bufs[i].size]))
      ensures forall k | 0 <= k < nBufs && k != i :: bufs[k] == old(bufs[k]) && snapshots[k] == old(snapshots[k])
      ensures compressCount == old(compressCount) + BitValue(pick) && decompressCount == old(decompressCount)
      ensures totalCompressedBytes == old(totalCompressedBytes) + if pick then bufs[i].compressedSize else 0
      ensures totalSavedBytes == old(totalSavedBytes) + if pick then bufs[i].size - bufs[i].compressedSize else 0
      ensures !pick ==> (Tidy() <==> old(Tidy()))
      ensures pick ==> (tier == Hot ==> !Tidy()) && (tier != Hot && old(Tidy()) ==> Tidy())
    {
      hide SumSizes, Copies, Decode, Readable, Compressible, CopyOf;
      pick := false;
      if bufs[i].tier == Hot && bufs[i].lastAccess < cutoff {
        var r := CompressBuf(i, tier, malloc);
        pick := r == 0;
      }
    }

    // minimem_vram_compress_all_idle: exactly the idle hot buffers that can be
    // compressed are, and every other record stays as it is.
    method CompressAllIdle(idle: nat, tier: Tier, now: nat, mallocs: seq<bool>)
      returns (compressed: nat, ghost chosen: seq<bool>)
      requires Consistent() && |mallocs| == nBufs && forall k | 0 <= k < nBufs :: Fits(bufs[k])
      modifies this, bufs
      ensures Consistent() && bufs == old(bufs) && nBufs == old(nBufs)
      ensures |chosen| == nBufs
      ensures forall k | 0 <= k < nBufs :: chosen[k] == old(Chosen(k, Cutoff(now, idle), tier, mallocs[k]))
      ensures now < U64 && idle < U64 ==>
                forall k | 0 <= k < nBufs && old(bufs[k].lastAccess) <= now ::
                  chosen[k] <==> mallocs[k] && old(IdleSince(bufs[k].lastAccess, now, idle)) &&
                                 old(Allowed(bufs[k], bufs[k].ptr[..bufs[k].size], tier))
      ensures forall k | 0 <= k < nBufs ::
                Turned(chosen[k], tier, old(bufs[k]), bufs[k], old(snapshots[k]), snapshots[k],
                       old(bufs[k].ptr[..bufs[k].size]))
      ensures compressed == CountTrue(chosen)
      ensures compressCount == old(compressCount) + compressed && decompressCount == old(decompressCount)
      ensures totalCompressedBytes == old(totalCompressedBytes) + PackedBytes(Contents(), chosen)
      ensures totalSavedBytes == old(totalSavedBytes) + SavedBytes(Contents(), chosen)
      ensures old(Tidy()) ==> (Tidy() <==> compressed == 0 || tier != Hot)
    {
      hide SumSizes, Copies, CopyOf, Compressible, CountTrue, PackedBytes, SavedBytes, Tidy, Turned;
      hide Packable, Allowed, IdleSince, Cutoff;
      var cutoff := Cutoff(now, idle);
      compressed, chosen := 0, [];
      NonePicked();
      for i := 0 to nBufs
        invariant Consistent() && bufs == old(bufs) && nBufs == old(nBufs)
        invariant forall k | i <= k < nBufs :: bufs[k] == old(bufs[k]) && snapshots[k] == old(snapshots[k])
        invariant |chosen| == i && forall k | 0 <= k < i :: chosen[k] == old(Chosen(k, cutoff, tier, mallocs[k]))
        invariant forall k | 0 <= k < i ::
                    Turned(chosen[k], tier, old(bufs[k]), bufs[k], old(snapshots[k]), snapshots[k],
                           old(bufs[k].ptr[..bufs[k].size]))
        invariant compressed == CountTrue(chosen)
        invariant compressCount == old(compressCount) + compressed && decompressCount == old(decompressCount)
        invariant totalCompressedBytes == old(totalCompressedBytes) + PackedBytes(bufs[..i], chosen)
        invariant totalSavedBytes == old(totalSavedBytes) + SavedBytes(bufs[..i], chosen)
        invariant old(Tidy()) ==> (Tidy() <==> compressed == 0 || tier != Hot)
      {
        ghost var before := bufs[..i];
        var pick := CompressIfIdle(i, cutoff, tier, mallocs[i]);
        if pick { compressed := compressed + 1; }
        assert bufs[..i + 1] == before + [bufs[i]];
        PickOne(before, chosen, bufs[i], pick);
        chosen := chosen + [pick];
      }
      forall k | 0 <= k < nBufs && now < U64 && idle < U64 && old(bufs[k].lastAccess) <= now
        ensures chosen[k] <==> mallocs[k] && old(IdleSince(bufs[k].lastAccess, now, idle)) &&
                               old(Allowed(bufs[k], bufs[k].ptr[..bufs[k].size], tier))
      {
        CutoffMeaning(now, idle, old(bufs[k].lastAccess));
        PackableShrinks(old(bufs[k]), old(bufs[k].ptr[..bufs[k].size]), tier);
      }
    }
  }

  function CountTrue(s: seq<bool>): nat {
    if |s| == 0 then 0 else CountTrue(s[..|s| - 1]) + BitValue(s[|s| - 1])
  }

  // The compressed sizes of the chosen records.
  function PackedBytes(s: seq<Buf>, chosen: seq<bool>): nat
    requires |s| == |chosen|
  {
    if |s| == 0 then 0 else
      var k := |s| - 1;
      PackedBytes(s[..k], chosen[..k]) + if chosen[k] then s[k].compressedSize else 0
  }

  // What the chosen records save.
  function SavedBytes(s: seq<Buf>, chosen: seq<bool>): int
    requires |s| == |chosen|
  {
    if |s| == 0 then 0 else
      var k := |s| - 1;
      SavedBytes(s[..k], chosen[..k]) + if chosen[k] then s[k].size - s[k].compressedSize else 0
  }

  lemma NonePicked()
    ensures CountTrue([]) == 0 && PackedBytes([], []) == 0 && SavedBytes([], []) == 0
  {
  }

  lemma PickOne(s: seq<Buf>, chosen: seq<bool>, b: Buf, pick: bool)
    requires |s| == |chosen|
    ensures CountTrue(chosen + [pick]) == CountTrue(chosen) + BitValue(pick)
    ensures PackedBytes(s + [b], chosen + [pick]) == PackedBytes(s, chosen) + if pick then b.compressedSize else 0
    ensures SavedBytes(s + [b], chosen + [pick]) == SavedBytes(s, chosen) + if pick then b.size - b.compressedSize
              else 0
  {
    assert (s + [b])[..|s|] == s && (chosen + [pick])[..|s|] == chosen;
  }

  lemma {:induction false} SumAppend(s: seq<Buf>, b: Buf)
    ensures SumSizes(s + [b]) == SumSizes(s) + b.size && Copies(s + [b]) == Copies(s) + BitValue(b.copy.Some?)
  {
    assert (s + [b])[..|s|] == s;
  }

  lemma BlankValid(b: Buf)
    requires b.ptr != null && b.size <= b.ptr.Length && b.tier == Hot
              && b.copy.None?
    ensures BufValid(b, [])
  {
  }
}
