/**
  The kernel's compression dispatch: classify a page, run the codec chosen for it,
  and on the way back run the decoder recorded with the stored page.
*/
module PageCodec {
  import opened Bits
  import opened Buffers
  import ByteBlocks
  import BlockStreams
  import BlockClass
  import Bdi
  import BlockLaws
  import Wkdm
  import WkdmLaws

  const PAGE_SIZE := 4096
  const COMPRESS_BUF_SIZE := 8192

  const SAME_PAGE := 0
  const BDI := 1
  const WKDM := 2
  const LZ4 := 3
  const WKDM64 := 7
  const BLOCK_CLASS := 8

  const OK := 0
  const ERROR := -1
  const INCOMPRESSIBLE := -3

  // LZ4 is the kernel's own: a pair of functions on byte strings, the empty string
  // standing for a failed compression.
  datatype Lz4 = Lz4(compress: seq<Byte> -> seq<Byte>, decompress: seq<Byte> -> seq<Byte>)

  ghost predicate LosslessLz4(z: Lz4) {
    forall p: seq<Byte> :: |z.compress(p)| > 0 ==> z.decompress(z.compress(p)) == p
  }

  // ---- Page classification ----

  predicate AllSame(page: seq<Byte>) {
    forall i | 0 <= i < |page| :: page[i] == page[0]
  }

  // Words from i on whose upper 32 bits are zero.
  function SmallWords(ws: seq<nat>): nat {
    if |ws| == 0 then 0 else SmallWords(ws[..|ws| - 1]) + BitValue(ws[|ws| - 1] < 0x1_0000_0000)
  }

  function ClassifyPage(page: seq<Byte>): nat {
    if |page| != PAGE_SIZE then LZ4
    else if AllSame(page) then SAME_PAGE
    else if (PAGE_SIZE - ByteBlocks.NonZeroCount(page)) * 256 / PAGE_SIZE >= 128 then
      if ByteBlocks.MaxOf(page) - ByteBlocks.MinOf(page) <= 32 then BDI else WKDM
    else if SmallWords(Words(page, 8, 512)) > 256 then WKDM64
    else LZ4
  }

  method SamePage(page: seq<Byte>) returns (r: bool)
    requires |page| > 0
    ensures r == AllSame(page)
  {
    var i := 1;
    while i < |page|
      invariant 1 <= i <= |page|
      invariant forall k | 0 <= k < i :: page[k] == page[0]
    {
      if page[i] != page[0] { return false; }
      i := i + 1;
    }
    return true;
  }

  lemma {:induction false} NoNonZeros(s: seq<Byte>)
    requires ByteBlocks.NonZeroCount(s) == 0
    ensures forall i | 0 <= i < |s| :: s[i] == 0
  {
    if |s| > 0 { NoNonZeros(s[..|s| - 1]); }
  }

  method CountBytes(page: seq<Byte>) returns (zeros: nat, minB: Byte, maxB: Byte)
    ensures zeros == |page| - ByteBlocks.NonZeroCount(page)
    ensures minB == ByteBlocks.MinOf(page) && maxB == ByteBlocks.MaxOf(page)
  {
    zeros, minB, maxB := 0, 0xFF, 0x00;
    for i := 0 to |page|
      invariant zeros == i - ByteBlocks.NonZeroCount(page[..i])
      invariant minB == ByteBlocks.MinOf(page[..i]) && maxB == ByteBlocks.MaxOf(page[..i])
    {
      assert page[..i + 1][..i] == page[..i];
      if page[i] == 0 { zeros := zeros + 1; }
      if page[i] < minB { minB := page[i]; }
      if page[i] > maxB { maxB := page[i]; }
    }
    assert page[..|page|] == page;
  }

  method CountSmallWords(ws: seq<nat>) returns (n: nat)
    ensures n == SmallWords(ws)
  {
    n := 0;
    for i := 0 to |ws|
      invariant n == SmallWords(ws[..i])
    {
      assert ws[..i + 1][..i] == ws[..i];
      if ws[i] < 0x1_0000_0000 { n := n + 1; }
    }
    assert ws[..|ws|] == ws;
  }

  // km_classify_page
  method Classify(page: seq<Byte>) returns (algo: nat)
    ensures algo == ClassifyPage(page) && (|page| == 4096 ==> algo == Route(page))
  {
    hide SmallWords, ByteBlocks.NonZeroCount, ByteBlocks.MaxOf, ByteBlocks.MinOf, Route;
    if |page| != PAGE_SIZE { return LZ4; }
    RouteIs(page);
    var zeros, minB, maxB := CountBytes(page);
    var same := SamePage(page);
    if zeros == |page| { NoNonZeros(page); }
    if zeros == |page| || same { return SAME_PAGE; }
    if zeros * 256 / |page| >= 128 {
      if maxB as int - minB as int <= 32 { return BDI; }
      return WKDM;
    }
    var upper32Zero := CountSmallWords(Words(page, 8, |page| / 8));
    if upper32Zero > |page| / 8 / 2 { return WKDM64; }
    return LZ4;
  }

  // ---- The routing, counted ----

  // The upper half of the i-th 64-bit word is zero.
  predicate UpperZero(page: seq<Byte>, i: int)
    requires 0 <= i && 8 * i + 8 <= |page|
  {
    page[8 * i + 4] == 0 && page[8 * i + 5] == 0 && page[8 * i + 6] == 0 && page[8 * i + 7] == 0
  }

  // The codec of a page: one for constant pages; of those that are at least half zero, one
  // for pages without a byte above 32 and one for the others; one for pages with more than
  // half of their words below 2^32; and one for all the rest.
  ghost function Route(page: seq<Byte>): nat
    requires |page| == 4096
  {
    if forall i | 0 <= i < 4096 :: page[i] == page[0] then 0
    else if |set i | 0 <= i < 4096 && page[i] == 0| >= 2048 then
      if forall i | 0 <= i < 4096 :: page[i] <= 32 then 1 else 2
    else if |set i | 0 <= i < 512 && UpperZero(page, i)| > 256 then 7
    else 3
  }

  lemma {:induction false} ZerosCounted(s: seq<Byte>)
    ensures |s| - ByteBlocks.NonZeroCount(s) == |set i | 0 <= i < |s| && s[i] == 0|
  {
    var all := set i | 0 <= i < |s| && s[i] == 0;
    if |s| == 0 {
      assert all == {};
    } else {
      var n := |s| - 1;
      ZerosCounted(s[..n]);
      var rest := set i | 0 <= i < n && s[..n][i] == 0;
      assert n !in rest;
      assert all == if s[n] == 0 then rest + {n as int} else rest;
    }
  }

  lemma {:induction false} SmallCounted(page: seq<Byte>, n: nat)
    requires |page| == 4096 && n <= 512
    ensures SmallWords(Words(page, 8, 512)[..n]) == |set i | 0 <= i < n && UpperZero(page, i)|
  {
    hide Words;
    var all := set i | 0 <= i < n && UpperZero(page, i);
    if n == 0 {
      assert all == {};
    } else {
      var ws, m := Words(page, 8, 512), n - 1;
      assert ws[..n][..m] == ws[..m];
      SmallCounted(page, m);
      WordIsSmall(page, m);
      var rest := set i | 0 <= i < m && UpperZero(page, i);
      assert m !in rest;
      assert all == if UpperZero(page, m) then rest + {m as int} else rest;
    }
  }

  lemma WordIsSmall(page: seq<Byte>, i: nat)
    requires |page| == 4096 && i < 512
    ensures Words(page, 8, 512)[i] < 0x1_0000_0000 <==> UpperZero(page, i)
  {
    hide FromLE;
    var s := page[i * 8..i * 8 + 8];
    var lo, hi := FromLE(s[..4]), FromLE(s[4..]);
    assert Words(page, 8, 512)[i] == FromLE(s);
    EightBytes(s);
    HalfBound(s[..4]);
    ZeroNumber(s[4..]);
    assert s[4..][0] == page[8 * i + 4] && s[4..][1] == page[8 * i + 5];
    assert s[4..][2] == page[8 * i + 6] && s[4..][3] == page[8 * i + 7];
    assert FromLE(s) < 0x1_0000_0000 <==> hi == 0;
  }

  lemma EightBytes(s: seq<Byte>)
    requires |s| == 8
    ensures FromLE(s) == FromLE(s[..4]) + 0x1_0000_0000 * FromLE(s[4..])
  {
    SplitNumber(s, 4);
    FourPow();
  }

  lemma FourPow()
    ensures Pow2(32) == 0x1_0000_0000
  {
    BytePow();
    PowByte(1);
    PowByte(2);
    PowByte(3);
  }

  lemma HalfBound(s: seq<Byte>)
    requires |s| == 4
    ensures FromLE(s) < 0x1_0000_0000
  {
    FromLEBound(s);
    FourPow();
  }

  lemma RouteIs(page: seq<Byte>)
    requires |page| == 4096
    ensures ClassifyPage(page) == Route(page)
  {
    hide SmallWords, ByteBlocks.NonZeroCount, ByteBlocks.MaxOf, ByteBlocks.MinOf, Words, UpperZero;
    var nz := ByteBlocks.NonZeroCount(page);
    ZerosCounted(page);
    SmallCounted(page, 512);
    assert Words(page, 8, 512)[..512] == Words(page, 8, 512);
    if nz <= 2048 {
      SomeZero(page);
      BlockLaws.Extremes(page);
      assert ByteBlocks.MinOf(page) == 0;
      assert (forall i | 0 <= i < 4096 :: page[i] <= 32) <==> ByteBlocks.MaxOf(page) <= 32 by { LargestByte(page); }
    }
  }

  lemma LargestByte(page: seq<Byte>)
    requires |page| > 0
    ensures (forall i | 0 <= i < |page| :: page[i] <= 32) <==> ByteBlocks.MaxOf(page) <= 32
  {
    hide ByteBlocks.MaxOf;
    BlockLaws.Extremes(page);
    forall i | 0 <= i < |page| ensures page[i] <= ByteBlocks.MaxOf(page) { assert page[i] in page; }
  }

  // What a page costs under the codec it is routed to.
  ghost function RoutedSize(z: Lz4, page: seq<Byte>): nat
    requires |page| == 4096
  {
    if Route(page) == 0 then 1
    else if Route(page) == 1 then |Bdi.Stream(page)|
    else if Route(page) == 2 then WkdmLaws.Cost(Wkdm.W32, Words(page, 4, 1024))
    else if Route(page) == 7 then WkdmLaws.Cost(Wkdm.W64, Words(page, 8, 512))
    else |z.compress(page)|
  }

  // And what it is packed into.
  ghost function RoutedBytes(z: Lz4, page: seq<Byte>): seq<Byte>
    requires |page| == 4096
  {
    if Route(page) == 0 then [page[0]]
    else if Route(page) == 1 then Bdi.Stream(page)
    else if Route(page) == 2 then Wkdm.StreamOf(Wkdm.W32, Wkdm.CodedOf(Wkdm.W32, page))
    else if Route(page) == 7 then Wkdm.StreamOf(Wkdm.W64, Wkdm.CodedOf(Wkdm.W64, page))
    else z.compress(page)
  }

  lemma PackedIs(z: Lz4, page: seq<Byte>)
    requires |page| == 4096
    ensures Packed(z, page).Some? <==> 0 < RoutedSize(z, page) < 4096
    ensures Packed(z, page).Some? ==>
              Packed(z, page).value == RoutedBytes(z, page) && |Packed(z, page).value| == RoutedSize(z, page)
  {
    hide ClassifyPage, Route, Wkdm.StreamOf, Wkdm.CodedOf, Wkdm.Compressible, WkdmLaws.Cost, Bdi.Stream, Words;
    RouteIs(page);
    WkdmLaws.CompressibleIff(Wkdm.W32, page, COMPRESS_BUF_SIZE);
    WkdmLaws.CompressibleIff(Wkdm.W64, page, COMPRESS_BUF_SIZE);
    CostPositive(Wkdm.W32, Words(page, 4, 1024));
    CostPositive(Wkdm.W64, Words(page, 8, 512));
    RouteRange(page);
    StreamPositive(page);
  }

  lemma CostPositive(v: Wkdm.Variant, ws: seq<nat>)
    ensures WkdmLaws.Cost(v, ws) > 0
  {
  }

  lemma StreamPositive(page: seq<Byte>)
    ensures |Bdi.Stream(page)| > 0
  {
  }

  lemma RouteRange(page: seq<Byte>)
    requires |page| == 4096
    ensures Route(page) == 0 || Route(page) == 1 || Route(page) == 2 || Route(page) == 7 || Route(page) == 3
  {
  }

  // A page routed to a WKdm codec whose words do not meet in its dictionary is accepted.
  lemma ApartAccepted(z: Lz4, page: seq<Byte>)
    requires |page| == 4096
    requires (Route(page) == 2 && WkdmLaws.Apart(Wkdm.W32, Words(page, 4, 1024)))
             || (Route(page) == 7 && WkdmLaws.Apart(Wkdm.W64, Words(page, 8, 512)))
    ensures Packed(z, page).Some?
  {
    hide ClassifyPage, Route, Wkdm.StreamOf, Wkdm.CodedOf, Wkdm.Compressible, WkdmLaws.Cost, WkdmLaws.Apart, Words;
    RouteIs(page);
    WkdmLaws.ApartCost(if Route(page) == 2 then Wkdm.W32 else Wkdm.W64, page);
  }

  // ---- Compression ----

  // What the compression buffer holds after a successful compression of a page.
  function Packed(z: Lz4, page: seq<Byte>): (o: Option<seq<Byte>>)
    requires |page| == PAGE_SIZE
    ensures o.Some? ==> 0 < |o.value| < PAGE_SIZE
  {
    var algo := ClassifyPage(page);
    if algo == SAME_PAGE then Some([page[0]])
    else if algo == BDI then
      if Bdi.Compressible(page, COMPRESS_BUF_SIZE) then Some(Bdi.Stream(page)) else None
    else if algo == WKDM then PackedWkdm(Wkdm.W32, page)
    else if algo == WKDM64 then PackedWkdm(Wkdm.W64, page)
    else if 0 < |z.compress(page)| < PAGE_SIZE then Some(z.compress(page)) else None
  }

  function PackedWkdm(v: Wkdm.Variant, page: seq<Byte>): (o: Option<seq<Byte>>)
    requires |page| == PAGE_SIZE
    ensures o.Some? ==> 0 < |o.value| < PAGE_SIZE
  {
    if Wkdm.Compressible(v, page, COMPRESS_BUF_SIZE) then Some(Wkdm.StreamOf(v, Wkdm.CodedOf(v, page))) else None
  }

  // The scratch area of one WKdm call lives on its stack.
  method CompressWkdm(v: Wkdm.Variant, page: seq<Byte>, buf: array<Byte>) returns (csz: nat)
    requires |page| == PAGE_SIZE && buf.Length == COMPRESS_BUF_SIZE
    modifies buf
    ensures csz > 0 <==> PackedWkdm(v, page).Some?
    ensures csz > 0 ==>
              csz == |PackedWkdm(v, page).value| && Written(old(buf[..]), buf[..], 0, PackedWkdm(v, page).value)
  {
    hide Wkdm.StreamOf, Wkdm.CodedOf, Written;
    var tags, exact := new Byte[1024](_ => 0), new Byte[1024](_ => 0);
    var partials, misses := new Byte[if v.W32? then 2048 else 4096](_ => 0), new Byte[4096](_ => 0);
    csz := Wkdm.Compress(v, page, buf, Wkdm.Scratch(tags, exact, partials, misses));
  }

  method CompressLz4(z: Lz4, page: seq<Byte>, buf: array<Byte>) returns (csz: nat)
    requires |page| == PAGE_SIZE && buf.Length == COMPRESS_BUF_SIZE
    modifies buf
    ensures csz > 0 <==> 0 < |z.compress(page)| < PAGE_SIZE
    ensures csz > 0 ==> csz == |z.compress(page)| && Written(old(buf[..]), buf[..], 0, z.compress(page))
  {
    var result := z.compress(page);
    if |result| == 0 || |result| >= |page| { return 0; }
    Copy(result, buf, 0);
    return |result|;
  }

  // minimem_compress_page.  The classifier never answers BLOCK_CLASS, so that case of
  // the dispatch is only reached on the way back.
  method CompressPage(z: Lz4, page: seq<Byte>, buf: array<Byte>) returns (status: int, algo: nat, csz: nat)
    requires buf.Length == COMPRESS_BUF_SIZE
    modifies buf
    ensures status == ERROR <==> |page| != PAGE_SIZE
    ensures status == OK <==> |page| == PAGE_SIZE && Packed(z, page).Some?
    ensures status == OK || status == ERROR || status == INCOMPRESSIBLE
    ensures status == OK ==> algo == ClassifyPage(page) && 0 < csz < PAGE_SIZE
    ensures status == OK <==> |page| == 4096 && 0 < RoutedSize(z, page) < 4096
    ensures status == OK ==>
              algo == Route(page) && csz == RoutedSize(z, page) && buf[..csz] == RoutedBytes(z, page)
    ensures status == OK ==> csz == |Packed(z, page).value| && Written(old(buf[..]), buf[..], 0, Packed(z, page).value)
  {
    hide Bdi.Stream, PackedWkdm, Written, RoutedSize, RoutedBytes, Route;
    if |page| != PAGE_SIZE { return ERROR, 0, 0; }
    PackedIs(z, page);
    RouteIs(page);
    ghost var before := buf[..];
    algo := Classify(page);
    if algo == SAME_PAGE {
      ghost var was := buf[..];
      buf[0] := page[0];
      WrittenByte(was, 0, page[0]);
      csz := 1;
    } else if algo == BDI {
      csz := Bdi.Compress(page, buf);
    } else if algo == WKDM {
      csz := CompressWkdm(Wkdm.W32, page, buf);
    } else if algo == WKDM64 {
      csz := CompressWkdm(Wkdm.W64, page, buf);
    } else {
      csz := CompressLz4(z, page, buf);
    }
    status := if csz == 0 then INCOMPRESSIBLE else OK;
    if status == OK { WrittenHolds(before, buf[..], 0, Packed(z, page).value); }
  }

  lemma WrittenByte(s: seq<Byte>, off: nat, b: Byte)
    requires off < |s|
    ensures Written(s, s[off := b], off, [b])
  {
  }

  // ---- Decompression ----

  // Streams the WKdm and block decoders can read without leaving their buffers.
  predicate Readable(s: seq<Byte>, algo: nat) {
    if algo == WKDM then Wkdm.ExactReadable(Wkdm.W32, s, PAGE_SIZE)
    else if algo == WKDM64 then Wkdm.ExactReadable(Wkdm.W64, s, PAGE_SIZE)
    else algo == BLOCK_CLASS ==> BlockStreams.TypesReadable(s, 1)
  }

  function WholePage(o: Option<seq<Byte>>): (r: Option<seq<Byte>>)
    ensures r.Some? ==> |r.value| == PAGE_SIZE
  {
    if o.Some? && |o.value| == PAGE_SIZE then o else None
  }

  // The page a stored stream decodes to under the recorded algorithm.
  function Unpacked(z: Lz4, s: seq<Byte>, algo: nat): (o: Option<seq<Byte>>)
    requires Readable(s, algo)
    ensures o.Some? ==> |o.value| == PAGE_SIZE
  {
    if algo == SAME_PAGE then
      if |s| < 1 then None else Some(ByteBlocks.Repeat(s[0], PAGE_SIZE))
    else if algo == BDI then WholePage(Bdi.Decode(s, PAGE_SIZE))
    else if algo == WKDM then WholePage(Wkdm.Decode(Wkdm.W32, s, PAGE_SIZE))
    else if algo == WKDM64 then WholePage(Wkdm.Decode(Wkdm.W64, s, PAGE_SIZE))
    else if algo == BLOCK_CLASS then WholePage(BlockClass.Decode(s, PAGE_SIZE))
    else if algo == LZ4 then WholePage(Some(z.decompress(s)))
    else None
  }

  method DecompressLz4(z: Lz4, s: seq<Byte>, dst: array<Byte>) returns (dsz: nat)
    requires dst.Length == PAGE_SIZE
    modifies dst
    ensures dsz == PAGE_SIZE <==> |z.decompress(s)| == PAGE_SIZE
    ensures dsz == PAGE_SIZE ==> dst[..] == z.decompress(s)
  {
    var out := z.decompress(s);
    if |out| > dst.Length { return 0; }
    Copy(out, dst, 0);
    return |out|;
  }

  // minimem_decompress_page: a destination or a result of any other size than a page is
  // an error.
  method DecompressPage(z: Lz4, s: seq<Byte>, algo: nat, dst: array<Byte>) returns (status: int)
    requires Readable(s, algo)
    modifies dst
    ensures status == OK <==> dst.Length == PAGE_SIZE && Unpacked(z, s, algo).Some?
    ensures status == OK || status == ERROR
    ensures status == OK ==> dst[..] == Unpacked(z, s, algo).value
    ensures dst.Length != PAGE_SIZE ==> dst[..] == old(dst[..])
  {
    hide Bdi.Decode, Wkdm.Decode, BlockClass.Decode, Wkdm.ExactReadable, BlockStreams.TypesReadable, Written;
    if dst.Length != PAGE_SIZE { return ERROR; }
    var dsz := 0;
    ghost var was := dst[..];
    if algo == SAME_PAGE {
      if |s| >= 1 {
        Copy(ByteBlocks.Repeat(s[0], PAGE_SIZE), dst, 0);
        WrittenWhole(was, dst[..], ByteBlocks.Repeat(s[0], PAGE_SIZE));
        dsz := PAGE_SIZE;
      }
    } else if algo == BDI {
      dsz := Bdi.Decompress(s, dst);
      if dsz == PAGE_SIZE { WrittenWhole(was, dst[..], Bdi.Decode(s, PAGE_SIZE).value); }
    } else if algo == WKDM {
      dsz := Wkdm.Decompress(Wkdm.W32, s, dst);
      if dsz == PAGE_SIZE { WrittenWhole(was, dst[..], Wkdm.Decode(Wkdm.W32, s, PAGE_SIZE).value); }
    } else if algo == WKDM64 {
      dsz := Wkdm.Decompress(Wkdm.W64, s, dst);
      if dsz == PAGE_SIZE { WrittenWhole(was, dst[..], Wkdm.Decode(Wkdm.W64, s, PAGE_SIZE).value); }
    } else if algo == BLOCK_CLASS {
      dsz := BlockClass.Decompress(s, dst, PAGE_SIZE);
      if dsz == PAGE_SIZE { WrittenWhole(was, dst[..], BlockClass.Decode(s, PAGE_SIZE).value); }
    } else if algo == LZ4 {
      dsz := DecompressLz4(z, s, dst);
    } else {
      return ERROR;
    }
    status := if dsz != PAGE_SIZE then ERROR else OK;
  }

  // ---- The page that comes back ----

  // The contents of a page after it has been compressed and decompressed.
  function Restored(page: seq<Byte>): (r: seq<Byte>)
    requires |page| == PAGE_SIZE
    ensures |r| == PAGE_SIZE
  {
    if ClassifyPage(page) == BDI then Bdi.ReturnedPage(page) else page
  }

  // Every accepted page is readable under its recorded algorithm.
  lemma PackReadable(z: Lz4, page: seq<Byte>)
    requires |page| == PAGE_SIZE && Packed(z, page).Some?
    ensures Readable(Packed(z, page).value, ClassifyPage(page))
  {
    hide Wkdm.StreamOf, Wkdm.CodedOf, Wkdm.Decode, Wkdm.ExactReadable, Bdi.Stream;
    var algo := ClassifyPage(page);
    if algo == WKDM { Wkdm.Lossless(Wkdm.W32, page, PAGE_SIZE); }
    if algo == WKDM64 { Wkdm.Lossless(Wkdm.W64, page, PAGE_SIZE); }
  }

  // Every accepted page decodes under its recorded algorithm: exactly, if it was
  // routed to any codec other than BDI.
  lemma PackUnpack(z: Lz4, page: seq<Byte>)
    requires LosslessLz4(z) && |page| == PAGE_SIZE && Packed(z, page).Some?
    ensures Readable(Packed(z, page).value, ClassifyPage(page))
    ensures Unpacked(z, Packed(z, page).value, ClassifyPage(page)) == Some(Restored(page))
  {
    hide Bdi.Stream, Bdi.Decode, Bdi.ReturnedPage, Wkdm.StreamOf, Wkdm.CodedOf, Wkdm.Decode, Wkdm.ExactReadable;
    PackReadable(z, page);
    var algo := ClassifyPage(page);
    if algo == SAME_PAGE {
      assert ByteBlocks.Repeat(page[0], PAGE_SIZE) == page;
    } else if algo == BDI {
      Bdi.Returns(page, PAGE_SIZE);
    } else if algo == WKDM {
      Wkdm.Lossless(Wkdm.W32, page, PAGE_SIZE);
    } else if algo == WKDM64 {
      Wkdm.Lossless(Wkdm.W64, page, PAGE_SIZE);
    }
  }

  // A page packed by the block classifier, which the kernel can only unpack, comes back too.
  lemma BlockClassUnpacks(z: Lz4, page: seq<Byte>)
    requires |page| == 4096
    ensures Readable(BlockClass.Stream(page), 8) && Unpacked(z, BlockClass.Stream(page), 8) == Some(page)
  {
    hide BlockClass.Stream, BlockClass.Decode, BlockStreams.TypesReadable;
    BlockClass.Lossless(page, PAGE_SIZE);
  }

  // A page survives the trip exactly if it was not routed to BDI or all its BDI
  // deltas lie in the decoder's window.
  predicate Survives(page: seq<Byte>)
    requires |page| == PAGE_SIZE
  {
    ClassifyPage(page) != BDI || Bdi.Exact(page)
  }

  lemma RestoredIff(page: seq<Byte>)
    requires |page| == PAGE_SIZE
    ensures Restored(page) == page <==> Survives(page)
  {
    hide Bdi.ReturnedPage, Bdi.Exact;
    if ClassifyPage(page) == BDI { Bdi.LosslessIff(page); }
  }

  // ---- What kinds of deltas a page routed to BDI can have ----

  lemma BdiPageBytes(page: seq<Byte>)
    requires ClassifyPage(page) == BDI
    ensures |page| == PAGE_SIZE && forall i | 0 <= i < PAGE_SIZE :: page[i] <= 32
  {
    hide ByteBlocks.NonZeroCount, ByteBlocks.MaxOf, ByteBlocks.MinOf;
    SomeZero(page);
    assert ByteBlocks.MinOf(page) == 0;
    forall i | 0 <= i < PAGE_SIZE ensures page[i] <= 32 { assert page[i] in page; }
  }

  lemma {:induction false} SomeZero(s: seq<Byte>)
    requires ByteBlocks.NonZeroCount(s) < |s|
    ensures 0 in s
  {
    var k := |s| - 1;
    assert s == s[..k] + [s[k]];
    if s[k] != 0 { SomeZero(s[..k]); }
  }

  // All bytes are at most 32, so a delta below 256 in magnitude is either small
  // enough to be exact or so large that it is certainly lost: nothing in between.
  lemma BdiDeltas(page: seq<Byte>, b: nat, i: nat)
    requires |page| == PAGE_SIZE && ClassifyPage(page) == BDI && b < 64 && i < Bdi.LINE_WORDS
    requires Bdi.LineType(Bdi.LineWords(BlockStreams.Chunk(page, b))) == Bdi.BASE_DELTA2
    ensures var ws := Bdi.LineWords(BlockStreams.Chunk(page, b));
            && (Bdi.Distance(ws[i], ws[0]) <= 32 || 224 <= Bdi.Distance(ws[i], ws[0]) <= 255)
            && (Bdi.InWindow(ws[i], ws[0]) <==> Bdi.Distance(ws[i], ws[0]) <= 32)
  {
    hide ClassifyPage;
    BdiPageBytes(page);
    assert |page| == PAGE_SIZE;
    var line := BlockStreams.Chunk(page, b);
    var ws := Bdi.LineWords(line);
    LowByte(line, i);
    LowByte(line, 0);
    ByteDistance(ws[i], ws[0]);
  }

  lemma LowByte(line: seq<Byte>, i: nat)
    requires |line| == Bdi.LINE_SIZE && i < Bdi.LINE_WORDS
    ensures Bdi.LineWords(line)[i] % 256 == line[8 * i]
  {
    var s := line[i * 8..i * 8 + 8];
    assert FromLE(s) == s[0] + 256 * FromLE(s[1..]);
    assert s[0] == line[8 * i];
  }

  lemma ByteDistance(a: nat, b: nat)
    requires a % 256 <= 32 && b % 256 <= 32 && Bdi.Distance(a, b) < 256
    ensures Bdi.Distance(a, b) <= 32 || 224 <= Bdi.Distance(a, b)
  {
    assert a == 256 * (a / 256) + a % 256 && b == 256 * (b / 256) + b % 256;
    assert a / 256 <= b / 256 + 1 && b / 256 <= a / 256 + 1;
  }

  // ---- A page that is altered ----

  // All zero but for the words 1 and 256 at its start.
  function LossyPage(): (page: seq<Byte>)
    ensures |page| == PAGE_SIZE
    ensures forall i | 0 <= i < PAGE_SIZE :: page[i] == if i == 0 || i == 9 then 1 else 0
  {
    seq(PAGE_SIZE, i => if i == 0 || i == 9 then 1 else 0)
  }

  lemma {:induction false} FewNonZeros(s: seq<Byte>, k: nat)
    requires forall i | k <= i < |s| :: s[i] == 0
    ensures ByteBlocks.NonZeroCount(s) <= k
  {
    if |s| > k { FewNonZeros(s[..|s| - 1], k); }
  }

  lemma {:induction false} MaxBound(s: seq<Byte>, m: Byte)
    requires forall i | 0 <= i < |s| :: s[i] <= m
    ensures ByteBlocks.MaxOf(s) <= m
  {
    if |s| > 0 { MaxBound(s[..|s| - 1], m); }
  }

  lemma LossyPageIsBdi()
    ensures ClassifyPage(LossyPage()) == BDI
  {
    hide ByteBlocks.NonZeroCount, ByteBlocks.MaxOf, ByteBlocks.MinOf;
    FewNonZeros(LossyPage(), 10);
    MaxBound(LossyPage(), 1);
    assert LossyPage()[0] == 1 && LossyPage()[1] == 0;
  }

  lemma {:induction false} ZeroWord(s: seq<Byte>)
    requires forall i | 0 <= i < |s| :: s[i] == 0
    ensures FromLE(s) == 0
  {
    if |s| > 0 { ZeroWord(s[1..]); }
  }

  // 256^k, as eight little-endian bytes with a one in position k, for k = 0 and 1.
  lemma OneWord(s: seq<Byte>, k: nat)
    requires |s| == 8 && k < 2 && forall i | 0 <= i < 8 :: s[i] == if i == k then 1 else 0
    ensures FromLE(s) == if k == 0 then 1 else 256
  {
    var t := s[1..];
    assert FromLE(s) == s[0] + 256 * FromLE(t);
    if k == 0 {
      ZeroWord(t);
    } else {
      ZeroWord(t[1..]);
      assert FromLE(t) == t[0] + 256 * FromLE(t[1..]);
    }
  }

  lemma LossyWords(line: seq<Byte>)
    requires line == BlockStreams.Chunk(LossyPage(), 0)
    ensures var ws := Bdi.LineWords(line);
            ws[0] == 1 && ws[1] == 256 && forall i | 2 <= i < Bdi.LINE_WORDS :: ws[i] == 0
    ensures Bdi.LineType(Bdi.LineWords(line)) == Bdi.BASE_DELTA2
    ensures !Bdi.LineExact(line)
  {
    var ws := Bdi.LineWords(line);
    assert forall j | 0 <= j < Bdi.LINE_SIZE :: line[j] == if j == 0 || j == 9 then 1 else 0;
    OneWord(line[0..8], 0);
    OneWord(line[8..16], 1);
    assert ws[0] == FromLE(line[0..8]) && ws[1] == FromLE(line[8..16]);
    forall i | 2 <= i < Bdi.LINE_WORDS ensures ws[i] == 0 { ZeroWord(line[i * 8..i * 8 + 8]); }
    assert !Bdi.InWindow(ws[1], ws[0]);
  }

  lemma {:induction false} ZeroLines(lines: seq<seq<Byte>>, b: nat)
    requires b <= |lines| && forall l | l in lines :: |l| == Bdi.LINE_SIZE
    requires forall k | b <= k < |lines| :: Bdi.LineType(Bdi.LineWords(lines[k])) == Bdi.ZEROS
    ensures |Bdi.EncodeLines(lines, b)| == |lines| - b
    decreases |lines| - b
  {
    hide Bdi.LineWords, Bdi.LineType;
    if b < |lines| { ZeroLines(lines, b + 1); }
  }

  lemma LossyStream()
    ensures Bdi.Compressible(LossyPage(), COMPRESS_BUF_SIZE)
  {
    hide Bdi.LineWords, Bdi.LineType, ToLE;
    var page := LossyPage();
    var lines := BlockStreams.Chunks(page);
    LossyWords(lines[0]);
    forall k | 1 <= k < 64 ensures Bdi.LineType(Bdi.LineWords(lines[k])) == Bdi.ZEROS {
      ZeroLineType(BlockStreams.Chunk(page, k));
    }
    ZeroLines(lines, 1);
    Bits.BytePow();
    assert Bdi.EncodeLines(lines, 0) == Bdi.EncodeLine(lines[0]) + Bdi.EncodeLines(lines, 1);
  }

  lemma ZeroLineType(line: seq<Byte>)
    requires |line| == Bdi.LINE_SIZE && forall i | 0 <= i < Bdi.LINE_SIZE :: line[i] == 0
    ensures Bdi.LineType(Bdi.LineWords(line)) == Bdi.ZEROS
  {
    forall i | 0 <= i < Bdi.LINE_WORDS ensures Bdi.LineWords(line)[i] == 0 { ZeroWord(line[i * 8..i * 8 + 8]); }
  }

  // The dispatch is not lossless: this page is routed to BDI, accepted, and comes
  // back changed.
  lemma DispatchLosesAPage(z: Lz4)
    ensures Packed(z, LossyPage()).Some?
    ensures !Survives(LossyPage()) && Restored(LossyPage()) != LossyPage()
  {
    hide Bdi.Stream, Bdi.LineExact, Bdi.Compressible, ClassifyPage, Restored;
    LossyPageIsBdi();
    LossyStream();
    var line := BlockStreams.Chunk(LossyPage(), 0);
    LossyWords(line);
    assert BlockStreams.Chunks(LossyPage())[0] == line;
    assert line in BlockStreams.Chunks(LossyPage());
    RestoredIff(LossyPage());
  }
}
