/**
  BDI: every 64-byte line is stored as zeros, as one repeated word, as a base word
  and eight 8-bit deltas, or raw.  The encoder accepts deltas of magnitude up to 255,
  but the decoder sign-extends the stored byte from bit 7: this module proves exactly
  which lines survive.
*/
module Bdi {
  import opened Bits
  import opened Buffers
  import opened Packing
  import opened ByteBlocks
  import opened BlockStreams

  const LINE_SIZE := 64
  const LINE_WORDS := 8
  const DELTA_BITS := 8
  const TWO64 := 0x1_0000_0000_0000_0000

  const UNCOMPRESSED: Byte := 0
  const ZEROS: Byte := 1
  const BASE_DELTA: Byte := 2
  const BASE_DELTA2: Byte := 3

  function LineWords(line: seq<Byte>): (ws: seq<nat>)
    requires |line| == LINE_SIZE
    ensures |ws| == LINE_WORDS
  {
    Words(line, 8, LINE_WORDS)
  }

  lemma LineWordsBound(line: seq<Byte>)
    requires |line| == LINE_SIZE
    ensures forall i | 0 <= i < LINE_WORDS :: LineWords(line)[i] < TWO64
  {
    Pow64();
    forall i | 0 <= i < LINE_WORDS ensures LineWords(line)[i] < TWO64 {
      FromLEBound(line[i * 8..i * 8 + 8]);
    }
  }

  lemma Pow64()
    ensures Pow2(64) == TWO64
  {
    BytePow();
    PowByte(1); PowByte(2); PowByte(3); PowByte(4); PowByte(5); PowByte(6); PowByte(7);
  }

  function Distance(a: nat, b: nat): nat {
    if a >= b then a - b else b - a
  }

  function LineType(ws: seq<nat>): Byte
    requires |ws| == LINE_WORDS
  {
    if forall i | 0 <= i < LINE_WORDS :: ws[i] == 0 then ZEROS
    else if forall i | 0 <= i < LINE_WORDS :: ws[i] == ws[0] then BASE_DELTA
    else if forall i | 0 <= i < LINE_WORDS :: Distance(ws[i], ws[0]) < 256 then BASE_DELTA2
    else UNCOMPRESSED
  }

  // bdi_classify_line
  method ClassifyLine(ws: seq<nat>) returns (ty: Byte, base: nat)
    requires |ws| == LINE_WORDS
    ensures ty == LineType(ws)
    ensures ty == BASE_DELTA || ty == BASE_DELTA2 ==> base == ws[0]
  {
    base := ws[0];
    var allZero, allSame := true, true;
    var maxDelta: nat := 0;
    for i := 0 to LINE_WORDS
      invariant allZero == (forall k | 0 <= k < i :: ws[k] == 0)
      invariant allSame == (forall k | 0 <= k < i :: ws[k] == base)
      invariant (maxDelta < 256) == (forall k | 0 <= k < i :: Distance(ws[k], base) < 256)
    {
      if ws[i] != 0 { allZero := false; }
      if ws[i] != base { allSame := false; }
      var delta := if ws[i] >= base then ws[i] - base else base - ws[i];
      if delta > maxDelta { maxDelta := delta; }
    }
    if allZero { return ZEROS, 0; }
    if allSame { return BASE_DELTA, base; }
    if maxDelta < 256 { return BASE_DELTA2, base; }
    return UNCOMPRESSED, base;
  }

  // (uint64_t)((int64_t)w - (int64_t)base), of which the low eight bits are stored.
  function UnsignedDelta(w: nat, base: nat): nat {
    (w - base) % TWO64
  }

  function DeltaByte(w: nat, base: nat): Byte {
    UnsignedDelta(w, base) % 256
  }

  function DeltaBytes(ws: seq<nat>): (ds: seq<Byte>)
    requires |ws| == LINE_WORDS
    ensures |ds| == LINE_WORDS
  {
    seq(LINE_WORDS, i requires 0 <= i < LINE_WORDS => DeltaByte(ws[i], ws[0]))
  }

  function EncodeLine(line: seq<Byte>): (e: seq<Byte>)
    requires |line| == LINE_SIZE
    ensures 0 < |e| <= 1 + LINE_SIZE
  {
    var ws := LineWords(line);
    var ty := LineType(ws);
    if ty == ZEROS then [ZEROS]
    else if ty == BASE_DELTA then [BASE_DELTA] + ToLE(ws[0], 8)
    else if ty == BASE_DELTA2 then [BASE_DELTA2] + ToLE(ws[0], 8) + Pack(DeltaBytes(ws), DELTA_BITS)
    else [UNCOMPRESSED] + line
  }

  function EncodeLines(lines: seq<seq<Byte>>, b: nat): seq<Byte>
    requires b <= |lines| && forall l | l in lines :: |l| == LINE_SIZE
    decreases |lines| - b
  {
    if b == |lines| then [] else EncodeLine(lines[b]) + EncodeLines(lines, b + 1)
  }

  function Stream(src: seq<Byte>): seq<Byte> {
    ToLE(|src| / LINE_SIZE, 4) + EncodeLines(Chunks(src), 0)
  }

  predicate Compressible(src: seq<Byte>, dstCap: nat) {
    && |src| > 0
    && |src| % LINE_SIZE == 0
    && |Stream(src)| <= dstCap
    && |Stream(src)| < |src|
  }

  // One line, with the capacity check each line type makes before it writes.
  method WriteLine(line: seq<Byte>, dst: array<Byte>, outPos: nat) returns (ok: bool, next: nat)
    requires |line| == LINE_SIZE && outPos <= dst.Length
    modifies dst
    ensures ok == (outPos + |EncodeLine(line)| <= dst.Length)
    ensures ok ==> next == outPos + |EncodeLine(line)| && Written(old(dst[..]), dst[..], outPos, EncodeLine(line))
  {
    hide Pack, ToLE, LineType, Words, DeltaBytes;
    next := outPos;
    var ws := LineWords(line);
    var ty, base := ClassifyLine(ws);
    if ty == ZEROS {
      if outPos + 1 > dst.Length { return false, next; }
      dst[outPos] := ZEROS;
      next := outPos + 1;
    } else if ty == BASE_DELTA {
      if outPos + 1 + 8 > dst.Length { return false, next; }
      WriteTagged(BASE_DELTA, ToLE(base, 8), dst, outPos);
      next := outPos + 9;
    } else if ty == BASE_DELTA2 {
      if outPos + 17 > dst.Length { return false, next; }
      WriteDeltas(ws, dst, outPos);
      next := outPos + 17;
    } else {
      if outPos + 1 + LINE_SIZE > dst.Length { return false, next; }
      WriteTagged(UNCOMPRESSED, line, dst, outPos);
      next := outPos + 1 + LINE_SIZE;
    }
    ok := true;
  }

  method WriteTagged(tag: Byte, e: seq<Byte>, dst: array<Byte>, outPos: nat)
    requires outPos + 1 + |e| <= dst.Length
    modifies dst
    ensures Written(old(dst[..]), dst[..], outPos, [tag] + e)
  {
    ghost var s0 := dst[..];
    dst[outPos] := tag;
    ghost var s1 := dst[..];
    Copy(e, dst, outPos + 1);
    WrittenThen(s0, s1, dst[..], outPos, [tag], e);
  }

  method WriteDeltas(ws: seq<nat>, dst: array<Byte>, outPos: nat)
    requires |ws| == LINE_WORDS && outPos + 17 <= dst.Length
    modifies dst
    ensures Written(old(dst[..]), dst[..], outPos, [BASE_DELTA2] + ToLE(ws[0], 8) + Pack(DeltaBytes(ws), DELTA_BITS))
  {
    hide Pack, ToLE;
    ghost var s0 := dst[..];
    dst[outPos] := BASE_DELTA2;
    ghost var s1 := dst[..];
    Copy(ToLE(ws[0], 8), dst, outPos + 1);
    ghost var s2 := dst[..];
    WrittenThen(s0, s1, s2, outPos, [BASE_DELTA2], ToLE(ws[0], 8));
    Clear(dst, outPos + 9, 8);
    ghost var s3 := dst[..];
    PackBits(DeltaBytes(ws), DELTA_BITS, dst, outPos + 9);
    assert Written(s2, dst[..], outPos + 9, Pack(DeltaBytes(ws), DELTA_BITS));
    WrittenThen(s0, s2, dst[..], outPos, [BASE_DELTA2] + ToLE(ws[0], 8), Pack(DeltaBytes(ws), DELTA_BITS));
  }

  // The number of lines is stored in 32 bits, whatever it is.
  method Compress(src: seq<Byte>, dst: array<Byte>) returns (r: nat)
    modifies dst
    ensures r > 0 <==> Compressible(src, dst.Length)
    ensures r > 0 ==> r == |Stream(src)| && Written(old(dst[..]), dst[..], 0, Stream(src))
  {
    hide EncodeLine, Written, ToLE;
    if |src| == 0 || |src| % LINE_SIZE != 0 { return 0; }
    var lines := Chunks(src);
    if 4 > dst.Length { return 0; }
    ghost var s0 := dst[..];
    Copy(ToLE(|lines|, 4), dst, 0);
    var outPos: nat := 4;
    ghost var done := ToLE(|lines|, 4);
    for b := 0 to |lines|
      invariant outPos == |done| <= dst.Length
      invariant done + EncodeLines(lines, b) == Stream(src)
      invariant Written(s0, dst[..], 0, done)
    {
      ghost var was, e := dst[..], EncodeLine(lines[b]);
      AppendSeq(done, e, EncodeLines(lines, b + 1));
      var ok, next := WriteLine(lines[b], dst, outPos);
      if !ok { return 0; }
      WrittenThen(s0, was, dst[..], 0, done, e);
      done := done + e;
      outPos := next;
    }
    assert done + [] == done;
    if outPos >= |src| { return 0; }
    return outPos;
  }

  // ---- Decoding ----

  function SignExtend(d: Byte): int {
    if d >= 128 then d - 256 else d
  }

  function RestoreWord(d: Byte, base: nat): nat {
    (base + SignExtend(d)) % TWO64
  }

  function DeltaWord(s: seq<Byte>, base: nat, pos: nat, i: nat): nat
    requires pos + LINE_WORDS <= |s| && i < LINE_WORDS
  {
    DeltaFieldByte(s, 8 * pos + i * DELTA_BITS);
    RestoreWord(FieldAt(s, 8 * pos + i * DELTA_BITS, DELTA_BITS), base)
  }

  lemma DeltaFieldByte(s: seq<Byte>, p: nat)
    requires p + 8 <= 8 * |s|
    ensures FieldAt(s, p, 8) < 256
  {
    BytePow();
    FieldAtBit(s, p, 8, 0);
  }

  function DeltaWords(s: seq<Byte>, base: nat, pos: nat): (ws: seq<nat>)
    requires pos + LINE_WORDS <= |s|
    ensures |ws| == LINE_WORDS
  {
    seq(LINE_WORDS, i requires 0 <= i < LINE_WORDS => DeltaWord(s, base, pos, i))
  }

  function SameWords(base: nat): (ws: seq<nat>)
    ensures |ws| == LINE_WORDS
  {
    seq(LINE_WORDS, _ => base)
  }

  function DecodeLine(s: seq<Byte>, pos: nat): (d: Decoded)
    ensures d.Decoded? ==> |d.bytes| == LINE_SIZE && pos < d.next <= |s|
  {
    if pos >= |s| then Fail
    else if s[pos] == ZEROS then Decoded(Repeat(0, LINE_SIZE), pos + 1)
    else if s[pos] == BASE_DELTA then
      if pos + 9 > |s| then Fail
      else Decoded(BytesOf(SameWords(FromLE(s[pos + 1..pos + 9])), 8), pos + 9)
    else if s[pos] == BASE_DELTA2 then
      if pos + 9 > |s| || pos + 17 > |s| then Fail
      else Decoded(BytesOf(DeltaWords(s, FromLE(s[pos + 1..pos + 9]), pos + 9), 8), pos + 17)
    else if pos + 1 + LINE_SIZE > |s| then Fail
    else Decoded(s[pos + 1..pos + 1 + LINE_SIZE], pos + 1 + LINE_SIZE)
  }

  // The next k lines.
  function DecodeLines(s: seq<Byte>, k: nat, pos: nat): (d: Decoded)
    ensures d.Decoded? ==> |d.bytes| == LINE_SIZE * k
  {
    if k == 0 then Decoded([], pos) else
      var d := DecodeLine(s, pos);
      if d.Fail? then Fail else Prepend(d.bytes, DecodeLines(s, k - 1, d.next))
  }

  function Decode(s: seq<Byte>, dstCap: nat): (o: Option<seq<Byte>>)
    ensures o.Some? ==> 0 < |o.value| <= dstCap
  {
    if |s| < 4 then None else
      var n := FromLE(s[0..4]);
      if n * LINE_SIZE == 0 || dstCap < n * LINE_SIZE then None else
        var d := DecodeLines(s, n, 4);
        if d.Fail? then None else Some(d.bytes)
  }

  method StoreWords(ws: seq<nat>, dst: array<Byte>, off: nat)
    requires |ws| == LINE_WORDS && off + LINE_SIZE <= dst.Length
    modifies dst
    ensures Written(old(dst[..]), dst[..], off, BytesOf(ws, 8))
  {
    hide Written, ToLE, BytesOf;
    ghost var s0 := dst[..];
    WrittenNothing(s0, off);
    assert BytesOf([], 8) == [];
    for i := 0 to LINE_WORDS
      invariant Written(s0, dst[..], off, BytesOf(ws[..i], 8))
    {
      ghost var was := dst[..];
      Copy(ToLE(ws[i], 8), dst, off + 8 * i);
      WrittenThen(s0, was, dst[..], off, BytesOf(ws[..i], 8), ToLE(ws[i], 8));
      BytesOfOne(ws[..i], ws[i], 8);
      assert ws[..i + 1] == ws[..i] + [ws[i]];
    }
    assert ws[..LINE_WORDS] == ws;
  }

  method ReadDeltas(s: seq<Byte>, base: nat, pos: nat, dst: array<Byte>, off: nat)
    requires pos + LINE_WORDS <= |s| && off + LINE_SIZE <= dst.Length
    modifies dst
    ensures Written(old(dst[..]), dst[..], off, BytesOf(DeltaWords(s, base, pos), 8))
  {
    hide RestoreWord, FieldAt, BytesOf;
    ghost var all := DeltaWords(s, base, pos);
    var ws: seq<nat> := [];
    for i := 0 to LINE_WORDS
      invariant |ws| == i && forall k | 0 <= k < i :: ws[k] == all[k]
      invariant dst[..] == old(dst[..])
    {
      DeltaFieldByte(s, 8 * pos + i * DELTA_BITS);
      var unsignedDelta := UnpackBits(s, 8 * pos + i * DELTA_BITS, DELTA_BITS);
      ws := ws + [RestoreWord(unsignedDelta, base)];
    }
    assert ws == all;
    StoreWords(ws, dst, off);
  }

  method ReadLine(s: seq<Byte>, pos: nat, dst: array<Byte>, off: nat) returns (ok: bool, next: nat)
    requires off + LINE_SIZE <= dst.Length
    modifies dst
    ensures ok == DecodeLine(s, pos).Decoded?
    ensures ok ==> next == DecodeLine(s, pos).next && Written(old(dst[..]), dst[..], off, DecodeLine(s, pos).bytes)
  {
    hide BytesOf, DeltaWords, FromLE, SameWords;
    next := pos;
    if pos >= |s| { return false, next; }
    var ty := s[pos];
    if ty == ZEROS {
      Copy(Repeat(0, LINE_SIZE), dst, off);
      next := pos + 1;
    } else if ty == BASE_DELTA {
      if pos + 9 > |s| { return false, next; }
      StoreWords(SameWords(FromLE(s[pos + 1..pos + 9])), dst, off);
      next := pos + 9;
    } else if ty == BASE_DELTA2 {
      if pos + 9 > |s| { return false, next; }
      if pos + 17 > |s| { return false, next; }
      ReadDeltas(s, FromLE(s[pos + 1..pos + 9]), pos + 9, dst, off);
      next := pos + 17;
    } else {
      if pos + 1 + LINE_SIZE > |s| { return false, next; }
      Copy(s[pos + 1..pos + 1 + LINE_SIZE], dst, off);
      next := pos + 1 + LINE_SIZE;
    }
    ok := true;
  }

  // The decoder's own tests that a line fits the output can never fire: the total
  // is compared with the capacity before the loop.
  method Decompress(s: seq<Byte>, dst: array<Byte>) returns (r: nat)
    modifies dst
    ensures r > 0 <==> Decode(s, dst.Length).Some?
    ensures r > 0 ==>
              r == |Decode(s, dst.Length).value| && Written(old(dst[..]), dst[..], 0, Decode(s, dst.Length).value)
  {
    hide DecodeLine, FromLE, Written, Prepend;
    if |s| < 4 { return 0; }
    var n := FromLE(s[0..4]);
    var total := n * LINE_SIZE;
    if total == 0 || dst.Length < total { return 0; }
    var inPos, outPos: nat := 4, 0;
    ghost var s0, done: seq<Byte> := dst[..], [];
    ghost var all := DecodeLines(s, n, 4);
    PrependEmpty(all);
    WrittenNothing(s0, 0);
    for line := 0 to n
      invariant outPos == |done| == LINE_SIZE * line
      invariant all == Prepend(done, DecodeLines(s, n - line, inPos))
      invariant Written(s0, dst[..], 0, done)
    {
      ghost var was, d := dst[..], DecodeLine(s, inPos);
      PrependLast(done, inPos);
      var ok, next := ReadLine(s, inPos, dst, outPos);
      if !ok { return 0; }
      PrependTwice(done, d.bytes, DecodeLines(s, n - line - 1, next));
      WrittenThen(s0, was, dst[..], 0, done, d.bytes);
      done := done + d.bytes;
      outPos := outPos + LINE_SIZE;
      inPos := next;
    }
    PrependLast(done, inPos);
    r := outPos;
  }

  // ---- What comes back ----

  // The word the decoder returns for w in a base-and-delta line.
  function Returned(w: nat, base: nat): nat {
    RestoreWord(DeltaByte(w, base), base)
  }

  // The window of deltas that survive sign extension from bit 7.
  predicate InWindow(w: nat, base: nat) {
    -128 <= w - base <= 127
  }

  // A word of a base-and-delta line comes back exactly when its signed delta is in
  // [-128, 127]; otherwise it comes back 256 too small or 256 too large (mod 2^64).
  lemma WordLoss(w: nat, base: nat)
    requires w < TWO64 && base < TWO64 && Distance(w, base) < 256
    ensures Returned(w, base) == w <==> InWindow(w, base)
    ensures w - base > 127 ==> Returned(w, base) == (w - 256) % TWO64
    ensures w - base < -128 ==> Returned(w, base) == (w + 256) % TWO64
  {
    var d := w - base;
    if d >= 0 {
      assert UnsignedDelta(w, base) == d;
      if d < 128 { assert base + d == w; } else { Wrap(w - 256); }
    } else {
      assert UnsignedDelta(w, base) == d + TWO64;
      assert (d + TWO64) % 256 == d + 256;
      if d >= -128 { assert base + d == w; } else { Wrap(w + 256); }
    }
  }

  // Moving by 256 never wraps all the way around.
  lemma Wrap(x: int)
    requires -256 <= x < TWO64 + 256
    ensures x % TWO64 == if x < 0 then x + TWO64 else if x >= TWO64 then x - TWO64 else x
  {
  }

  function ReturnedWords(ws: seq<nat>): (rs: seq<nat>)
    requires |ws| == LINE_WORDS
    ensures |rs| == LINE_WORDS
  {
    seq(LINE_WORDS, i requires 0 <= i < LINE_WORDS => Returned(ws[i], ws[0]))
  }

  // The line after compression and decompression.
  function ReturnedLine(line: seq<Byte>): (r: seq<Byte>)
    requires |line| == LINE_SIZE
    ensures |r| == LINE_SIZE
  {
    var ws := LineWords(line);
    if LineType(ws) == BASE_DELTA2 then BytesOf(ReturnedWords(ws), 8) else line
  }

  predicate LineExact(line: seq<Byte>)
    requires |line| == LINE_SIZE
  {
    var ws := LineWords(line);
    LineType(ws) == BASE_DELTA2 ==> forall i | 0 <= i < LINE_WORDS :: InWindow(ws[i], ws[0])
  }

  lemma LineImage(line: seq<Byte>)
    requires |line| == LINE_SIZE
    ensures BytesOf(LineWords(line), 8) == line
  {
    BytesOfWords(line, 8, LINE_WORDS);
    assert line[..LINE_SIZE] == line;
  }

  lemma ZeroLine(line: seq<Byte>)
    requires |line| == LINE_SIZE && forall i | 0 <= i < LINE_WORDS :: LineWords(line)[i] == 0
    ensures line == Repeat(0, LINE_SIZE)
  {
    hide LineWords;
    LineImage(line);
    ZeroImage();
    assert LineWords(line) == SameWords(0);
  }

  lemma ZeroImage()
    ensures BytesOf(SameWords(0), 8) == Repeat(0, LINE_SIZE)
  {
    forall j | 0 <= j < LINE_SIZE ensures BytesOf(SameWords(0), 8)[j] == 0 { ZeroBytes(8, j % 8); }
  }

  lemma {:induction false} ZeroBytes(n: nat, k: nat)
    requires k < n
    ensures ToLE(0, n)[k] == 0
  {
    if k > 0 { ZeroBytes(n - 1, k - 1); }
  }

  lemma DeltaWordsReturned(s: seq<Byte>, pos: nat, ws: seq<nat>)
    requires |ws| == LINE_WORDS && HoldsAt(s, pos, Pack(DeltaBytes(ws), DELTA_BITS))
    ensures pos + LINE_WORDS <= |s| && DeltaWords(s, ws[0], pos) == ReturnedWords(ws)
  {
    hide Pack, RestoreWord, DeltaByte, FieldAt;
    BytePow();
    assert |Pack(DeltaBytes(ws), DELTA_BITS)| == LINE_WORDS;
    forall i | 0 <= i < LINE_WORDS ensures DeltaWord(s, ws[0], pos, i) == Returned(ws[i], ws[0]) {
      PackRoundTrip(s, pos, DeltaBytes(ws), DELTA_BITS, i);
    }
  }

  lemma BaseRoundTrip(s: seq<Byte>, pos: nat, base: nat)
    requires base < TWO64 && HoldsAt(s, pos, ToLE(base, 8))
    ensures pos + 8 <= |s| && FromLE(s[pos..pos + 8]) == base
  {
    Pow64();
    FromToLE(base, 8);
  }

  lemma DeltaLineReturned(s: seq<Byte>, pos: nat, line: seq<Byte>)
    requires |line| == LINE_SIZE && LineType(LineWords(line)) == BASE_DELTA2 && HoldsAt(s, pos, EncodeLine(line))
    ensures DecodeLine(s, pos) == Decoded(ReturnedLine(line), pos + 17)
  {
    hide Pack, ToLE, LineWords, DeltaWords, ReturnedWords, BytesOf, FromLE;
    var ws := LineWords(line);
    LineWordsBound(line);
    var d := Pack(DeltaBytes(ws), DELTA_BITS);
    HoldsSplit(s, pos, [BASE_DELTA2] + ToLE(ws[0], 8), d);
    HoldsSplit(s, pos, [BASE_DELTA2], ToLE(ws[0], 8));
    BaseRoundTrip(s, pos + 1, ws[0]);
    DeltaWordsReturned(s, pos + 9, ws);
    assert s[pos] == s[pos..pos + 1][0];
  }

  lemma LineReturned(s: seq<Byte>, pos: nat, line: seq<Byte>)
    requires |line| == LINE_SIZE && HoldsAt(s, pos, EncodeLine(line))
    ensures DecodeLine(s, pos) == Decoded(ReturnedLine(line), pos + |EncodeLine(line)|)
  {
    hide Pack, ToLE, LineWords, DeltaWords, BytesOf, FromLE, ReturnedWords;
    var ws, e := LineWords(line), EncodeLine(line);
    var ty := LineType(ws);
    LineWordsBound(line);
    assert s[pos] == s[pos..pos + |e|][0];
    if ty == ZEROS {
      ZeroLine(line);
    } else if ty == BASE_DELTA {
      HoldsSplit(s, pos, [BASE_DELTA], ToLE(ws[0], 8));
      BaseRoundTrip(s, pos + 1, ws[0]);
      assert ws == SameWords(ws[0]);
      LineImage(line);
    } else if ty == BASE_DELTA2 {
      DeltaLineReturned(s, pos, line);
    } else {
      HoldsSplit(s, pos, [UNCOMPRESSED], line);
    }
  }

  function ReturnedLines(lines: seq<seq<Byte>>, b: nat): (s: seq<Byte>)
    requires b <= |lines| && forall l | l in lines :: |l| == LINE_SIZE
    ensures |s| == LINE_SIZE * (|lines| - b)
    decreases |lines| - b
  {
    if b == |lines| then [] else ReturnedLine(lines[b]) + ReturnedLines(lines, b + 1)
  }

  // The buffer after compression and decompression.
  function ReturnedPage(src: seq<Byte>): (r: seq<Byte>)
    requires |src| % LINE_SIZE == 0
    ensures |r| == |src|
  {
    ReturnedLines(Chunks(src), 0)
  }

  lemma {:induction false} LinesReturned(s: seq<Byte>, lines: seq<seq<Byte>>, b: nat, pos: nat)
    requires b <= |lines| && forall l | l in lines :: |l| == LINE_SIZE
    requires HoldsAt(s, pos, EncodeLines(lines, b))
    ensures DecodeLines(s, |lines| - b, pos) == Decoded(ReturnedLines(lines, b), pos + |EncodeLines(lines, b)|)
    decreases |lines| - b
  {
    hide EncodeLine, DecodeLine, ReturnedLine, HoldsAt;
    if b < |lines| {
      var e := EncodeLine(lines[b]);
      HoldsSplit(s, pos, e, EncodeLines(lines, b + 1));
      LineReturned(s, pos, lines[b]);
      LinesReturned(s, lines, b + 1, pos + |e|);
    }
  }

  // Every stream decodes, to a buffer of the original size; which buffer is known exactly.
  lemma Returns(src: seq<Byte>, dstCap: nat)
    requires |src| > 0 && |src| % LINE_SIZE == 0 && |src| / LINE_SIZE < 0x1_0000_0000 && |src| <= dstCap
    ensures Decode(Stream(src), dstCap) == Some(ReturnedPage(src))
  {
    hide ToLE, EncodeLines, DecodeLines, ReturnedLines, FromLE;
    var n, lines := |src| / LINE_SIZE, Chunks(src);
    var s := Stream(src);
    HoldsSelf(s);
    HoldsSplit(s, 0, ToLE(n, 4), EncodeLines(lines, 0));
    assert Pow2(32) == 0x1_0000_0000 by { BytePow(); PowByte(1); PowByte(2); PowByte(3); }
    FromToLE(n, 4);
    LinesReturned(s, lines, 0, 4);
  }

  // ---- Exactly when nothing is lost ----

  lemma BytesOfInjective(a: seq<nat>, b: seq<nat>)
    requires |a| == |b| == LINE_WORDS && BytesOf(a, 8) == BytesOf(b, 8)
    requires forall i | 0 <= i < LINE_WORDS :: a[i] < TWO64 && b[i] < TWO64
    ensures a == b
  {
    hide BytesOf, WordAt;
    Pow64();
    forall i | 0 <= i < LINE_WORDS ensures a[i] == b[i] {
      WordsOfBytes(a, 8, i);
      WordsOfBytes(b, 8, i);
    }
  }

  lemma LineExactness(line: seq<Byte>)
    requires |line| == LINE_SIZE
    ensures ReturnedLine(line) == line <==> LineExact(line)
  {
    hide BytesOf, LineWords, Returned, InWindow;
    var ws := LineWords(line);
    LineWordsBound(line);
    LineImage(line);
    if LineType(ws) == BASE_DELTA2 {
      var rs := ReturnedWords(ws);
      forall i | 0 <= i < LINE_WORDS ensures rs[i] < TWO64 && (rs[i] == ws[i] <==> InWindow(ws[i], ws[0])) {
        WordLoss(ws[i], ws[0]);
        ReturnedBound(ws[i], ws[0]);
      }
      if ReturnedLine(line) == line { BytesOfInjective(rs, ws); }
      if LineExact(line) { assert rs == ws; }
    }
  }

  lemma ReturnedBound(w: nat, base: nat)
    ensures Returned(w, base) < TWO64
  {
  }

  lemma {:induction false} LinesExactness(lines: seq<seq<Byte>>, b: nat, src: seq<Byte>)
    requires b <= |lines| && forall l | l in lines :: |l| == LINE_SIZE
    requires |src| == LINE_SIZE * |lines| && lines == Chunks(src)
    ensures ReturnedLines(lines, b) == src[LINE_SIZE * b..] <==> forall k | b <= k < |lines| :: LineExact(lines[k])
    decreases |lines| - b
  {
    hide ReturnedLine, LineExact;
    if b < |lines| {
      LineExactness(lines[b]);
      LinesExactness(lines, b + 1, src);
      var head, tail := src[LINE_SIZE * b..LINE_SIZE * b + LINE_SIZE], src[LINE_SIZE * (b + 1)..];
      assert src[LINE_SIZE * b..] == head + tail;
      SplitEqual(ReturnedLine(lines[b]), head, ReturnedLines(lines, b + 1), tail);
    }
  }

  lemma SplitEqual(a: seq<Byte>, b: seq<Byte>, c: seq<Byte>, d: seq<Byte>)
    requires |a| == |b|
    ensures a + c == b + d <==> a == b && c == d
  {
    if a + c == b + d {
      assert a == (a + c)[..|a|] && b == (b + d)[..|b|];
      assert c == (a + c)[|a|..] && d == (b + d)[|b|..];
    }
  }

  // All deltas of all base-and-delta lines lie in the window.
  predicate Exact(src: seq<Byte>) {
    forall l | l in Chunks(src) :: LineExact(l)
  }

  // The round trip holds if and only if every delta of every base-and-delta line
  // lies in [-128, 127].
  lemma LosslessIff(src: seq<Byte>)
    requires |src| % LINE_SIZE == 0
    ensures ReturnedPage(src) == src <==> Exact(src)
  {
    hide ReturnedLines, LineExact;
    LinesExactness(Chunks(src), 0, src);
    assert src[0..] == src;
  }
}
