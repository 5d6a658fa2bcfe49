/**
  What BDI writes for each line and where, said of the bytes of the line.
*/
module BdiLaws {
  import opened Bits
  import opened Buffers
  import opened Packing
  import opened ByteBlocks
  import opened BlockStreams
  import opened Bdi

  // A line of zeros: one byte.
  lemma ZeroLineForm(line: seq<Byte>)
    requires |line| == 64 && forall i | 0 <= i < 64 :: line[i] == 0
    ensures EncodeLine(line) == [1]
  {
    forall i | 0 <= i < 8 ensures LineWords(line)[i] == 0 { ZeroNumber(line[i * 8..i * 8 + 8]); }
  }

  lemma SameNumber(a: seq<Byte>, b: seq<Byte>)
    requires |a| == |b|
    ensures FromLE(a) == FromLE(b) <==> a == b
  {
    ToFromLE(a);
    ToFromLE(b);
  }

  lemma FirstWord(line: seq<Byte>)
    requires |line| == 64
    ensures ToLE(LineWords(line)[0], 8) == line[..8]
  {
    ToFromLE(line[0..8]);
    assert line[0..8] == line[..8];
  }

  // One word throughout, not zero: that word.
  lemma RepeatedLineForm(line: seq<Byte>)
    requires |line| == 64 && forall i | 0 <= i < 8 :: line[8 * i..8 * i + 8] == line[..8]
    requires exists i | 0 <= i < 64 :: line[i] != 0
    ensures EncodeLine(line) == [2] + line[..8]
  {
    hide ToLE, FromLE;
    var ws := LineWords(line);
    forall i | 0 <= i < 8 ensures ws[i] == ws[0] {
      assert line[i * 8..i * 8 + 8] == line[8 * i..8 * i + 8] && line[0..8] == line[..8];
    }
    NotZeroLine(line);
    FirstWord(line);
  }

  lemma NotZeroLine(line: seq<Byte>)
    requires |line| == 64 && exists i | 0 <= i < 64 :: line[i] != 0
    ensures exists i | 0 <= i < 8 :: LineWords(line)[i] != 0
  {
    var i :| 0 <= i < 64 && line[i] != 0;
    var s := line[i / 8 * 8..i / 8 * 8 + 8];
    assert s[i % 8] == line[i];
    ZeroNumber(s);
    assert LineWords(line)[i / 8] != 0;
  }

  lemma ByteOfWord(line: seq<Byte>, i: nat)
    requires |line| == 64 && i < 8
    ensures LineWords(line)[i] % 256 == line[8 * i]
  {
    var s := line[i * 8..i * 8 + 8];
    assert FromLE(s) == s[0] + 256 * FromLE(s[1..]);
  }

  lemma LowByteDelta(w: nat, base: nat)
    ensures DeltaByte(w, base) as int == (w % 256 - base % 256) % 256
  {
    var d := w - base;
    assert d == TWO64 * (d / TWO64) + d % TWO64;
    assert d % TWO64 % 256 == d % 256;
    assert d == 256 * (w / 256 - base / 256) + (w % 256 - base % 256);
  }

  // Words less than 256 away from the first, not all the same: the first word, and of
  // each word the difference of the lowest bytes.
  lemma DeltaLineForm(line: seq<Byte>, ds: seq<Byte>)
    requires |line| == 64 && exists i | 0 <= i < 8 :: line[8 * i..8 * i + 8] != line[..8]
    requires forall i | 0 <= i < 8 :: -256 < LineWords(line)[i] - LineWords(line)[0] < 256
    requires |ds| == 8 && forall i | 0 <= i < 8 :: ds[i] as int == (line[8 * i] as int - line[0] as int) % 256
    ensures EncodeLine(line) == [3] + line[..8] + ds
  {
    hide LineWords, LineType, EncodeLine, DeltaByte;
    DeltaType(line);
    DeltaParts(line);
    forall i | 0 <= i < 8 ensures DeltaBytes(LineWords(line))[i] == ds[i] { DeltaOf(line, i); }
    assert DeltaBytes(LineWords(line)) == ds;
  }

  lemma DeltaOf(line: seq<Byte>, i: nat)
    requires |line| == 64 && i < 8
    ensures DeltaByte(LineWords(line)[i], LineWords(line)[0]) as int == (line[8 * i] as int - line[0] as int) % 256
  {
    hide LineWords, DeltaByte;
    var ws := LineWords(line);
    LowByteDelta(ws[i], ws[0]);
    ByteOfWord(line, i);
    ByteOfWord(line, 0);
  }

  lemma DeltaType(line: seq<Byte>)
    requires |line| == 64 && exists i | 0 <= i < 8 :: line[8 * i..8 * i + 8] != line[..8]
    requires forall i | 0 <= i < 8 :: -256 < LineWords(line)[i] - LineWords(line)[0] < 256
    ensures LineType(LineWords(line)) == BASE_DELTA2
  {
    hide LineWords;
    NotRepeated(line);
    forall i | 0 <= i < 8 ensures Distance(LineWords(line)[i], LineWords(line)[0]) < 256 {}
  }

  lemma DeltaParts(line: seq<Byte>)
    requires |line| == 64 && LineType(LineWords(line)) == BASE_DELTA2
    ensures EncodeLine(line) == [3] + line[..8] + DeltaBytes(LineWords(line))
  {
    hide ToLE, Pack, PackedLen, LineWords, LineType, DeltaBytes;
    FirstWord(line);
    PackedBytes(DeltaBytes(LineWords(line)));
  }

  lemma NotRepeated(line: seq<Byte>)
    requires |line| == 64 && exists i | 0 <= i < 8 :: line[8 * i..8 * i + 8] != line[..8]
    ensures exists i | 0 <= i < 8 :: LineWords(line)[i] != LineWords(line)[0]
    ensures exists i | 0 <= i < 8 :: LineWords(line)[i] != 0
  {
    var i :| 0 <= i < 8 && line[8 * i..8 * i + 8] != line[..8];
    assert line[i * 8..i * 8 + 8] == line[8 * i..8 * i + 8] && line[0..8] == line[..8];
    SameNumber(line[i * 8..i * 8 + 8], line[0..8]);
    assert LineWords(line)[i] != LineWords(line)[0];
  }

  // Fields of eight bits are the bytes themselves.
  lemma PackedBytes(ds: seq<Byte>)
    ensures Pack(ds, 8) == ds
  {
    var s := Pack(ds, 8);
    assert |s| == |ds|;
    HoldsSelf(s);
    forall i | 0 <= i < |ds| ensures s[i] == ds[i] { PackedByteIs(s, ds, i); }
  }

  lemma PackedByteIs(s: seq<Byte>, ds: seq<Byte>, i: nat)
    requires HoldsAt(s, 0, Pack(ds, 8)) && i < |ds| && i < |s|
    ensures s[i] == ds[i]
  {
    hide Pack, Bit;
    BytePow();
    forall b | 0 <= b < 8 ensures Bit(s[i], b) == Bit(ds[i], b) {
      PackedBit(s, 0, ds, 8, i, b);
      assert (i * 8 + b) / 8 == i && (i * 8 + b) % 8 == b;
    }
    SameBitsEqual(s[i], ds[i], 8);
  }

  // Any other line: the line as it is.
  lemma RawLineForm(line: seq<Byte>)
    requires |line| == 64 && exists i | 0 <= i < 8 :: !(-256 < LineWords(line)[i] - LineWords(line)[0] < 256)
    ensures EncodeLine(line) == [0] + line
  {
    hide Words;
    var i :| 0 <= i < 8 && !(-256 < LineWords(line)[i] - LineWords(line)[0] < 256);
    assert LineWords(line)[i] != LineWords(line)[0];
    assert Distance(LineWords(line)[i], LineWords(line)[0]) >= 256;
  }

  // ---- Lines in a stream ----

  // Where line b begins behind the number of lines.
  function LineOffset(lines: seq<seq<Byte>>, b: nat): nat
    requires b <= |lines| && forall l | l in lines :: |l| == 64
  {
    if b == 0 then 0 else LineOffset(lines, b - 1) + |EncodeLine(lines[b - 1])|
  }

  lemma {:induction false} LinesFrom(s: seq<Byte>, pos: nat, lines: seq<seq<Byte>>, b: nat)
    requires b <= |lines| && (forall l | l in lines :: |l| == 64) && HoldsAt(s, pos, EncodeLines(lines, 0))
    ensures HoldsAt(s, pos + LineOffset(lines, b), EncodeLines(lines, b))
    ensures LineOffset(lines, b) + |EncodeLines(lines, b)| == |EncodeLines(lines, 0)|
  {
    hide EncodeLine, HoldsAt;
    if b > 0 {
      LinesFrom(s, pos, lines, b - 1);
      HoldsSplit(s, pos + LineOffset(lines, b - 1), EncodeLine(lines[b - 1]), EncodeLines(lines, b));
    }
  }

  // The number of lines in four bytes, and the lines back to back.
  lemma BdiStream(src: seq<Byte>, lines: seq<seq<Byte>>, dstCap: nat)
    requires |lines| == |src| / 64 && forall b | 0 <= b < |lines| :: lines[b] == src[64 * b..64 * b + 64]
    ensures forall l | l in lines :: |l| == 64
    ensures var s := Stream(src);
            && NumberAt(s, 0, |src| / 64, 4)
            && (forall b | 0 <= b < |lines| :: HoldsAt(s, 4 + LineOffset(lines, b), EncodeLine(lines[b])))
            && |s| == 4 + LineOffset(lines, |lines|)
    ensures Compressible(src, dstCap) <==>
            |src| > 0 && |src| % 64 == 0 && |Stream(src)| < |src| && |Stream(src)| <= dstCap
  {
    hide EncodeLine, HoldsAt, NumberAt, ToLE, EncodeLines, LineOffset, Chunks;
    LinesOf(src, lines);
    StreamParts(src, lines);
  }

  lemma LinesOf(src: seq<Byte>, lines: seq<seq<Byte>>)
    requires |lines| == |src| / 64 && forall b | 0 <= b < |lines| :: lines[b] == src[64 * b..64 * b + 64]
    ensures lines == Chunks(src)
  {
  }

  lemma StreamParts(src: seq<Byte>, lines: seq<seq<Byte>>)
    requires lines == Chunks(src)
    ensures var s := Stream(src);
            && NumberAt(s, 0, |src| / 64, 4)
            && (forall b | 0 <= b < |lines| :: HoldsAt(s, 4 + LineOffset(lines, b), EncodeLine(lines[b])))
            && |s| == 4 + LineOffset(lines, |lines|)
  {
    hide EncodeLine, HoldsAt, NumberAt, ToLE, EncodeLines, LineOffset, Chunks;
    var s := Stream(src);
    HoldsSelf(s);
    HoldsSplit(s, 0, ToLE(|src| / 64, 4), EncodeLines(lines, 0));
    NumberHolds(s, 0, |src| / 64, 4);
    forall b | 0 <= b < |lines| ensures HoldsAt(s, 4 + LineOffset(lines, b), EncodeLine(lines[b])) {
      LineAt(s, 4, lines, b);
    }
    LinesFrom(s, 4, lines, |lines|);
    NoLinesLeft(lines);
  }

  lemma LineAt(s: seq<Byte>, pos: nat, lines: seq<seq<Byte>>, b: nat)
    requires b < |lines| && (forall l | l in lines :: |l| == 64) && HoldsAt(s, pos, EncodeLines(lines, 0))
    ensures |lines[b]| == 64 && HoldsAt(s, pos + LineOffset(lines, b), EncodeLine(lines[b]))
  {
    hide EncodeLine, HoldsAt;
    assert lines[b] in lines;
    LinesFrom(s, pos, lines, b);
    HoldsSplit(s, pos + LineOffset(lines, b), EncodeLine(lines[b]), EncodeLines(lines, b + 1));
  }

  lemma NoLinesLeft(lines: seq<seq<Byte>>)
    requires forall l | l in lines :: |l| == 64
    ensures EncodeLines(lines, |lines|) == []
  {
  }
}
