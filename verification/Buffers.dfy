/**
  Byte buffers: what a stretch of a stream holds, what a write changes, `memcpy` to
  and from little-endian integers, and a buffer read as an array of words.
*/
module Buffers {
  import opened Bits

  datatype Option<+T> = None | Some(value: T)

  // The bytes of s from position pos on begin with e.
  predicate HoldsAt(s: seq<Byte>, pos: nat, e: seq<Byte>) {
    pos + |e| <= |s| && s[pos..pos + |e|] == e
  }

  lemma HoldsSelf(s: seq<Byte>)
    ensures HoldsAt(s, 0, s)
  {
  }

  lemma HoldsSplit(s: seq<Byte>, pos: nat, a: seq<Byte>, b: seq<Byte>)
    requires HoldsAt(s, pos, a + b)
    ensures HoldsAt(s, pos, a) && HoldsAt(s, pos + |a|, b)
  {
    assert s[pos..pos + |a|] == s[pos..pos + |a + b|][..|a|];
    assert s[pos + |a|..pos + |a| + |b|] == s[pos..pos + |a + b|][|a|..];
  }

  // `now` is `was` with the bytes e written at position off, and nothing else changed.
  ghost predicate Written(was: seq<Byte>, now: seq<Byte>, off: nat, e: seq<Byte>) {
    && |now| == |was|
    && off + |e| <= |was|
    && (forall j | 0 <= j < |was| :: now[j] == if off <= j < off + |e| then e[j - off] else was[j])
  }

  lemma WrittenThen(s0: seq<Byte>, s1: seq<Byte>, s2: seq<Byte>, off: nat, a: seq<Byte>, b: seq<Byte>)
    requires Written(s0, s1, off, a) && Written(s1, s2, off + |a|, b)
    ensures Written(s0, s2, off, a + b)
  {
  }

  // Bytes that were skipped over keep what the buffer held before.
  lemma WrittenGap(was: seq<Byte>, now: seq<Byte>, off: nat, e: seq<Byte>, n: nat)
    requires Written(was, now, off, e) && off + |e| + n <= |was|
    ensures Written(was, now, off, e + was[off + |e|..off + |e| + n])
  {
  }

  // Bytes behind a write are untouched.
  lemma WrittenBehind(was: seq<Byte>, now: seq<Byte>, off: nat, e: seq<Byte>, from: nat, to: nat)
    requires Written(was, now, off, e) && off + |e| <= from <= to <= |was|
    ensures now[from..to] == was[from..to]
  {
  }

  // What lies at or behind a bound on the end of a write is untouched.
  lemma WrittenBelow(was: seq<Byte>, now: seq<Byte>, e: seq<Byte>, bound: nat)
    requires Written(was, now, 0, e) && |e| <= bound <= |was|
    ensures now[bound..] == was[bound..]
  {
  }

  lemma WrittenNothing(s: seq<Byte>, off: nat)
    requires off <= |s|
    ensures Written(s, s, off, [])
  {
  }

  // A write that covers the whole buffer.
  lemma WrittenWhole(was: seq<Byte>, now: seq<Byte>, e: seq<Byte>)
    requires Written(was, now, 0, e) && |e| == |was|
    ensures now == e
  {
  }

  lemma WrittenHolds(was: seq<Byte>, now: seq<Byte>, off: nat, e: seq<Byte>)
    requires Written(was, now, off, e)
    ensures HoldsAt(now, off, e)
    ensures now == was[..off] + e + was[off + |e|..]
  {
  }

  function FromLE(s: seq<Byte>): nat {
    if |s| == 0 then 0 else s[0] + 256 * FromLE(s[1..])
  }

  function ToLE(v: nat, n: nat): (s: seq<Byte>)
    ensures |s| == n
  {
    if n == 0 then [] else [v % 256] + ToLE(v / 256, n - 1)
  }

  lemma {:induction false} ToFromLE(s: seq<Byte>)
    ensures ToLE(FromLE(s), |s|) == s
  {
    if |s| > 0 {
      ToFromLE(s[1..]);
      assert FromLE(s) % 256 == s[0] && FromLE(s) / 256 == FromLE(s[1..]);
    }
  }

  lemma {:induction false} FromToLE(v: nat, n: nat)
    requires v < Pow2(8 * n)
    ensures FromLE(ToLE(v, n)) == v
    decreases n
  {
    if n > 0 {
      PowByte(n - 1);
      FromToLE(v / 256, n - 1);
      assert ToLE(v, n)[1..] == ToLE(v / 256, n - 1);
    }
  }

  lemma {:induction false} FromLEBound(s: seq<Byte>)
    ensures FromLE(s) < Pow2(8 * |s|)
  {
    if |s| > 0 {
      PowByte(|s| - 1);
      FromLEBound(s[1..]);
    }
  }

  lemma {:induction false} ZeroNumber(s: seq<Byte>)
    ensures FromLE(s) == 0 <==> forall i | 0 <= i < |s| :: s[i] == 0
  {
    if |s| > 0 {
      ZeroNumber(s[1..]);
      assert forall i | 0 < i < |s| :: s[i] == s[1..][i - 1];
    }
  }

  // A number is its lower k bytes and, 256^k times, the others.
  lemma {:induction false} SplitNumber(s: seq<Byte>, k: nat)
    requires k <= |s|
    ensures FromLE(s) == FromLE(s[..k]) + Pow2(8 * k) * FromLE(s[k..])
    decreases k
  {
    hide Pow2;
    if k == 0 {
      assert s[0..] == s && FromLE(s[..0]) == 0;
      OnePow();
    } else {
      var t, a, p, x := s[1..], FromLE(s[1..][..k - 1]), Pow2(8 * (k - 1)), FromLE(s[k..]);
      SplitNumber(t, k - 1);
      PowByte(k - 1);
      assert s[..k][1..] == t[..k - 1] && t[k - 1..] == s[k..];
      assert FromLE(s[..k]) == s[0] + 256 * a && FromLE(s) == s[0] + 256 * (a + p * x);
      Regroup(p, x);
    }
  }

  lemma OnePow()
    ensures Pow2(0) == 1
  {
  }

  lemma Regroup(p: nat, x: nat)
    ensures 256 * (p * x) == (256 * p) * x
  {
  }

  lemma PowByte(n: nat)
    ensures Pow2(8 * (n + 1)) == 256 * Pow2(8 * n)
  {
    var m := 8 * n;
    assert 8 * (n + 1) == m + 8;
    assert Pow2(m + 2) == 4 * Pow2(m);
    assert Pow2(m + 4) == 4 * Pow2(m + 2);
    assert Pow2(m + 6) == 4 * Pow2(m + 4);
    assert Pow2(m + 8) == 4 * Pow2(m + 6);
  }

  // ---- A buffer as an array of wb-byte words ----

  lemma WordInside(n: nat, wb: nat, i: nat)
    requires i < n
    ensures i * wb + wb <= n * wb
  {
    MulMono(i + 1, n, wb);
    assert (i + 1) * wb == i * wb + wb;
  }

  function WordAt(s: seq<Byte>, wb: nat, i: nat): nat
    requires i * wb + wb <= |s|
  {
    FromLE(s[i * wb..i * wb + wb])
  }

  function Words(s: seq<Byte>, wb: nat, n: nat): (ws: seq<nat>)
    requires n * wb <= |s|
    ensures |ws| == n
  {
    seq(n, i requires 0 <= i < n => WordInside(n, wb, i); WordAt(s, wb, i))
  }

  // Byte j of the memory image of the words.
  function ImageByte(ws: seq<nat>, wb: nat, j: nat): Byte
    requires wb > 0 && j / wb < |ws|
  {
    ToLE(ws[j / wb], wb)[j % wb]
  }

  function BytesOf(ws: seq<nat>, wb: nat): (s: seq<Byte>)
    requires wb > 0
    ensures |s| == |ws| * wb
  {
    ImageInside(|ws|, wb);
    seq(|ws| * wb, j requires 0 <= j < |ws| * wb => ImageByte(ws, wb, j))
  }

  lemma ImageInside(n: nat, wb: nat)
    requires wb > 0
    ensures forall j: nat | j < n * wb :: j / wb < n
  {
    forall j: nat | j < n * wb ensures j / wb < n {
      assert j == (j / wb) * wb + j % wb;
      if j / wb >= n { MulMono(n, j / wb, wb); }
    }
  }

  // Loading every word of a buffer and storing it back restores the buffer.
  lemma BytesOfWords(s: seq<Byte>, wb: nat, n: nat)
    requires wb > 0 && n * wb <= |s|
    ensures BytesOf(Words(s, wb, n), wb) == s[..n * wb]
  {
    var ws, m := Words(s, wb, n), n * wb;
    ImageInside(n, wb);
    forall j: nat | j < m ensures ImageByte(ws, wb, j) == s[j] { ImageOfLoad(s, wb, n, j); }
    var b := BytesOf(ws, wb);
    assert forall j: nat | j < m :: b[j] == ImageByte(ws, wb, j);
    assert |b| == m;
  }

  lemma ImageOfLoad(s: seq<Byte>, wb: nat, n: nat, j: nat)
    requires wb > 0 && n * wb <= |s| && j < n * wb
    ensures j / wb < n && ImageByte(Words(s, wb, n), wb, j) == s[j]
  {
    ImageInside(n, wb);
    assert j == (j / wb) * wb + j % wb;
    LoadStore(s, wb, n, j / wb, j % wb);
  }

  lemma LoadStore(s: seq<Byte>, wb: nat, n: nat, i: nat, k: nat)
    requires i < n && k < wb && n * wb <= |s|
    ensures i * wb + k < |s| && ToLE(Words(s, wb, n)[i], wb)[k] == s[i * wb + k]
  {
    WordInside(n, wb, i);
    ToFromLE(s[i * wb..i * wb + wb]);
  }

  lemma ImageByteOne(ws: seq<nat>, w: nat, wb: nat, j: nat)
    requires wb > 0 && j < |ws| * wb + wb
    ensures j / wb < |ws| + 1
    ensures ImageByte(ws + [w], wb, j) == if j < |ws| * wb then BytesOf(ws, wb)[j] else ToLE(w, wb)[j - |ws| * wb]
  {
    hide ToLE;
    var m := |ws| * wb;
    if j < m {
      ImageInside(|ws|, wb);
    } else {
      DivUnique(j, wb, |ws|, j - m);
    }
  }

  lemma BytesOfOne(ws: seq<nat>, w: nat, wb: nat)
    requires wb > 0
    ensures BytesOf(ws + [w], wb) == BytesOf(ws, wb) + ToLE(w, wb)
  {
    hide ToLE, ImageByte;
    var m := |ws| * wb;
    var all := ws + [w];
    assert |all| * wb == m + wb;
    var a, b := BytesOf(all, wb), BytesOf(ws, wb) + ToLE(w, wb);
    forall j | 0 <= j < m + wb ensures a[j] == b[j] {
      ImageByteOne(ws, w, wb, j);
    }
  }

  // Storing words and loading them again restores the words.
  lemma WordsOfBytes(ws: seq<nat>, wb: nat, i: nat)
    requires wb > 0 && i < |ws| && ws[i] < Pow2(8 * wb)
    ensures i * wb + wb <= |BytesOf(ws, wb)|
    ensures WordAt(BytesOf(ws, wb), wb, i) == ws[i]
  {
    WordInside(|ws|, wb, i);
    var k := i * wb;
    var b := BytesOf(ws, wb)[k..k + wb];
    forall j | 0 <= j < wb ensures b[j] == ToLE(ws[i], wb)[j] { DivUnique(k + j, wb, i, j); }
    assert b == ToLE(ws[i], wb);
    FromToLE(ws[i], wb);
  }

  // ---- Numbers as bytes, bit by bit ----

  // Byte k of a little-endian number holds its bits from 8k on.
  lemma {:induction false} LittleEndian(x: nat, n: nat, k: nat, b: nat)
    requires k < n && b < 8
    ensures Bit(ToLE(x, n)[k], b) == Bit(x, 8 * k + b)
    decreases k
  {
    if k == 0 {
      BytePow();
      ShrLow(x, 8);
      LowBit(x, 8, b);
    } else {
      LittleEndian(x / 256, n - 1, k - 1, b);
      BytePow();
      ShrLow(x, 8);
      ShrBit(x, 8, 8 * (k - 1) + b);
      assert 8 * (k - 1) + b + 8 == 8 * k + b;
    }
  }

  // The words of a page are its bytes, lowest first.
  lemma WordBits(src: seq<Byte>, wb: nat, n: nat, i: nat, k: nat, b: nat)
    requires n * wb <= |src| && i < n && k < wb && b < 8
    ensures i * wb + k < |src| && Bit(Words(src, wb, n)[i], 8 * k + b) == Bit(src[i * wb + k], b)
  {
    hide ToLE, Words, Bit;
    LoadStore(src, wb, n, i, k);
    LittleEndian(Words(src, wb, n)[i], wb, k, b);
  }

  // A number of wb bytes, lowest first, from position pos on.
  ghost predicate NumberAt(s: seq<Byte>, pos: nat, x: nat, wb: nat) {
    && pos + wb <= |s|
    && forall j, b | pos <= j < pos + wb && 0 <= b < 8 :: Bit(s[j], b) == Bit(x, 8 * (j - pos) + b)
  }

  lemma ImageAt(s: seq<Byte>, pos: nat, ws: seq<nat>, wb: nat, j: nat)
    requires wb > 0 && HoldsAt(s, pos, BytesOf(ws, wb)) && j < |ws|
    ensures NumberAt(s, pos + j * wb, ws[j], wb)
  {
    hide ToLE, Bit;
    var img, at := BytesOf(ws, wb), pos + j * wb;
    WordInside(|ws|, wb, j);
    forall i, b | at <= i < at + wb && 0 <= b < 8 ensures Bit(s[i], b) == Bit(ws[j], 8 * (i - at) + b) {
      DivUnique(j * wb + (i - at), wb, j, i - at);
      assert img[j * wb + (i - at)] == ToLE(ws[j], wb)[i - at];
      assert s[i] == s[pos..pos + |img|][i - pos];
      LittleEndian(ws[j], wb, i - at, b);
    }
  }

  lemma NumberHolds(s: seq<Byte>, pos: nat, x: nat, n: nat)
    requires HoldsAt(s, pos, ToLE(x, n))
    ensures NumberAt(s, pos, x, n)
  {
    hide Bit;
    forall i, b | pos <= i < pos + n && 0 <= b < 8 ensures Bit(s[i], b) == Bit(x, 8 * (i - pos) + b) {
      assert s[i] == s[pos..pos + n][i - pos];
      LittleEndian(x, n, i - pos, b);
    }
  }

  // memcpy(dst + off, s, |s|)
  method Copy(s: seq<Byte>, dst: array<Byte>, off: nat)
    requires off + |s| <= dst.Length
    modifies dst
    ensures Written(old(dst[..]), dst[..], off, s)
  {
    for i := 0 to |s|
      invariant forall j | 0 <= j < dst.Length :: dst[j] == if off <= j < off + i then s[j - off] else old(dst[j])
    {
      dst[off + i] := s[i];
    }
  }
}
