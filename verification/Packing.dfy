/**
  Bit packing.  A list of w-bit fields is written back to back, least significant
  bit first, so a field may straddle two bytes.  `Pack` is the specification; the
  tag and type headers, the sparse bitmaps and the small-range and BDI deltas of
  all the compressors are instances of it with widths 1, 2, 3, 1..6 and 8.
*/
module Packing {
  import opened Bits
  import opened Buffers

  predicate BitAt(s: seq<Byte>, q: nat)
    requires q < 8 * |s|
  {
    Bit(s[q / 8], q % 8)
  }

  function PackedLen(n: nat, w: nat): nat {
    (n * w + 7) / 8
  }

  // Bit q of the concatenation of the fields.
  predicate FieldBit(ts: seq<nat>, w: nat, q: nat)
    requires w > 0
  {
    q / w < |ts| && Bit(ts[q / w], q % w)
  }

  function PackedByte(ts: seq<nat>, w: nat, j: nat): (b: Byte)
    requires w > 0
  {
    var bits := seq(8, k requires 0 <= k < 8 => FieldBit(ts, w, 8 * j + k));
    FromBitsBit(bits, 0);
    BytePow();
    FromBits(bits)
  }

  function Pack(ts: seq<nat>, w: nat): (s: seq<Byte>)
    requires w > 0
    ensures |s| == PackedLen(|ts|, w)
  {
    seq(PackedLen(|ts|, w), j requires 0 <= j < PackedLen(|ts|, w) => PackedByte(ts, w, j))
  }

  // The w-bit field at bit position p of s.
  function FieldAt(s: seq<Byte>, p: nat, w: nat): (v: nat)
    requires p + w <= 8 * |s|
  {
    FromBits(seq(w, k requires 0 <= k < w => BitAt(s, p + k)))
  }

  lemma FieldAtBit(s: seq<Byte>, p: nat, w: nat, k: nat)
    requires p + w <= 8 * |s|
    ensures FieldAt(s, p, w) < Pow2(w)
    ensures Bit(FieldAt(s, p, w), k) == (k < w && BitAt(s, p + k))
  {
    FromBitsBit(seq(w, k requires 0 <= k < w => BitAt(s, p + k)), k);
  }

  lemma PackBit(ts: seq<nat>, w: nat, q: nat)
    requires w > 0 && q < 8 * PackedLen(|ts|, w)
    ensures BitAt(Pack(ts, w), q) == FieldBit(ts, w, q)
  {
    var j := q / 8;
    FromBitsBit(seq(8, k requires 0 <= k < 8 => FieldBit(ts, w, 8 * j + k)), q % 8);
  }

  // Bytes that agree with the packed fields bit by bit are the packed bytes.
  lemma PackUnique(s: seq<Byte>, ts: seq<nat>, w: nat)
    requires w > 0 && |s| == PackedLen(|ts|, w)
    requires forall q: nat | q < 8 * |s| :: BitAt(s, q) == FieldBit(ts, w, q)
    ensures s == Pack(ts, w)
  {
    hide Pack, FieldBit, Bit;
    BytePow();
    forall j | 0 <= j < |s| ensures s[j] == Pack(ts, w)[j] {
      forall k | 0 <= k < 8 ensures Bit(s[j], k) == Bit(Pack(ts, w)[j], k) {
        PackBit(ts, w, 8 * j + k);
        assert BitAt(s, 8 * j + k) == FieldBit(ts, w, 8 * j + k);
      }
      SameBitsEqual(s[j], Pack(ts, w)[j], 8);
    }
  }

  lemma FieldPosition(n: nat, w: nat, i: nat, k: nat)
    requires i < n && k < w
    ensures (i * w + k) / w == i && (i * w + k) % w == k
    ensures i * w + w <= n * w <= 8 * PackedLen(n, w)
  {
    DivUnique(i * w + k, w, i, k);
    MulMono(i + 1, n, w);
    assert (i + 1) * w == i * w + w;
  }

  // Bit q of the bytes from position base on.
  lemma BitShift(s: seq<Byte>, base: nat, n: nat, q: nat)
    requires base + n <= |s| && q < 8 * n
    ensures BitAt(s, 8 * base + q) == BitAt(s[base..base + n], q)
  {
    assert (8 * base + q) / 8 == base + q / 8 && (8 * base + q) % 8 == q % 8;
    assert s[base..base + n][q / 8] == s[base + q / 8];
  }

  lemma PackedFieldBit(s: seq<Byte>, base: nat, ts: seq<nat>, w: nat, i: nat, k: nat)
    requires w > 0 && i < |ts| && k < w
    requires HoldsAt(s, base, Pack(ts, w))
    ensures 8 * base + i * w + w <= 8 * |s|
    ensures BitAt(s, 8 * base + i * w + k) == Bit(ts[i], k)
  {
    FieldPosition(|ts|, w, i, k);
    var q := i * w + k;
    BitShift(s, base, PackedLen(|ts|, w), q);
    PackBit(ts, w, q);
  }

  // Bit b of field i is bit i * w + b of the packed bytes, counted from the lowest.
  lemma PackedBit(s: seq<Byte>, base: nat, ts: seq<nat>, w: nat, i: nat, b: nat)
    requires w > 0 && HoldsAt(s, base, Pack(ts, w)) && i < |ts| && b < w
    ensures base + (i * w + b) / 8 < |s| && Bit(s[base + (i * w + b) / 8], (i * w + b) % 8) == Bit(ts[i], b)
  {
    hide Pack, Bit;
    PackedFieldBit(s, base, ts, w, i, b);
    var q := i * w + b;
    assert (8 * base + q) / 8 == base + q / 8 && (8 * base + q) % 8 == q % 8;
  }

  // Fields of w bits, back to back from byte base on, lowest bit first.
  ghost predicate FieldsAt(s: seq<Byte>, base: nat, ts: seq<nat>, w: nat) {
    forall i, b | 0 <= i < |ts| && 0 <= b < w ::
      base + (i * w + b) / 8 < |s| && Bit(s[base + (i * w + b) / 8], (i * w + b) % 8) == Bit(ts[i], b)
  }

  lemma PackedFields(s: seq<Byte>, base: nat, ts: seq<nat>, w: nat)
    requires w > 0 && HoldsAt(s, base, Pack(ts, w))
    ensures FieldsAt(s, base, ts, w)
  {
    hide Pack, Bit, HoldsAt;
    forall i, b | 0 <= i < |ts| && 0 <= b < w
      ensures base + (i * w + b) / 8 < |s| && Bit(s[base + (i * w + b) / 8], (i * w + b) % 8) == Bit(ts[i], b)
    {
      PackedBit(s, base, ts, w, i, b);
    }
  }

  // The packers are inverses: whatever else surrounds the packed bytes, field i
  // reads back as the i-th value packed, also when it straddles two bytes.
  lemma PackRoundTrip(s: seq<Byte>, base: nat, ts: seq<nat>, w: nat, i: nat)
    requires w > 0 && i < |ts| && ts[i] < Pow2(w)
    requires HoldsAt(s, base, Pack(ts, w))
    ensures 8 * base + i * w + w <= 8 * |s|
    ensures FieldAt(s, 8 * base + i * w, w) == ts[i]
  {
    PackedFieldBit(s, base, ts, w, i, 0);
    var p := 8 * base + i * w;
    FieldAtBit(s, p, w, 0);
    forall k | 0 <= k < w ensures Bit(FieldAt(s, p, w), k) == Bit(ts[i], k) {
      FieldAtBit(s, p, w, k);
      PackedFieldBit(s, base, ts, w, i, k);
    }
    SameBitsEqual(FieldAt(s, p, w), ts[i], w);
  }

  // ---- Reading one field with shifts and masks (get_tag, unpack_bt, unpack_type) ----

  // The field at bit position p of the bytes from base on.
  function Extract(s: seq<Byte>, base: nat, p: nat, w: nat): (v: nat)
    requires 0 < w <= 8 && 8 * base + p + w <= 8 * |s|
  {
    var j, r := base + p / 8, p % 8;
    if r + w <= 8 then Low(Shr(s[j], r), w)
    else Low(Or(Shr(s[j], r), Shl(s[j + 1], 8 - r)), w)
  }

  lemma ExtractBit(s: seq<Byte>, base: nat, p: nat, w: nat, k: nat)
    requires 0 < w <= 8 && 8 * base + p + w <= 8 * |s| && k < w
    ensures Bit(Extract(s, base, p, w), k) == BitAt(s, 8 * base + p + k)
  {
    var j, r := base + p / 8, p % 8;
    var q := 8 * base + p + k;
    BytePow();
    ShrBit(s[j], r, k);
    if r + w <= 8 {
      LowBit(Shr(s[j], r), w, k);
      assert q / 8 == j && q % 8 == r + k;
    } else {
      var lo, hi := Shr(s[j], r), Shl(s[j + 1], 8 - r);
      LowBit(Or(lo, hi), w, k);
      OrBit(lo, hi, k);
      ShlBit(s[j + 1], 8 - r, k);
      if r + k < 8 {
        assert q / 8 == j && q % 8 == r + k;
      } else {
        BoundBit(s[j], 8, r + k);
        assert q / 8 == j + 1 && q % 8 == r + k - 8;
      }
    }
  }

  lemma ExtractIsField(s: seq<Byte>, base: nat, p: nat, w: nat)
    requires 0 < w <= 8 && 8 * base + p + w <= 8 * |s|
    ensures Extract(s, base, p, w) == FieldAt(s, 8 * base + p, w)
  {
    FieldAtBit(s, 8 * base + p, w, 0);
    forall k | 0 <= k < w
      ensures Bit(Extract(s, base, p, w), k) == Bit(FieldAt(s, 8 * base + p, w), k)
    {
      FieldAtBit(s, 8 * base + p, w, k);
      ExtractBit(s, base, p, w, k);
    }
    SameBitsEqual(Extract(s, base, p, w), FieldAt(s, 8 * base + p, w), w);
  }

  // ---- Writing fields in place ----

  // Bit q of the bytes of s from position off on.
  predicate BitFrom(s: seq<Byte>, off: nat, q: nat)
    requires off + q / 8 < |s|
  {
    Bit(s[off + q / 8], q % 8)
  }

  lemma LowPart(v: nat, w: nat, r: nat, b: nat)
    requires v < Pow2(w) && r < 8 && b < 8
    ensures Bit(Low(Shl(v, r), 8), b) == (r <= b < r + w && Bit(v, b - r))
  {
    BytePow();
    LowBit(Shl(v, r), 8, b);
    ShlBit(v, r, b);
    if r + w <= b { BoundBit(v, w, b - r); }
  }

  lemma HighPart(v: nat, w: nat, r: nat, b: nat)
    requires v < Pow2(w) && w <= 8 && 0 < r < 8 && b < 8
    ensures 0 <= Shr(v, 8 - r) < 256
    ensures Bit(Shr(v, 8 - r), b) == (b + 8 < r + w && Bit(v, b + 8 - r))
  {
    BytePow();
    PowMono(w, 8);
    ShrBound(v, 8 - r);
    ShrBit(v, 8 - r, b);
    if r + w <= b + 8 { BoundBit(v, w, b + 8 - r); }
  }

  lemma OrByteBit(x: Byte, y: Byte, b: nat)
    ensures 0 <= Or(x, y) < 256
    ensures Bit(Or(x, y), b) == (Bit(x, b) || Bit(y, b))
  {
    BytePow();
    OrBound(x, y, 8);
    OrBit(x, y, b);
  }

  lemma {:induction false} PowMono(a: nat, b: nat)
    requires a <= b
    ensures Pow2(a) <= Pow2(b)
    decreases b - a
  {
    if a < b { PowMono(a + 1, b); }
  }

  // `buf[p/8] |= v << p%8`, spilling into the next byte when the field straddles.
  method SetField(buf: array<Byte>, off: nat, p: nat, w: nat, v: nat)
    requires 0 < w <= 8 && v < Pow2(w)
    requires off + (p + w - 1) / 8 < buf.Length
    modifies buf
    ensures forall j | 0 <= j < buf.Length && !(off + p / 8 <= j <= off + (p + w - 1) / 8) :: buf[j] == old(buf[j])
    ensures forall q: nat | off + q / 8 < buf.Length ::
              BitFrom(buf[..], off, q) == (BitFrom(old(buf[..]), off, q) || (p <= q < p + w && Bit(v, q - p)))
  {
    var j, r := off + p / 8, p % 8;
    ghost var was := buf[..];
    var lo: Byte := Low(Shl(v, r), 8);
    OrByteBit(buf[j], lo, 0);
    buf[j] := Or(buf[j], lo);
    var hi: Byte := 0;
    if r + w > 8 {
      HighPart(v, w, r, 0);
      hi := Shr(v, 8 - r);
      OrByteBit(buf[j + 1], hi, 0);
      buf[j + 1] := Or(buf[j + 1], hi);
    }
    forall q: nat | off + q / 8 < buf.Length
      ensures BitFrom(buf[..], off, q) == (BitFrom(was, off, q) || (p <= q < p + w && Bit(v, q - p)))
    {
      FieldBits(was, buf[..], off, p, w, v, lo, hi, q);
    }
  }

  lemma FieldBits(was: seq<Byte>, now: seq<Byte>, off: nat, p: nat, w: nat, v: nat, lo: Byte, hi: Byte, q: nat)
    requires 0 < w <= 8 && v < Pow2(w) && |was| == |now|
    requires off + (p + w - 1) / 8 < |was| && off + q / 8 < |was|
    requires lo == Low(Shl(v, p % 8), 8)
    requires p % 8 + w > 8 ==> hi == Shr(v, 8 - p % 8)
    requires forall j | 0 <= j < |was| ::
               now[j] == if j == off + p / 8 then Or(was[j], lo)
                         else if j == off + p / 8 + 1 && p % 8 + w > 8 then Or(was[j], hi)
                         else was[j]
    ensures BitFrom(now, off, q) == (BitFrom(was, off, q) || (p <= q < p + w && Bit(v, q - p)))
  {
    hide Bit, Or, Low, Shl, Shr;
    var b, r := q % 8, p % 8;
    if q / 8 == p / 8 {
      LowPart(v, w, r, b);
      OrByteBit(was[off + q / 8], lo, b);
      assert q - p == b - r;
    } else if q / 8 == p / 8 + 1 && r + w > 8 {
      HighPart(v, w, r, b);
      OrByteBit(was[off + q / 8], hi, b);
      assert q - p == b + 8 - r;
    } else {
      assert !(p <= q < p + w);
    }
  }

  method Clear(buf: array<Byte>, off: nat, n: nat)
    requires off + n <= buf.Length
    modifies buf
    ensures forall j | 0 <= j < buf.Length :: buf[j] == if off <= j < off + n then 0 else old(buf[j])
  {
    for i := off to off + n
      invariant forall j | 0 <= j < buf.Length :: buf[j] == if off <= j < i then 0 else old(buf[j])
    {
      buf[i] := 0;
    }
  }

  // Fields below bit position p are written, the bits from p on are still clear.
  ghost predicate PackedUpTo(s: seq<Byte>, off: nat, ts: seq<nat>, w: nat, p: nat)
    requires w > 0 && off + PackedLen(|ts|, w) <= |s|
  {
    forall q: nat | q < 8 * PackedLen(|ts|, w) :: BitFrom(s, off, q) == (q < p && FieldBit(ts, w, q))
  }

  lemma PackedAll(s: seq<Byte>, off: nat, ts: seq<nat>, w: nat)
    requires w > 0 && off + PackedLen(|ts|, w) <= |s|
    requires PackedUpTo(s, off, ts, w, |ts| * w)
    ensures s[off..off + PackedLen(|ts|, w)] == Pack(ts, w)
  {
    var t := s[off..off + PackedLen(|ts|, w)];
    forall q: nat | q < 8 * |t| ensures BitAt(t, q) == FieldBit(ts, w, q) {
      assert BitFrom(s, off, q) == BitAt(t, q);
      FieldBitInside(ts, w, q);
    }
    PackUnique(t, ts, w);
  }

  lemma FieldBitInside(ts: seq<nat>, w: nat, q: nat)
    requires w > 0
    ensures FieldBit(ts, w, q) ==> q < |ts| * w
  {
    var i, k := q / w, q % w;
    assert q == i * w + k;
    if i < |ts| {
      MulMono(i + 1, |ts|, w);
      assert (i + 1) * w == i * w + w;
    }
  }

  lemma ClearedUpTo(s: seq<Byte>, off: nat, ts: seq<nat>, w: nat)
    requires w > 0 && off + PackedLen(|ts|, w) <= |s|
    requires forall j | off <= j < off + PackedLen(|ts|, w) :: s[j] == 0
    ensures PackedUpTo(s, off, ts, w, 0)
  {
    forall q: nat | q < 8 * PackedLen(|ts|, w) ensures !BitFrom(s, off, q) { ZeroBit(q % 8); }
  }

  // OR-ing in field i extends the packed prefix by w bits and disturbs no earlier field.
  lemma FieldWritten(was: seq<Byte>, now: seq<Byte>, off: nat, ts: seq<nat>, w: nat, i: nat)
    requires w > 0 && |was| == |now| && off + PackedLen(|ts|, w) <= |was| && i < |ts|
    requires PackedUpTo(was, off, ts, w, i * w)
    requires forall q: nat | off + q / 8 < |was| ::
               BitFrom(now, off, q) == (BitFrom(was, off, q) || (i * w <= q < i * w + w && Bit(ts[i], q - i * w)))
    ensures PackedUpTo(now, off, ts, w, i * w + w)
  {
    forall q: nat | q < 8 * PackedLen(|ts|, w)
      ensures BitFrom(now, off, q) == (q < i * w + w && FieldBit(ts, w, q))
    {
      assert off + q / 8 < |was|;
      assert BitFrom(was, off, q) == (q < i * w && FieldBit(ts, w, q));
      if i * w <= q < i * w + w { FieldPosition(|ts|, w, i, q - i * w); }
    }
  }

  // One bit at a time: bit p of the packed fields.
  lemma BitWritten(was: seq<Byte>, now: seq<Byte>, off: nat, ts: seq<nat>, w: nat, p: nat)
    requires w > 0 && |was| == |now| && off + PackedLen(|ts|, w) <= |was| && p < 8 * PackedLen(|ts|, w)
    requires PackedUpTo(was, off, ts, w, p)
    requires if FieldBit(ts, w, p)
             then forall q: nat | off + q / 8 < |was| ::
                    BitFrom(now, off, q) == (BitFrom(was, off, q) || (p <= q < p + 1 && Bit(1, q - p)))
             else now == was
    ensures PackedUpTo(now, off, ts, w, p + 1)
  {
    forall q: nat | q < 8 * PackedLen(|ts|, w)
      ensures BitFrom(now, off, q) == (q < p + 1 && FieldBit(ts, w, q))
    {
      assert off + q / 8 < |was|;
      assert BitFrom(was, off, q) == (q < p && FieldBit(ts, w, q));
    }
  }

  // pack_bt and pack_types: clear only the bytes the fields need, then OR each in.
  method PackFields(ts: seq<nat>, w: nat, buf: array<Byte>, off: nat)
    requires 0 < w <= 8 && off + PackedLen(|ts|, w) <= buf.Length
    requires forall t | t in ts :: t < Pow2(w)
    modifies buf
    ensures Written(old(buf[..]), buf[..], off, Pack(ts, w))
  {
    var n := PackedLen(|ts|, w);
    Clear(buf, off, n);
    ClearedUpTo(buf[..], off, ts, w);
    for i := 0 to |ts|
      invariant forall j | 0 <= j < off || off + n <= j < buf.Length :: buf[j] == old(buf[j])
      invariant PackedUpTo(buf[..], off, ts, w, i * w)
    {
      FieldPosition(|ts|, w, i, 0);
      ghost var was := buf[..];
      assert ts[i] in ts;
      SetField(buf, off, i * w, w, ts[i]);
      FieldWritten(was, buf[..], off, ts, w, i);
      assert (i + 1) * w == i * w + w;
    }
    PackedAll(buf[..], off, ts, w);
  }

  // The delta loops: one bit at a time, into bytes that the caller has cleared.
  method PackBits(ts: seq<nat>, w: nat, buf: array<Byte>, off: nat)
    requires 0 < w && off + PackedLen(|ts|, w) <= buf.Length
    requires forall j | off <= j < off + PackedLen(|ts|, w) :: buf[j] == 0
    modifies buf
    ensures Written(old(buf[..]), buf[..], off, Pack(ts, w))
  {
    ghost var n := PackedLen(|ts|, w);
    ClearedUpTo(buf[..], off, ts, w);
    var bitPos := 0;
    for i := 0 to |ts|
      invariant bitPos == i * w
      invariant forall j | 0 <= j < off || off + n <= j < buf.Length :: buf[j] == old(buf[j])
      invariant PackedUpTo(buf[..], off, ts, w, bitPos)
    {
      PackOne(ts, w, buf, off, i, bitPos);
      assert (i + 1) * w == i * w + w;
      bitPos := bitPos + w;
    }
    PackedAll(buf[..], off, ts, w);
  }

  // The inner loop over the w bits of field i.
  method PackOne(ts: seq<nat>, w: nat, buf: array<Byte>, off: nat, i: nat, bitPos: nat)
    requires 0 < w && off + PackedLen(|ts|, w) <= buf.Length
    requires i < |ts| && bitPos == i * w
    requires PackedUpTo(buf[..], off, ts, w, bitPos)
    modifies buf
    ensures forall j | 0 <= j < off || off + PackedLen(|ts|, w) <= j < buf.Length :: buf[j] == old(buf[j])
    ensures PackedUpTo(buf[..], off, ts, w, bitPos + w)
  {
    ghost var n := PackedLen(|ts|, w);
    for b := 0 to w
      invariant forall j | 0 <= j < off || off + n <= j < buf.Length :: buf[j] == old(buf[j])
      invariant PackedUpTo(buf[..], off, ts, w, bitPos + b)
    {
      FieldPosition(|ts|, w, i, b);
      ghost var was := buf[..];
      if Bit(ts[i], b) {
        BytePow();
        SetField(buf, off, bitPos + b, 1, 1);
      }
      BitWritten(was, buf[..], off, ts, w, bitPos + b);
    }
  }

  // The delta decoding loop: OR together the w bits at bit position p.
  method UnpackBits(s: seq<Byte>, p: nat, w: nat) returns (v: nat)
    requires p + w <= 8 * |s|
    ensures v == FieldAt(s, p, w)
  {
    v := 0;
    ghost var field := FieldAt(s, p, w);
    FieldAtBit(s, p, w, 0);
    forall k: nat ensures !Bit(v, k) { ZeroBit(k); }
    for b := 0 to w
      invariant v < Pow2(w)
      invariant forall k: nat :: Bit(v, k) == (k < b && Bit(field, k))
    {
      FieldAtBit(s, p, w, b);
      if BitAt(s, p + b) {
        ghost var v0 := v;
        PowLess(b, w);
        OrBound(v, Pow2(b), w);
        v := Or(v, Pow2(b));
        forall k: nat ensures Bit(v, k) == (k < b + 1 && Bit(field, k)) {
          OrBit(v0, Pow2(b), k);
          PowBit(b, k);
        }
      }
    }
    SameBitsEqual(v, field, w);
  }

  lemma {:induction false} PowLess(a: nat, b: nat)
    requires a < b
    ensures Pow2(a) < Pow2(b)
  {
    PowMono(a + 1, b);
  }
}
