/**
  The page-table marker of a compressed page: a non-present swap entry of the PTE
  marker type whose inverted offset field carries a flag and the map index.
*/
module PteMarker {
  import opened Bits

  const SWP_TYPE_BITS := 5
  const SWP_TYPE_SHIFT := 59
  const SWP_OFFSET_SHIFT := 14
  const PTE_MARKER_TYPE := 31
  const INDEX_SHIFT := 4
  const PAGE_SHIFT := 12

  // The offset field has 50 bits, of which the flags take four.
  const INDEX_BITS := 46

  // unsigned long
  type Word = x: nat | x < Pow2(64) witness 0

  // PTE_MARKER_MINIMEM, BIT(3)
  function MinimemFlag(): (f: Word) {
    PowLess64(3);
    Pow2(3)
  }

  lemma {:induction false} PowLess64(n: nat)
    requires n < 64
    ensures Pow2(n) < Pow2(64)
    decreases 64 - n
  {
    if n < 63 { PowLess64(n + 1); }
  }

  function Not64(x: Word): Word {
    Pow2(64) - 1 - x
  }

  function Shl64(x: Word, n: nat): Word {
    Low(Shl(x, n), 64)
  }

  function Shr64(x: Word, n: nat): Word {
    ShrBound(x, n);
    Shr(x, n)
  }

  function Or64(x: Word, y: Word): Word {
    OrBound(x, y, 64);
    Or(x, y)
  }

  function SwpType(entry: Word): Word {
    Shr64(entry, SWP_TYPE_SHIFT)
  }

  function SwpOffset(entry: Word): Word {
    Shr64(Shl64(Not64(entry), SWP_TYPE_BITS), SWP_OFFSET_SHIFT)
  }

  function SwpEntry(ty: Word, offset: Word): Word {
    Or64(Shr64(Shl64(Not64(offset), SWP_OFFSET_SHIFT), SWP_TYPE_BITS), Shl64(ty, SWP_TYPE_SHIFT))
  }

  function MarkerType(): Word {
    PowLess64(5);
    assert Pow2(5) == 32 by { BytePow(); }
    PTE_MARKER_TYPE
  }

  function MakeEntry(index: Word): Word {
    SwpEntry(MarkerType(), Or64(MinimemFlag(), Shl64(index, INDEX_SHIFT)))
  }

  predicate IsMinimemEntry(entry: Word) {
    SwpType(entry) == PTE_MARKER_TYPE && Bit(SwpOffset(entry), 3)
  }

  function EntryIndex(entry: Word): Word {
    Shr64(SwpOffset(entry), INDEX_SHIFT)
  }

  // pte_present on x86-64: _PAGE_PRESENT (bit 0) or _PAGE_PROTNONE (bit 8)
  predicate PtePresent(pte: Word) {
    Bit(pte, 0) || Bit(pte, 8)
  }

  predicate IsMinimemPte(pte: Word) {
    !PtePresent(pte) && IsMinimemEntry(pte)
  }

  function VaddrToIndex(vaddr: Word): Word {
    Shr64(vaddr, PAGE_SHIFT)
  }

  function IndexToVaddr(index: Word): Word {
    Shl64(index, PAGE_SHIFT)
  }

  // ---- Bits of the encodings ----

  lemma ShlBit64(x: Word, n: nat, k: nat)
    ensures Bit(Shl64(x, n), k) == (n <= k < 64 && Bit(x, k - n))
  {
    LowBit(Shl(x, n), 64, k);
    ShlBit(x, n, k);
  }

  // Bit k of an encoded entry: the inverted offset below bit 59, the type above.
  lemma SwpEntryBit(ty: Word, offset: Word, k: nat)
    requires k < 64
    ensures Bit(SwpEntry(ty, offset), k) ==
            ((9 <= k < 59 && !Bit(offset, k - 9)) || (59 <= k && Bit(ty, k - 59)))
  {
    hide Shl, Shr, Low, Bit, Or;
    var hi := Shl64(Not64(offset), SWP_OFFSET_SHIFT);
    OrBit(Shr64(hi, SWP_TYPE_BITS), Shl64(ty, SWP_TYPE_SHIFT), k);
    ShrBit(hi, SWP_TYPE_BITS, k);
    ShlBit64(Not64(offset), SWP_OFFSET_SHIFT, k + 5);
    if 9 <= k < 59 { NotBit(offset, 64, k - 9); }
    ShlBit64(ty, SWP_TYPE_SHIFT, k);
  }

  // Bit k of the offset decoded from an entry.
  lemma SwpOffsetBit(entry: Word, k: nat)
    ensures Bit(SwpOffset(entry), k) == (k < 50 && !Bit(entry, k + 9))
  {
    var hi := Shl64(Not64(entry), SWP_TYPE_BITS);
    ShrBit(hi, SWP_OFFSET_SHIFT, k);
    ShlBit64(Not64(entry), SWP_TYPE_BITS, k + 14);
    if k < 50 { NotBit(entry, 64, k + 9); }
  }

  lemma OffsetRoundTripBit(ty: Word, offset: Word, k: nat)
    ensures Bit(SwpOffset(SwpEntry(ty, offset)), k) == (k < 50 && Bit(offset, k))
  {
    SwpOffsetBit(SwpEntry(ty, offset), k);
    if k < 50 { SwpEntryBit(ty, offset, k + 9); }
  }

  lemma MarkerOffsetBit(index: Word, k: nat)
    ensures var offset := Or64(MinimemFlag(), Shl64(index, INDEX_SHIFT));
            Bit(offset, k) == (k == 3 || (4 <= k < 64 && Bit(index, k - 4)))
  {
    OrBit(MinimemFlag(), Shl64(index, INDEX_SHIFT), k);
    PowBit(3, k);
    ShlBit64(index, INDEX_SHIFT, k);
  }

  lemma MarkerType31(index: Word)
    ensures SwpType(MakeEntry(index)) == PTE_MARKER_TYPE
  {
    var offset := Or64(MinimemFlag(), Shl64(index, INDEX_SHIFT));
    var entry := MakeEntry(index);
    BytePow();
    forall k | 0 <= k < 64 ensures Bit(SwpType(entry), k) == Bit(PTE_MARKER_TYPE, k) {
      ShrBit(entry, SWP_TYPE_SHIFT, k);
      if k < 5 {
        SwpEntryBit(MarkerType(), offset, k + 59);
      } else {
        BoundBit(entry, 64, k + 59);
        BoundBit(PTE_MARKER_TYPE, 5, k);
      }
    }
    SameBitsEqual(SwpType(entry), MarkerType(), 64);
  }

  // The flag bits of a marker's offset: MiniMem's alone.
  lemma MarkerFlags(index: Word, k: nat)
    requires k < 4
    ensures Bit(SwpOffset(MakeEntry(index)), k) == (k == 3)
  {
    hide Shl, Shr, Low, Bit, Or, SwpOffset, SwpEntry;
    OffsetRoundTripBit(MarkerType(), Or64(MinimemFlag(), Shl64(index, INDEX_SHIFT)), k);
    MarkerOffsetBit(index, k);
  }

  lemma MarkerAbsent(index: Word)
    ensures !PtePresent(MakeEntry(index))
  {
    hide Shl, Shr, Low, Bit, Or, SwpEntry;
    var offset := Or64(MinimemFlag(), Shl64(index, INDEX_SHIFT));
    SwpEntryBit(MarkerType(), offset, 0);
    SwpEntryBit(MarkerType(), offset, 8);
  }

  lemma MarkerIndexBit(index: Word, k: nat)
    ensures Bit(EntryIndex(MakeEntry(index)), k) == Bit(Low(index, INDEX_BITS), k)
  {
    hide Shl, Shr, Low, Bit, Or, SwpOffset, SwpEntry;
    ShrBit(SwpOffset(MakeEntry(index)), INDEX_SHIFT, k);
    OffsetRoundTripBit(MarkerType(), Or64(MinimemFlag(), Shl64(index, INDEX_SHIFT)), k + 4);
    MarkerOffsetBit(index, k + 4);
    LowBit(index, INDEX_BITS, k);
  }

  lemma MarkerIndex(index: Word)
    ensures EntryIndex(MakeEntry(index)) == Low(index, INDEX_BITS)
  {
    hide Low, Bit, EntryIndex, MakeEntry, Pow2;
    LowLess64(index);
    forall k | 0 <= k < 64 ensures Bit(EntryIndex(MakeEntry(index)), k) == Bit(Low(index, INDEX_BITS), k) {
      MarkerIndexBit(index, k);
    }
    SameBitsEqual(EntryIndex(MakeEntry(index)), Low(index, INDEX_BITS), 64);
  }

  lemma MarkerNotZero(index: Word)
    ensures MakeEntry(index) != 0
  {
    hide MakeEntry, Shr;
    MarkerType31(index);
    ZeroShr(SWP_TYPE_SHIFT);
  }

  // A marker, bit by bit: nothing below bit 9, the inverted flag in bit 12, the inverted
  // index from bit 13 on, the other inverted bits set, and above them the type.
  lemma MarkerBit(index: Word, k: nat)
    requires k < 64
    ensures Bit(MakeEntry(index), k) <==>
            59 <= k || 9 <= k < 12 || (13 <= k < 59 && !Bit(index, k - 13))
  {
    hide Shl, Shr, Low, Or, SwpEntry;
    var offset := Or64(MinimemFlag(), Shl64(index, INDEX_SHIFT));
    SwpEntryBit(MarkerType(), offset, k);
    if 9 <= k < 59 { MarkerOffsetBit(index, k - 9); }
    if 59 <= k { FiveOnes(k - 59); }
  }

  lemma FiveOnes(k: nat)
    requires k < 5
    ensures Bit(MarkerType(), k)
  {
    assert Bit(31, 0) && Bit(15, 0) && Bit(7, 0) && Bit(3, 0) && Bit(1, 0);
    if k == 0 { assert Bit(31, k); }
    if k == 1 { assert Bit(31, k) == Bit(15, 0); }
    if k == 2 { assert Bit(31, k) == Bit(15, 1) == Bit(7, 0); }
    if k == 3 { assert Bit(31, k) == Bit(15, 2) == Bit(7, 1) == Bit(3, 0); }
    if k == 4 { assert Bit(31, k) == Bit(15, 3) == Bit(7, 2) == Bit(3, 1) == Bit(1, 0); }
  }

  // The five highest bits.
  predicate TopBits(pte: Word) {
    forall k | 59 <= k < 64 :: Bit(pte, k)
  }

  lemma TypeIff(pte: Word)
    ensures SwpType(pte) == 31 <==> TopBits(pte)
  {
    hide Shr;
    if SwpType(pte) == 31 {
      forall k | 59 <= k < 64 ensures Bit(pte, k) {
        ShrBit(pte, SWP_TYPE_SHIFT, k - 59);
        FiveOnes(k - 59);
      }
    }
    if TopBits(pte) {
      BytePow();
      ShrLess(pte, SWP_TYPE_SHIFT, 5);
      forall k | 0 <= k < 5 ensures Bit(SwpType(pte), k) == Bit(31, k) {
        ShrBit(pte, SWP_TYPE_SHIFT, k);
        FiveOnes(k);
      }
      SameBitsEqual(SwpType(pte), 31, 5);
    }
  }

  // What is taken for a marker, and the index read from it.
  lemma MarkerIff(pte: Word)
    ensures IsMinimemPte(pte) <==> TopBits(pte) && !Bit(pte, 0) && !Bit(pte, 8) && !Bit(pte, 12)
    ensures forall k: nat :: Bit(EntryIndex(pte), k) <==> k < 46 && !Bit(pte, k + 13)
  {
    hide Shl, Shr, Low, Or, SwpOffset, TopBits;
    SwpOffsetBit(pte, 3);
    TypeIff(pte);
    forall k: nat ensures Bit(EntryIndex(pte), k) <==> k < 46 && !Bit(pte, k + 13) {
      ShrBit(SwpOffset(pte), INDEX_SHIFT, k);
      SwpOffsetBit(pte, k + 4);
    }
  }

  // Every marker is a non-present, non-zero entry of the marker type, recognised as
  // MiniMem's, whose userfaultfd, poison and guard flags are clear; the index comes
  // back modulo 2^46.
  lemma MarkerRoundTrip(index: Word)
    ensures IsMinimemPte(MakeEntry(index)) && MakeEntry(index) != 0
    ensures forall k | 0 <= k < 3 :: !Bit(SwpOffset(MakeEntry(index)), k)
    ensures EntryIndex(MakeEntry(index)) == Low(index, INDEX_BITS)
  {
    hide Low, Bit, EntryIndex, MakeEntry, PtePresent, SwpOffset, SwpType;
    MarkerType31(index);
    MarkerNotZero(index);
    MarkerAbsent(index);
    MarkerIndex(index);
    forall k | 0 <= k < 4 ensures Bit(SwpOffset(MakeEntry(index)), k) == (k == 3) { MarkerFlags(index, k); }
  }

  lemma {:induction false} ZeroShr(n: nat)
    ensures Shr(0, n) == 0
    decreases n
  {
    if n > 0 { ZeroShr(n - 1); }
  }

  lemma LowLess64(x: nat)
    ensures Low(x, INDEX_BITS) < Pow2(64)
  {
    PowLess64(INDEX_BITS);
  }

  lemma {:induction false} LowIdentity(x: nat, n: nat)
    requires x < Pow2(n)
    ensures Low(x, n) == x
    decreases n
  {
    if n > 0 { LowIdentity(x / 2, n - 1); }
  }

  lemma {:induction false} ShrLess(x: nat, n: nat, m: nat)
    requires x < Pow2(n + m)
    ensures Shr(x, n) < Pow2(m)
    decreases n
  {
    if n > 0 { ShrLess(x / 2, n - 1, m); }
  }

  // The index survives exactly if it has at most 46 bits.
  lemma IndexSurvivesIff(index: Word)
    ensures EntryIndex(MakeEntry(index)) == index <==> index < Pow2(INDEX_BITS)
  {
    MarkerRoundTrip(index);
    if index < Pow2(INDEX_BITS) { LowIdentity(index, INDEX_BITS); }
  }

  // From address to index to marker and back.
  lemma VaddrRoundTrip(vaddr: Word)
    requires vaddr < Pow2(58) && Low(vaddr, PAGE_SHIFT) == 0
    ensures IndexToVaddr(EntryIndex(MakeEntry(VaddrToIndex(vaddr)))) == vaddr
  {
    hide Shl, Shr, Low, Bit, Or, MakeEntry, EntryIndex, Pow2;
    ShrLess(vaddr, PAGE_SHIFT, INDEX_BITS);
    IndexSurvivesIff(VaddrToIndex(vaddr));
    var index := VaddrToIndex(vaddr);
    forall k | 0 <= k < 64 ensures Bit(IndexToVaddr(index), k) == Bit(vaddr, k) {
      ShlBit64(index, PAGE_SHIFT, k);
      if k < 12 {
        LowBit(vaddr, PAGE_SHIFT, k);
        ZeroBit(k);
      } else {
        ShrBit(vaddr, PAGE_SHIFT, k - 12);
      }
    }
    SameBitsEqual(IndexToVaddr(index), vaddr, 64);
  }
}
