/**
  What the WKdm codecs write, said of the words and bytes themselves: which words meet
  in the dictionary, what each word of a page becomes, where it stands in the stream,
  and what a page costs.
*/
module WkdmLaws {
  import opened Bits
  import opened Buffers
  import opened Packing
  import opened Wkdm
  import ByteBlocks

  // ---- Which words meet ----

  // Words that agree in bits 4 to 7, or for 64-bit words in bits 3 to 7.
  predicate Meet(v: Variant, a: nat, b: nat) {
    forall k | (if v.W32? then 4 else 3) <= k < 8 :: Bit(a, k) == Bit(b, k)
  }

  // Bit k of the slot of a word.
  lemma SlotBit(v: Variant, w: nat, k: nat)
    ensures Bit(Hash(v, w), k) ==
            if v.W32? then k < 4 && Bit(w, k + 4) else k < 5 && Bit(w, k + 3)
  {
    var shift, width := if v.W32? then 4 else 3, if v.W32? then 4 else 5;
    ShrBit(w, shift, k);
    LowBit(Shr(w, shift), width, k);
    SlotIsField(v, w);
  }

  lemma SlotIsField(v: Variant, w: nat)
    ensures Hash(v, w) == if v.W32? then Low(Shr(w, 4), 4) else Low(Shr(w, 3), 5)
  {
    BytePow();
    ShrLow(w, 3);
    ShrLow(w, 4);
    ShrLow(w / 16, 4);
    ShrLow(w / 8, 5);
  }

  // Two words share a slot of the dictionary exactly if they meet.
  lemma SlotIff(v: Variant, a: nat, b: nat)
    ensures Hash(v, a) == Hash(v, b) <==> Meet(v, a, b)
  {
    hide Bit, Hash;
    var lo, n := if v.W32? then 4 else 3, if v.W32? then 4 else 5;
    if Hash(v, a) == Hash(v, b) {
      forall k | lo <= k < 8 ensures Bit(a, k) == Bit(b, k) {
        SlotBit(v, a, k - lo);
        SlotBit(v, b, k - lo);
      }
    }
    if Meet(v, a, b) {
      BytePow();
      forall k | 0 <= k < n ensures Bit(Hash(v, a), k) == Bit(Hash(v, b), k) {
        SlotBit(v, a, k);
        SlotBit(v, b, k);
        assert Bit(a, k + lo) == Bit(b, k + lo);
      }
      SameBitsEqual(Hash(v, a), Hash(v, b), n);
    }
  }

  // ---- What each word becomes ----

  // A word is the last non-zero word before position i of all that meet it.
  ghost predicate Recent(v: Variant, ws: seq<nat>, i: nat, w: nat)
    requires i <= |ws|
  {
    exists j :: 0 <= j < i && ws[j] == w && forall k | j < k < i && ws[k] != 0 :: !Meet(v, ws[k], w)
  }

  // 0 for a zero word, 1 for one that was seen and not displaced since, 2 for one whose
  // upper half is zero, and 3 for any other.
  ghost function TagOf(v: Variant, ws: seq<nat>, i: nat): nat
    requires i < |ws|
  {
    if ws[i] == 0 then 0
    else if Recent(v, ws, i, ws[i]) then 1
    else if ws[i] < (if v.W32? then 0x1_0000 else 0x1_0000_0000) then 2
    else 3
  }

  // The positions from i to m whose words become t.
  ghost function Tagged(v: Variant, ws: seq<nat>, t: nat, i: nat, m: nat): set<int>
    requires m <= |ws|
  {
    set j | i <= j < m && TagOf(v, ws, j) == t
  }

  // The dictionary holds exactly the recent words.
  ghost predicate Knows(v: Variant, ws: seq<nat>, i: nat, dict: Dict)
    requires i <= |ws| && |dict| == Slots(v)
  {
    forall w: nat | w != 0 :: dict[Hash(v, w)] == w <==> Recent(v, ws, i, w)
  }

  lemma KnowsNext(v: Variant, ws: seq<nat>, i: nat, dict: Dict)
    requires i < |ws| && |dict| == Slots(v) && Knows(v, ws, i, dict)
    ensures Knows(v, ws, i + 1, Learn(v, ws[i], dict))
  {
    hide Meet, Hash, Recent;
    var x, next := ws[i], Learn(v, ws[i], dict);
    forall w: nat | w != 0 ensures next[Hash(v, w)] == w <==> Recent(v, ws, i + 1, w) {
      SlotIff(v, x, w);
      if x != 0 && Hash(v, x) == Hash(v, w) { RecentHere(v, ws, i, w); } else { RecentLater(v, ws, i, w); }
    }
  }

  lemma RecentHere(v: Variant, ws: seq<nat>, i: nat, w: nat)
    requires i < |ws| && ws[i] != 0 && Meet(v, ws[i], w)
    ensures Recent(v, ws, i + 1, w) <==> ws[i] == w
  {
    hide Meet;
    if ws[i] == w { assert 0 <= i < i + 1 && ws[i] == w; }
  }

  lemma RecentLater(v: Variant, ws: seq<nat>, i: nat, w: nat)
    requires i < |ws| && w != 0 && (ws[i] == 0 || !Meet(v, ws[i], w))
    ensures Recent(v, ws, i + 1, w) <==> Recent(v, ws, i, w)
  {
    assert ws[i] != w by { MeetsItself(v, w); }
    hide Meet;
    if Recent(v, ws, i, w) {
      var j :| 0 <= j < i && ws[j] == w && forall k | j < k < i && ws[k] != 0 :: !Meet(v, ws[k], w);
      assert 0 <= j < i + 1 && ws[j] == w;
    }
    if Recent(v, ws, i + 1, w) {
      var j :| 0 <= j < i + 1 && ws[j] == w && forall k | j < k < i + 1 && ws[k] != 0 :: !Meet(v, ws[k], w);
      assert 0 <= j < i && ws[j] == w;
    }
  }

  lemma MeetsItself(v: Variant, w: nat)
    ensures Meet(v, w, w)
  {
  }

  lemma EmitTag(v: Variant, ws: seq<nat>, i: nat, dict: Dict)
    requires i < |ws| && |dict| == Slots(v) && Knows(v, ws, i, dict)
    ensures Emits(v, ws, i, Emit(v, ws[i], dict))
  {
    hide Hash, Recent;
  }

  lemma TaggedFirst(v: Variant, ws: seq<nat>, t: nat, i: nat, m: nat)
    requires i < m <= |ws|
    ensures |Tagged(v, ws, t, i, m)| == |Tagged(v, ws, t, i + 1, m)| + BitValue(TagOf(v, ws, i) == t)
  {
    hide TagOf;
    var rest := Tagged(v, ws, t, i + 1, m);
    assert i !in rest;
    assert Tagged(v, ws, t, i, m) == if TagOf(v, ws, i) == t then rest + {i as int} else rest;
  }

  // Word m of a page, encoded from position i on: its tag, and its place among the
  // words with the same tag.
  ghost predicate Placed(v: Variant, ws: seq<nat>, i: nat, c: Coded, m: nat)
    requires i <= m < |ws| && |c.tags| == |ws| - i
  {
    var t := TagOf(v, ws, m);
    var k := |Tagged(v, ws, t, i, m)|;
    && c.tags[m - i] == t
    && (t == 1 ==> k < |c.exact| && c.exact[k] == Hash(v, ws[m]))
    && (t == 2 ==> k < |c.partials| && c.partials[k] == ws[m])
    && (t == 3 ==> k < |c.misses| && c.misses[k] == ws[m])
  }

  lemma {:induction false} EncodePlaces(v: Variant, ws: seq<nat>, i: nat, dict: Dict, m: nat)
    requires i <= m < |ws| && |dict| == Slots(v) && Knows(v, ws, i, dict)
    ensures Placed(v, ws, i, Encode(v, ws, i, dict), m)
    decreases m - i
  {
    hide Hash, Emit, Learn, Knows, TagOf, Tagged, Placed, Append;
    EmitTag(v, ws, i, dict);
    if i == m {
      PlacedHere(v, ws, i, Emit(v, ws[i], dict), Encode(v, ws, i + 1, Learn(v, ws[i], dict)));
    } else {
      KnowsNext(v, ws, i, dict);
      EncodePlaces(v, ws, i + 1, Learn(v, ws[i], dict), m);
      PlacedBehind(v, ws, i, Emit(v, ws[i], dict), Encode(v, ws, i + 1, Learn(v, ws[i], dict)), m);
    }
  }

  // What the word at position i emits.
  ghost predicate Emits(v: Variant, ws: seq<nat>, i: nat, c: Coded)
    requires i < |ws|
  {
    var t := TagOf(v, ws, i);
    && c.tags == [t]
    && c.exact == (if t == 1 then [Hash(v, ws[i])] else [])
    && c.partials == (if t == 2 then [ws[i]] else []) && c.misses == (if t == 3 then [ws[i]] else [])
  }

  lemma PlacedHere(v: Variant, ws: seq<nat>, i: nat, a: Coded, b: Coded)
    requires i < |ws| && Emits(v, ws, i, a) && |b.tags| == |ws| - (i + 1)
    ensures Placed(v, ws, i, Append(a, b), i)
  {
    hide Hash, TagOf, Tagged;
    NoneTagged(v, ws, i);
  }

  lemma PlacedBehind(v: Variant, ws: seq<nat>, i: nat, a: Coded, b: Coded, m: nat)
    requires i < m < |ws| && Emits(v, ws, i, a) && |b.tags| == |ws| - (i + 1) && Placed(v, ws, i + 1, b, m)
    ensures Placed(v, ws, i, Append(a, b), m)
  {
    hide Hash, TagOf, Tagged;
    TaggedFirst(v, ws, TagOf(v, ws, m), i, m);
  }

  lemma NoneTagged(v: Variant, ws: seq<nat>, i: nat)
    requires i <= |ws|
    ensures forall t :: Tagged(v, ws, t, i, i) == {}
  {
  }

  lemma {:induction false} EncodeCounts(v: Variant, ws: seq<nat>, i: nat, dict: Dict)
    requires i <= |ws| && |dict| == Slots(v) && Knows(v, ws, i, dict)
    ensures var c := Encode(v, ws, i, dict);
            && |c.exact| == |Tagged(v, ws, 1, i, |ws|)| && |c.partials| == |Tagged(v, ws, 2, i, |ws|)|
            && |c.misses| == |Tagged(v, ws, 3, i, |ws|)|
    decreases |ws| - i
  {
    hide Hash, Emit, Learn, Knows, TagOf, Tagged;
    if i == |ws| {
      NoneTagged(v, ws, i);
    } else {
      EmitTag(v, ws, i, dict);
      KnowsNext(v, ws, i, dict);
      EncodeCounts(v, ws, i + 1, Learn(v, ws[i], dict));
      TaggedFirst(v, ws, 1, i, |ws|);
      TaggedFirst(v, ws, 2, i, |ws|);
      TaggedFirst(v, ws, 3, i, |ws|);
    }
  }

  lemma KnowsNothing(v: Variant, ws: seq<nat>)
    ensures Knows(v, ws, 0, EmptyDict(v))
  {
    hide Hash;
  }

  // Every word of a page: its tag, and behind the tags its slot, its lower half or the
  // word itself, in the order of the words.
  lemma WordBecomes(v: Variant, ws: seq<nat>, m: nat)
    requires m < |ws|
    ensures var c, t := Encode(v, ws, 0, EmptyDict(v)), TagOf(v, ws, m);
            var k := |set j | 0 <= j < m && TagOf(v, ws, j) == t|;
            && c.tags[m] == t
            && (t == 1 ==>
                  && k < |c.exact| && c.exact[k] < Slots(v)
                  && forall b | 0 <= b < (if v.W32? then 4 else 5) ::
                       Bit(c.exact[k], b) == Bit(ws[m], b + if v.W32? then 4 else 3))
            && (t == 2 ==> k < |c.partials| && c.partials[k] == ws[m])
            && (t == 3 ==> k < |c.misses| && c.misses[k] == ws[m])
  {
    hide Hash, TagOf, Encode, Knows;
    KnowsNothing(v, ws);
    EncodePlaces(v, ws, 0, EmptyDict(v), m);
    assert Tagged(v, ws, TagOf(v, ws, m), 0, m) == set j | 0 <= j < m && TagOf(v, ws, j) == TagOf(v, ws, m);
    forall b: nat ensures Bit(Hash(v, ws[m]), b) ==
                          if v.W32? then b < 4 && Bit(ws[m], b + 4) else b < 5 && Bit(ws[m], b + 3)
    {
      SlotBit(v, ws[m], b);
    }
  }

  // ---- What a page costs ----

  // A byte for each word seen before, half a word for each small new one, a whole word
  // for each other new one, besides a header and two bits per word.
  ghost function Cost(v: Variant, ws: seq<nat>): nat {
    var exact := |set j | 0 <= j < |ws| && TagOf(v, ws, j) == 1|;
    var partials := |set j | 0 <= j < |ws| && TagOf(v, ws, j) == 2|;
    var misses := |set j | 0 <= j < |ws| && TagOf(v, ws, j) == 3|;
    12 + (|ws| + 3) / 4 + exact + (if v.W32? then 2 * partials + 4 * misses else 4 * partials + 8 * misses)
  }

  lemma CodedCost(v: Variant, ws: seq<nat>)
    ensures SizeOf(v, Encode(v, ws, 0, EmptyDict(v))) == Cost(v, ws)
  {
    hide Hash, TagOf, Encode, Knows;
    KnowsNothing(v, ws);
    EncodeCounts(v, ws, 0, EmptyDict(v));
    forall t ensures Tagged(v, ws, t, 0, |ws|) == set j | 0 <= j < |ws| && TagOf(v, ws, j) == t {}
  }

  // What minimem_wkdm_compress and minimem_wkdm64_compress answer.
  lemma CompressibleIff(v: Variant, src: seq<Byte>, dstCap: nat)
    ensures var wb := if v.W32? then 4 else 8;
            Compressible(v, src, dstCap) <==>
            && |src| > 0 && |src| % wb == 0
            && Cost(v, Words(src, wb, |src| / wb)) < |src| && Cost(v, Words(src, wb, |src| / wb)) <= dstCap
    ensures Compressible(v, src, dstCap) ==>
              |StreamOf(v, CodedOf(v, src))| == Cost(v, Words(src, WordBytes(v), |src| / WordBytes(v)))
  {
    hide Encode, Words, Cost, StreamOf, SizeOf;
    if |src| % WordBytes(v) == 0 {
      CodedCost(v, Words(src, WordBytes(v), |src| / WordBytes(v)));
    }
  }

  // ---- Where it stands in the stream ----

  lemma HeaderNumbers(s: seq<Byte>, c: Coded)
    requires HoldsAt(s, 0, StreamHeader(c))
    ensures NumberAt(s, 0, |c.tags|, 4) && NumberAt(s, 4, |c.exact|, 4) && NumberAt(s, 8, |c.partials|, 4)
  {
    hide ToLE, HoldsAt, NumberAt;
    HoldsSplit(s, 0, ToLE(|c.tags|, 4) + ToLE(|c.exact|, 4), ToLE(|c.partials|, 4));
    HoldsSplit(s, 0, ToLE(|c.tags|, 4), ToLE(|c.exact|, 4));
    NumberHolds(s, 0, |c.tags|, 4);
    NumberHolds(s, 4, |c.exact|, 4);
    NumberHolds(s, 8, |c.partials|, 4);
  }

  // The three counts of the header, the two-bit tags, the slots, the half words and the
  // words, each at its place.
  lemma StreamLayout(v: Variant, c: Coded)
    ensures var s, hb, wb := StreamOf(v, c), if v.W32? then 2 else 4, if v.W32? then 4 else 8;
            var e0 := 12 + (|c.tags| + 3) / 4;
            var p0 := e0 + |c.exact|;
            var m0 := p0 + |c.partials| * hb;
            && |s| == m0 + |c.misses| * wb
            && NumberAt(s, 0, |c.tags|, 4) && NumberAt(s, 4, |c.exact|, 4) && NumberAt(s, 8, |c.partials|, 4)
            && FieldsAt(s, 12, c.tags, 2)
            && (forall j | 0 <= j < |c.exact| :: s[e0 + j] == c.exact[j])
            && (forall j | 0 <= j < |c.partials| :: NumberAt(s, p0 + j * hb, c.partials[j], hb))
            && (forall j | 0 <= j < |c.misses| :: NumberAt(s, m0 + j * wb, c.misses[j], wb))
  {
    hide Pack, BytesOf, StreamHeader, StreamOf, FieldsAt, NumberAt;
    var s := StreamOf(v, c);
    StreamParts(v, c);
    SizeIsProduct(v, |c.partials|);
    SizeIsProduct(v, |c.misses|);
    HeaderNumbers(s, c);
    var e0 := 12 + TagBytes(|c.tags|);
    PackedFields(s, 12, c.tags, TAG_BITS);
    forall j | 0 <= j < |c.exact| ensures s[e0 + j] == c.exact[j] {
      assert s[e0 + j] == s[e0..e0 + |c.exact|][j];
    }
    var p0 := e0 + |c.exact|;
    forall j | 0 <= j < |c.partials|
      ensures NumberAt(s, p0 + j * PartialBytes(v), c.partials[j], PartialBytes(v))
    {
      ImageAt(s, p0, c.partials, PartialBytes(v), j);
    }
    var m0 := p0 + |c.partials| * PartialBytes(v);
    forall j | 0 <= j < |c.misses| ensures NumberAt(s, m0 + j * WordBytes(v), c.misses[j], WordBytes(v)) {
      ImageAt(s, m0, c.misses, WordBytes(v), j);
    }
  }

  // ---- Pages whose words do not meet ----

  // No two different non-zero words agree in the bits of the slot.
  predicate Apart(v: Variant, ws: seq<nat>) {
    forall a, b | a in ws && b in ws && a != 0 && b != 0 && Meet(v, a, b) :: a == b
  }

  lemma ApartDoNotCollide(v: Variant, ws: seq<nat>)
    ensures NoCollisions(v, ws) <==> Apart(v, ws)
  {
    hide Hash, Meet;
    forall a: nat, b: nat ensures Hash(v, a) == Hash(v, b) <==> Meet(v, a, b) { SlotIff(v, a, b); }
  }

  lemma {:induction false} NonZeroSet(ws: seq<nat>, i: nat)
    requires i <= |ws|
    ensures NonZeroWords(ws, i) == |set j | i <= j < |ws| && ws[j] != 0|
    decreases |ws| - i
  {
    var all := set j | i <= j < |ws| && ws[j] != 0;
    if i == |ws| {
      assert all == {};
    } else {
      NonZeroSet(ws, i + 1);
      var rest := set j | i + 1 <= j < |ws| && ws[j] != 0;
      assert all == if ws[i] != 0 then rest + {i as int} else rest;
    }
  }

  // Then at most as many words as there are slots are new, every other non-zero word has
  // been seen, and a full page always compresses.
  lemma ApartCost(v: Variant, src: seq<Byte>)
    requires |src| % WordBytes(v) == 0
    requires Apart(v, Words(src, WordBytes(v), |src| / WordBytes(v)))
    ensures var ws := Words(src, WordBytes(v), |src| / WordBytes(v));
            var c, nonZero := CodedOf(v, src), |set j | 0 <= j < |ws| && ws[j] != 0|;
            && |c.partials| + |c.misses| <= (if v.W32? then 16 else 32)
            && |c.exact| + |c.partials| + |c.misses| == nonZero
            && Cost(v, ws) <= 12 + (|ws| + 3) / 4 + nonZero + if v.W32? then 64 else 256
    ensures |src| == 4096 ==> forall dstCap | 4096 <= dstCap :: Compressible(v, src, dstCap)
  {
    hide Encode, Words, NonZeroWords, NoCollisions, Apart, Cost, DictFrom;
    var ws := Words(src, WordBytes(v), |src| / WordBytes(v));
    ApartDoNotCollide(v, ws);
    NoCollisionSize(v, src);
    EmptyOccupied(EmptyDict(v));
    EmptyFrom(v, ws);
    Pigeonhole(v, ws, 0, EmptyDict(v));
    NonZeroSet(ws, 0);
    CodedCost(v, ws);
  }

  lemma EmptyFrom(v: Variant, ws: seq<nat>)
    ensures DictFrom(v, ws, EmptyDict(v))
  {
  }
}
