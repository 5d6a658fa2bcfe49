/**
  WKdm and WKdm-64: dictionary compression of 32- or 64-bit words.  Encoder and
  decoder keep a small direct-mapped dictionary of recent words; nothing about it is
  transmitted, so both sides have to change it in lockstep.
*/
module Wkdm {
  import opened Bits
  import opened Buffers
  import opened Packing
  import ByteBlocks

  datatype Variant = W32 | W64

  const ZERO: Byte := 0
  const EXACT: Byte := 1
  const PARTIAL: Byte := 2
  const MISS: Byte := 3
  const TAG_BITS := 2

  const PAGE_SIZE := 4096

  function WordBytes(v: Variant): nat { if v.W32? then 4 else 8 }

  function PartialBytes(v: Variant): nat { if v.W32? then 2 else 4 }

  function Slots(v: Variant): nat { if v.W32? then 16 else 32 }

  // (V >> 4) & 0xF and (V >> 3) & 0x1F
  function Hash(v: Variant, w: nat): (h: nat)
    ensures h < Slots(v)
  {
    if v.W32? then (w / 16) % 16 else (w / 8) % 32
  }

  // The upper half of the word is zero.
  predicate IsPartial(v: Variant, w: nat) {
    w < (if v.W32? then 0x1_0000 else 0x1_0000_0000)
  }

  type Dict = seq<nat>

  function EmptyDict(v: Variant): (d: Dict)
    ensures |d| == Slots(v) && forall h | 0 <= h < Slots(v) :: d[h] == 0
  {
    seq(Slots(v), _ => 0)
  }

  // ---- The encoder ----

  // Tags, exact slots, partial words and missed words, each in word order.
  datatype Coded = Coded(tags: seq<nat>, exact: seq<Byte>, partials: seq<nat>, misses: seq<nat>)

  function Append(a: Coded, b: Coded): Coded {
    Coded(a.tags + b.tags, a.exact + b.exact, a.partials + b.partials, a.misses + b.misses)
  }

  // What one word emits, and the dictionary after it.
  function Emit(v: Variant, w: nat, dict: Dict): (c: Coded)
    requires |dict| == Slots(v)
    ensures |c.tags| == 1 && c.tags[0] <= 3
    ensures |c.exact| + |c.partials| + |c.misses| <= 1
  {
    var h := Hash(v, w);
    if w == 0 then Coded([ZERO], [], [], [])
    else if dict[h] == w then Coded([EXACT], [h], [], [])
    else if IsPartial(v, w) then Coded([PARTIAL], [], [w], [])
    else Coded([MISS], [], [], [w])
  }

  function Learn(v: Variant, w: nat, dict: Dict): (d: Dict)
    requires |dict| == Slots(v)
    ensures |d| == Slots(v)
  {
    if w == 0 || dict[Hash(v, w)] == w then dict else dict[Hash(v, w) := w]
  }

  // Words i.. of ws, starting from the given dictionary.
  function Encode(v: Variant, ws: seq<nat>, i: nat, dict: Dict): (c: Coded)
    requires i <= |ws| && |dict| == Slots(v)
    ensures |c.tags| == |ws| - i
    decreases |ws| - i
  {
    if i == |ws| then Coded([], [], [], [])
    else Append(Emit(v, ws[i], dict), Encode(v, ws, i + 1, Learn(v, ws[i], dict)))
  }

  predicate AreWords(v: Variant, ws: seq<nat>) {
    forall w | w in ws :: w < Pow2(8 * WordBytes(v))
  }

  predicate FieldsFit(v: Variant, c: Coded) {
    && (forall t | t in c.tags :: t < 4)
    && (forall e | e in c.exact :: e < Slots(v))
    && (forall p | p in c.partials :: IsPartial(v, p))
    && (forall m | m in c.misses :: m < Pow2(8 * WordBytes(v)))
  }

  function CountMisses(tags: seq<nat>): nat {
    if |tags| == 0 then 0 else CountMisses(tags[..|tags| - 1]) + BitValue(tags[|tags| - 1] == MISS)
  }

  lemma {:induction false} CountMissesAppend(a: seq<nat>, b: seq<nat>)
    ensures CountMisses(a + b) == CountMisses(a) + CountMisses(b)
  {
    if |b| == 0 {
      assert a + b == a;
    } else {
      assert (a + b)[..|a + b| - 1] == a + b[..|b| - 1];
      CountMissesAppend(a, b[..|b| - 1]);
    }
  }

  // Every emitted field fits the width it is stored with: tags in 2 bits, exact
  // indices in the dictionary, partial words in half a word.
  lemma {:induction false} EncodeFits(v: Variant, ws: seq<nat>, i: nat, dict: Dict)
    requires i <= |ws| && |dict| == Slots(v) && AreWords(v, ws)
    ensures FieldsFit(v, Encode(v, ws, i, dict))
    ensures CountMisses(Encode(v, ws, i, dict).tags) == |Encode(v, ws, i, dict).misses|
    ensures var c := Encode(v, ws, i, dict); |c.exact| + |c.partials| + |c.misses| <= |ws| - i
    decreases |ws| - i
  {
    hide Learn, Emit, FieldsFit, CountMisses;
    if i == |ws| {
      NothingFits(v);
    } else {
      assert ws[i] in ws;
      var a, b := Emit(v, ws[i], dict), Encode(v, ws, i + 1, Learn(v, ws[i], dict));
      EncodeFits(v, ws, i + 1, Learn(v, ws[i], dict));
      EmitFits(v, ws[i], dict);
      AppendFits(v, a, b);
    }
  }

  lemma NothingFits(v: Variant)
    ensures FieldsFit(v, Coded([], [], [], [])) && CountMisses([]) == 0
  {
  }

  lemma AppendFits(v: Variant, a: Coded, b: Coded)
    requires FieldsFit(v, a) && FieldsFit(v, b)
    ensures FieldsFit(v, Append(a, b)) && CountMisses(Append(a, b).tags) == CountMisses(a.tags) + CountMisses(b.tags)
  {
    hide CountMisses, IsPartial;
    CountMissesAppend(a.tags, b.tags);
  }

  lemma EmitFits(v: Variant, w: nat, dict: Dict)
    requires |dict| == Slots(v) && w < Pow2(8 * WordBytes(v))
    ensures FieldsFit(v, Emit(v, w, dict))
    ensures CountMisses(Emit(v, w, dict).tags) == |Emit(v, w, dict).misses|
  {
    assert Emit(v, w, dict).tags[..0] == [];
  }

  // ---- The stream ----

  function TagBytes(n: nat): nat {
    (n * TAG_BITS + 7) / 8
  }

  function PartialSize(v: Variant, n: nat): nat { if v.W32? then 2 * n else 4 * n }

  function WordSize(v: Variant, n: nat): nat { if v.W32? then 4 * n else 8 * n }

  function SizeOf(v: Variant, c: Coded): nat {
    12 + TagBytes(|c.tags|) + |c.exact| + PartialSize(v, |c.partials|) + WordSize(v, |c.misses|)
  }

  function StreamHeader(c: Coded): (s: seq<Byte>)
    ensures |s| == 12
  {
    ToLE(|c.tags|, 4) + ToLE(|c.exact|, 4) + ToLE(|c.partials|, 4)
  }

  function StreamOf(v: Variant, c: Coded): (s: seq<Byte>)
    ensures |s| == SizeOf(v, c)
  {
    hide ToLE;
    StreamHeader(c) + Pack(c.tags, TAG_BITS) + c.exact
    + BytesOf(c.partials, PartialBytes(v)) + BytesOf(c.misses, WordBytes(v))
  }

  function CodedOf(v: Variant, src: seq<Byte>): Coded
    requires |src| % WordBytes(v) == 0
  {
    assert |src| / WordBytes(v) * WordBytes(v) == |src|;
    Encode(v, Words(src, WordBytes(v), |src| / WordBytes(v)), 0, EmptyDict(v))
  }

  predicate Compressible(v: Variant, src: seq<Byte>, dstCap: nat) {
    && |src| > 0
    && |src| % WordBytes(v) == 0
    && SizeOf(v, CodedOf(v, src)) < |src|
    && SizeOf(v, CodedOf(v, src)) <= dstCap
  }

  // ---- The decoder ----

  // Positions in the exact, partial and miss areas, and the dictionary so far.
  datatype Cursor = Cursor(exact: nat, partial: nat, miss: nat, dict: Dict)

  function Start(v: Variant): Cursor {
    Cursor(0, 0, 0, EmptyDict(v))
  }

  datatype Step = NoWord | Word(w: nat, next: Cursor)

  predicate SlotsFit(v: Variant, exact: seq<Byte>) {
    forall e | e in exact :: e < Slots(v)
  }

  // One word, from its tag.
  function ReadWord(v: Variant, tag: nat, c: Coded, cur: Cursor): (s: Step)
    requires |cur.dict| == Slots(v) && SlotsFit(v, c.exact)
    ensures s.Word? ==> |s.next.dict| == Slots(v)
  {
    if tag == ZERO then Word(0, cur)
    else if tag == EXACT then
      if cur.exact >= |c.exact| then NoWord
      else assert c.exact[cur.exact] in c.exact; Word(cur.dict[c.exact[cur.exact]], cur.(exact := cur.exact + 1))
    else if tag == PARTIAL then
      if cur.partial >= |c.partials| then NoWord else
        var w := c.partials[cur.partial];
        Word(w, cur.(partial := cur.partial + 1, dict := cur.dict[Hash(v, w) := w]))
    else if tag == MISS then
      if cur.miss >= |c.misses| then NoWord else
        var w := c.misses[cur.miss];
        Word(w, cur.(miss := cur.miss + 1, dict := cur.dict[Hash(v, w) := w]))
    else NoWord
  }

  function PrependWord(w: nat, o: Option<seq<nat>>): Option<seq<nat>> {
    if o.None? then None else Some([w] + o.value)
  }

  // Words i.. of the page.
  function DecodeWords(v: Variant, c: Coded, i: nat, cur: Cursor): (o: Option<seq<nat>>)
    requires i <= |c.tags| && |cur.dict| == Slots(v) && SlotsFit(v, c.exact)
    ensures o.Some? ==> |o.value| == |c.tags| - i
    decreases |c.tags| - i
  {
    if i == |c.tags| then Some([]) else
      var s := ReadWord(v, c.tags[i], c, cur);
      if s.NoWord? then None else PrependWord(s.w, DecodeWords(v, c, i + 1, s.next))
  }

  // ---- Lockstep ----

  // What is left to read at the cursor.
  function Rest(c: Coded, i: nat, cur: Cursor): Coded
    requires i <= |c.tags| && cur.exact <= |c.exact| && cur.partial <= |c.partials| && cur.miss <= |c.misses|
  {
    Coded(c.tags[i..], c.exact[cur.exact..], c.partials[cur.partial..], c.misses[cur.miss..])
  }

  function Advance(v: Variant, w: nat, cur: Cursor): (next: Cursor)
    requires |cur.dict| == Slots(v)
    ensures |next.dict| == Slots(v)
  {
    var a := Emit(v, w, cur.dict);
    Cursor(cur.exact + |a.exact|, cur.partial + |a.partials|, cur.miss + |a.misses|, Learn(v, w, cur.dict))
  }

  // One word: reading what was emitted returns the word, consumes exactly what was
  // emitted from each area, and changes the dictionary as the encoder changed it.
  lemma ReadEmitted(v: Variant, w: nat, rest: Coded, c: Coded, i: nat, cur: Cursor)
    requires |cur.dict| == Slots(v) && SlotsFit(v, c.exact)
    requires i < |c.tags| && cur.exact <= |c.exact| && cur.partial <= |c.partials| && cur.miss <= |c.misses|
    requires Rest(c, i, cur) == Append(Emit(v, w, cur.dict), rest)
    ensures ReadWord(v, c.tags[i], c, cur) == Word(w, Advance(v, w, cur))
    ensures var next := Advance(v, w, cur);
            && next.exact <= |c.exact| && next.partial <= |c.partials| && next.miss <= |c.misses|
            && Rest(c, i + 1, next) == rest
  {
    hide Rest, Append, Hash, IsPartial;
    var a := Emit(v, w, cur.dict);
    RestBehind(c, i, cur, a, rest, Advance(v, w, cur));
  }

  // What is left, when it begins with one emitted word: its fields are found at the
  // cursor, and behind them is the rest.
  lemma RestBehind(c: Coded, i: nat, cur: Cursor, a: Coded, rest: Coded, next: Cursor)
    requires i < |c.tags| && cur.exact <= |c.exact| && cur.partial <= |c.partials| && cur.miss <= |c.misses|
    requires Rest(c, i, cur) == Append(a, rest) && |a.tags| == 1
    requires next.exact == cur.exact + |a.exact| && next.partial == cur.partial + |a.partials|
              && next.miss == cur.miss + |a.misses|
    ensures c.tags[i] == a.tags[0]
    ensures next.exact <= |c.exact| && (|a.exact| == 1 ==> c.exact[cur.exact] == a.exact[0])
    ensures next.partial <= |c.partials| && (|a.partials| == 1 ==> c.partials[cur.partial] == a.partials[0])
    ensures next.miss <= |c.misses| && (|a.misses| == 1 ==> c.misses[cur.miss] == a.misses[0])
    ensures Rest(c, i + 1, next) == rest
  {
    TailOf(c.tags, i, a.tags, rest.tags);
    TailOf(c.exact, cur.exact, a.exact, rest.exact);
    TailOf(c.partials, cur.partial, a.partials, rest.partials);
    TailOf(c.misses, cur.miss, a.misses, rest.misses);
  }

  lemma TailOf<T>(s: seq<T>, i: nat, a: seq<T>, b: seq<T>)
    requires i <= |s| && s[i..] == a + b
    ensures i + |a| <= |s| && s[i + |a|..] == b
    ensures |a| == 1 ==> s[i] == a[0]
  {
    assert s[i + |a|..] == s[i..][|a|..];
    if |a| == 1 { assert s[i] == s[i..][0]; }
  }

  // The dictionaries of both sides are equal after every word: the recursive call
  // passes one dictionary to both.
  lemma {:induction false} DecodeEncode(v: Variant, ws: seq<nat>, c: Coded, i: nat, cur: Cursor)
    requires i <= |ws| == |c.tags| && |cur.dict| == Slots(v) && SlotsFit(v, c.exact)
    requires cur.exact <= |c.exact| && cur.partial <= |c.partials| && cur.miss <= |c.misses|
    requires Rest(c, i, cur) == Encode(v, ws, i, cur.dict)
    ensures DecodeWords(v, c, i, cur) == Some(ws[i..])
    decreases |ws| - i
  {
    hide Emit, Learn, ReadWord, Rest, Append;
    if i == |ws| {
      assert ws[i..] == [];
    } else {
      var next := Advance(v, ws[i], cur);
      ReadEmitted(v, ws[i], Encode(v, ws, i + 1, next.dict), c, i, cur);
      DecodeEncode(v, ws, c, i + 1, next);
      assert ws[i..] == [ws[i]] + ws[i + 1..];
    }
  }

  // ---- The encoder's loop ----

  // The caller's scratch buffers; their prior contents do not matter.
  datatype Scratch = Scratch(tags: array<Byte>, exact: array<Byte>, partials: array<Byte>, misses: array<Byte>)

  predicate IsScratch(v: Variant, b: Scratch) {
    && b.tags.Length == PAGE_SIZE / 4 && b.exact.Length == PAGE_SIZE / 4
    && b.partials.Length == (if v.W32? then PAGE_SIZE / 2 else PAGE_SIZE) && b.misses.Length == PAGE_SIZE
    && b.tags != b.exact && b.tags != b.partials && b.tags != b.misses
    && b.exact != b.partials && b.exact != b.misses && b.partials != b.misses
  }

  // The exact, partial and miss buffers hold what `done` says.
  ghost predicate Stored(v: Variant, done: Coded, b: Scratch)
    requires IsScratch(v, b)
    reads b.exact, b.partials, b.misses
  {
    && |done.exact| <= b.exact.Length
    && b.exact[..|done.exact|] == done.exact
    && PartialSize(v, |done.partials|) <= b.partials.Length
    && b.partials[..PartialSize(v, |done.partials|)] == BytesOf(done.partials, PartialBytes(v))
    && WordSize(v, |done.misses|) <= b.misses.Length
    && b.misses[..WordSize(v, |done.misses|)] == BytesOf(done.misses, WordBytes(v))
  }

  // `done` is what the first i words emitted; the rest of `all` will come from the
  // remaining words and the dictionary as it is now.
  predicate Progress(v: Variant, ws: seq<nat>, all: Coded, done: Coded, i: nat, dict: Dict) {
    && i <= |ws| == |all.tags| && |ws| <= PAGE_SIZE / WordBytes(v) && |dict| == Slots(v)
    && all == Append(done, Encode(v, ws, i, dict)) && |done.tags| == i
    && |done.exact| + |done.partials| + |done.misses| <= i
  }

  lemma SizeIsProduct(v: Variant, n: nat)
    ensures PartialSize(v, n) == n * PartialBytes(v) && WordSize(v, n) == n * WordBytes(v)
  {
  }

  lemma StoredOne(was: seq<Byte>, now: seq<Byte>, ws: seq<nat>, w: nat, wb: nat, off: nat)
    requires wb > 0 && off == |ws| * wb <= |was|
    requires was[..off] == BytesOf(ws, wb)
    requires Written(was, now, off, ToLE(w, wb))
    ensures now[..off + wb] == BytesOf(ws + [w], wb)
  {
    BytesOfOne(ws, w, wb);
    assert now[..off] == was[..off];
    assert now[..off + wb] == now[..off] + now[off..off + wb];
  }

  method SetTag(tags: array<Byte>, i: nat, tag: Byte, ghost all: seq<nat>)
    requires i < |all| && all[i] == tag < 4 && TagBytes(|all|) <= tags.Length
    requires PackedUpTo(tags[..], 0, all, TAG_BITS, TAG_BITS * i)
    modifies tags
    ensures PackedUpTo(tags[..], 0, all, TAG_BITS, TAG_BITS * (i + 1))
  {
    BytePow();
    FieldPosition(|all|, TAG_BITS, i, 1);
    ghost var was := tags[..];
    SetField(tags, 0, TAG_BITS * i, TAG_BITS, tag);
    FieldWritten(was, tags[..], 0, all, TAG_BITS, i);
  }

  lemma EncodeStep(v: Variant, ws: seq<nat>, all: Coded, done: Coded, i: nat, dict: Dict)
    requires i < |ws| && Progress(v, ws, all, done, i, dict)
    ensures Progress(v, ws, all, Append(done, Emit(v, ws[i], dict)), i + 1, Learn(v, ws[i], dict))
    ensures all.tags[i] == Emit(v, ws[i], dict).tags[0]
  {
    hide Emit, Learn;
    var a, rest := Emit(v, ws[i], dict), Encode(v, ws, i + 1, Learn(v, ws[i], dict));
    AppendAssoc(done, a, rest);
  }

  lemma AppendAssoc(a: Coded, b: Coded, c: Coded)
    ensures Append(a, Append(b, c)) == Append(Append(a, b), c)
  {
    assert a.tags + (b.tags + c.tags) == a.tags + b.tags + c.tags;
    assert a.exact + (b.exact + c.exact) == a.exact + b.exact + c.exact;
    assert a.partials + (b.partials + c.partials) == a.partials + b.partials + c.partials;
    assert a.misses + (b.misses + c.misses) == a.misses + b.misses + c.misses;
  }

  method StoreExact(v: Variant, h: Byte, b: Scratch, ec: nat, ghost done: Coded)
    requires IsScratch(v, b) && Stored(v, done, b) && ec == |done.exact| < b.exact.Length
    modifies b.exact
    ensures Stored(v, Append(done, Coded([], [h], [], [])), b)
  {
    hide BytesOf;
    ghost var was := b.exact[..ec];
    b.exact[ec] := h;
    assert b.exact[..ec + 1] == was + [h];
    assert done.partials + [] == done.partials && done.misses + [] == done.misses;
  }

  method StorePartial(v: Variant, w: nat, b: Scratch, pc: nat, ghost done: Coded)
    requires IsScratch(v, b) && Stored(v, done, b) && pc == |done.partials| < PAGE_SIZE / WordBytes(v)
    modifies b.partials
    ensures Stored(v, Append(done, Coded([], [], [w], [])), b)
  {
    hide BytesOf, ToLE;
    ghost var was := b.partials[..];
    SizeIsProduct(v, pc);
    Copy(ToLE(w, PartialBytes(v)), b.partials, PartialSize(v, pc));
    StoredOne(was, b.partials[..], done.partials, w, PartialBytes(v), PartialSize(v, pc));
    assert done.exact + [] == done.exact && done.misses + [] == done.misses;
  }

  method StoreMiss(v: Variant, w: nat, b: Scratch, mc: nat, ghost done: Coded)
    requires IsScratch(v, b) && Stored(v, done, b) && mc == |done.misses| < PAGE_SIZE / WordBytes(v)
    modifies b.misses
    ensures Stored(v, Append(done, Coded([], [], [], [w])), b)
  {
    hide BytesOf, ToLE;
    ghost var was := b.misses[..];
    SizeIsProduct(v, mc);
    Copy(ToLE(w, WordBytes(v)), b.misses, WordSize(v, mc));
    StoredOne(was, b.misses[..], done.misses, w, WordBytes(v), WordSize(v, mc));
    assert done.exact + [] == done.exact && done.partials + [] == done.partials;
  }

  lemma StoredIgnoresTags(v: Variant, a: Coded, c: Coded, b: Scratch)
    requires IsScratch(v, b) && Stored(v, a, b)
    requires a.exact == c.exact && a.partials == c.partials && a.misses == c.misses
    ensures Stored(v, c, b)
  {
  }

  // One iteration: emit word i and update the dictionary.
  method EncodeWord(v: Variant, ws: seq<nat>, i: nat, dict: array<nat>, b: Scratch, ec: nat, pc: nat, mc: nat,
                    ghost all: Coded, ghost done: Coded)
    returns (ec': nat, pc': nat, mc': nat)
    requires IsScratch(v, b) && i < |ws| && dict.Length == Slots(v)
    requires Progress(v, ws, all, done, i, dict[..]) && Stored(v, done, b)
    requires PackedUpTo(b.tags[..], 0, all.tags, TAG_BITS, TAG_BITS * i)
    requires ec == |done.exact| && pc == |done.partials| && mc == |done.misses|
    modifies dict, b.tags, b.exact, b.partials, b.misses
    ensures dict[..] == Learn(v, ws[i], old(dict[..]))
    ensures var now := Append(done, Emit(v, ws[i], old(dict[..])));
            && Stored(v, now, b)
            && ec' == |now.exact| && pc' == |now.partials| && mc' == |now.misses|
    ensures PackedUpTo(b.tags[..], 0, all.tags, TAG_BITS, TAG_BITS * (i + 1))
  {
    hide Encode, PackedUpTo, Stored;
    var val := ws[i];
    ec', pc', mc' := ec, pc, mc;
    EncodeStep(v, ws, all, done, i, dict[..]);
    ghost var now := Append(done, Emit(v, val, dict[..]));
    if val == 0 {
      SetTag(b.tags, i, ZERO, all.tags);
      StoredIgnoresTags(v, done, now, b);
    } else {
      var h := Hash(v, val);
      if dict[h] == val {
        SetTag(b.tags, i, EXACT, all.tags);
        StoreExact(v, h, b, ec, done);
        StoredIgnoresTags(v, Append(done, Coded([], [h], [], [])), now, b);
        ec' := ec + 1;
      } else if IsPartial(v, val) {
        SetTag(b.tags, i, PARTIAL, all.tags);
        StorePartial(v, val, b, pc, done);
        StoredIgnoresTags(v, Append(done, Coded([], [], [val], [])), now, b);
        pc' := pc + 1;
        dict[h] := val;
      } else {
        SetTag(b.tags, i, MISS, all.tags);
        StoreMiss(v, val, b, mc, done);
        StoredIgnoresTags(v, Append(done, Coded([], [], [], [val])), now, b);
        mc' := mc + 1;
        dict[h] := val;
      }
    }
  }

  // The word loop over the whole page.
  method EncodeAll(v: Variant, ws: seq<nat>, b: Scratch) returns (ec: nat, pc: nat, mc: nat)
    requires IsScratch(v, b) && |ws| <= PAGE_SIZE / WordBytes(v)
    modifies b.tags, b.exact, b.partials, b.misses
    ensures var all := Encode(v, ws, 0, EmptyDict(v));
            && b.tags[..TagBytes(|ws|)] == Pack(all.tags, TAG_BITS)
            && Stored(v, all, b)
            && ec == |all.exact| && pc == |all.partials| && mc == |all.misses|
  {
    hide PackedUpTo, Stored, Pack, BytesOf, Learn, Emit, Encode, Append;
    var dict := new nat[Slots(v)](_ => 0);
    ghost var all, done := Encode(v, ws, 0, EmptyDict(v)), Coded([], [], [], []);
    assert dict[..] == EmptyDict(v);
    NothingEmitted(v, ws);
    Clear(b.tags, 0, TagBytes(|ws|));
    ClearedUpTo(b.tags[..], 0, all.tags, TAG_BITS);
    StoredNothing(v, b);
    ec, pc, mc := 0, 0, 0;
    for i := 0 to |ws|
      invariant Progress(v, ws, all, done, i, dict[..]) && Stored(v, done, b)
      invariant PackedUpTo(b.tags[..], 0, all.tags, TAG_BITS, TAG_BITS * i)
      invariant ec == |done.exact| && pc == |done.partials| && mc == |done.misses|
    {
      EncodeStep(v, ws, all, done, i, dict[..]);
      ghost var a := Emit(v, ws[i], dict[..]);
      ec, pc, mc := EncodeWord(v, ws, i, dict, b, ec, pc, mc, all, done);
      done := Append(done, a);
    }
    PackedAll(b.tags[..], 0, all.tags, TAG_BITS);
    EncodeEnd(v, ws, all, done, dict[..]);
  }

  lemma NothingEmitted(v: Variant, ws: seq<nat>)
    requires |ws| <= PAGE_SIZE / WordBytes(v)
    ensures Progress(v, ws, Encode(v, ws, 0, EmptyDict(v)), Coded([], [], [], []), 0, EmptyDict(v))
  {
    hide Encode;
    var all := Encode(v, ws, 0, EmptyDict(v));
    assert all == Append(Coded([], [], [], []), all);
  }

  lemma StoredNothing(v: Variant, b: Scratch)
    requires IsScratch(v, b)
    ensures Stored(v, Coded([], [], [], []), b)
  {
  }

  lemma EncodeEnd(v: Variant, ws: seq<nat>, all: Coded, done: Coded, dict: Dict)
    requires Progress(v, ws, all, done, |ws|, dict)
    ensures all == done
  {
    assert done.tags + [] == done.tags && done.exact + [] == done.exact;
    assert done.partials + [] == done.partials && done.misses + [] == done.misses;
  }

  method WriteHeader(n: nat, ec: nat, pc: nat, dst: array<Byte>, ghost c: Coded)
    requires n == |c.tags| && ec == |c.exact| && pc == |c.partials| && dst.Length >= 12
    modifies dst
    ensures Written(old(dst[..]), dst[..], 0, StreamHeader(c))
  {
    hide ToLE, Written;
    ghost var s0 := dst[..];
    Copy(ToLE(n, 4), dst, 0);
    ghost var s1 := dst[..];
    Copy(ToLE(ec, 4), dst, 4);
    ghost var s2 := dst[..];
    WrittenThen(s0, s1, s2, 0, ToLE(n, 4), ToLE(ec, 4));
    Copy(ToLE(pc, 4), dst, 8);
    WrittenThen(s0, s2, dst[..], 0, ToLE(n, 4) + ToLE(ec, 4), ToLE(pc, 4));
  }

  // The final memcpy's of header and areas.
  method WriteStream(v: Variant, b: Scratch, ghost c: Coded, n: nat, ec: nat, pc: nat, mc: nat, dst: array<Byte>)
    returns (r: nat)
    requires IsScratch(v, b) && Stored(v, c, b) && TagBytes(n) <= b.tags.Length
    requires b.tags[..TagBytes(n)] == Pack(c.tags, TAG_BITS)
    requires n == |c.tags| && ec == |c.exact| && pc == |c.partials| && mc == |c.misses|
    requires SizeOf(v, c) <= dst.Length
    requires dst != b.tags && dst != b.exact && dst != b.partials && dst != b.misses
    modifies dst
    ensures r == SizeOf(v, c)
    ensures Written(old(dst[..]), dst[..], 0, StreamOf(v, c))
  {
    hide Pack, BytesOf, Written, StreamHeader;
    ghost var s0 := dst[..];
    ghost var h, t, e, p, m := StreamHeader(c), Pack(c.tags, TAG_BITS), c.exact,
      BytesOf(c.partials, PartialBytes(v)), BytesOf(c.misses, WordBytes(v));
    WriteHeader(n, ec, pc, dst, c);
    r := 12;
    ghost var s1 := dst[..];
    Copy(b.tags[..TagBytes(n)], dst, r);
    r := r + TagBytes(n);
    ghost var s2 := dst[..];
    WrittenThen(s0, s1, s2, 0, h, t);
    Copy(b.exact[..ec], dst, r);
    r := r + ec;
    ghost var s3 := dst[..];
    WrittenThen(s0, s2, s3, 0, h + t, e);
    Copy(b.partials[..PartialSize(v, pc)], dst, r);
    r := r + PartialSize(v, pc);
    ghost var s4 := dst[..];
    WrittenThen(s0, s3, s4, 0, h + t + e, p);
    Copy(b.misses[..WordSize(v, mc)], dst, r);
    r := r + WordSize(v, mc);
    WrittenThen(s0, s4, dst[..], 0, h + t + e + p, m);
  }

  // The size is computed before anything is written: when the page does not
  // compress, dst is left untouched.
  method Compress(v: Variant, src: seq<Byte>, dst: array<Byte>, b: Scratch) returns (r: nat)
    requires |src| <= PAGE_SIZE && IsScratch(v, b)
    requires dst != b.tags && dst != b.exact && dst != b.partials && dst != b.misses
    modifies dst, b.tags, b.exact, b.partials, b.misses
    ensures r > 0 <==> Compressible(v, src, dst.Length)
    ensures r == 0 ==> dst[..] == old(dst[..])
    ensures r > 0 ==> r == SizeOf(v, CodedOf(v, src)) && Written(old(dst[..]), dst[..], 0, StreamOf(v, CodedOf(v, src)))
  {
    hide Stored, Encode, Pack, StreamOf, Written, Words;
    var wb := WordBytes(v);
    if |src| == 0 || |src| % wb != 0 { return 0; }
    var n := |src| / wb;
    assert n * wb == |src|;
    var ws := Words(src, wb, n);
    ghost var c := CodedOf(v, src);
    var ec, pc, mc := EncodeAll(v, ws, b);
    var size := 12 + TagBytes(n) + ec + PartialSize(v, pc) + WordSize(v, mc);
    if size >= |src| || size > dst.Length { return 0; }
    r := WriteStream(v, b, c, n, ec, pc, mc, dst);
  }

  // ---- Decoding a stream ----

  function TagsAt(s: seq<Byte>, base: nat, n: nat): (ts: seq<nat>)
    requires base + TagBytes(n) <= |s|
    ensures |ts| == n
  {
    seq(n, i requires 0 <= i < n => Extract(s, base, TAG_BITS * i, TAG_BITS))
  }

  // The n little-endian words of wb bytes that start at base.
  function WordsFrom(s: seq<Byte>, base: nat, wb: nat, n: nat): (ws: seq<nat>)
    requires base + n * wb <= |s|
    ensures |ws| == n
  {
    Words(s[base..base + n * wb], wb, n)
  }

  // The size checks of the decoder, and the areas it reads from.
  function Parse(v: Variant, s: seq<Byte>, dstCap: nat): (o: Option<Coded>)
    ensures o.Some? ==> 0 < WordSize(v, |o.value.tags|) <= dstCap
  {
    if |s| < 12 then None else
      var n, ec, pc := FromLE(s[0..4]), FromLE(s[4..8]), FromLE(s[8..12]);
      if WordSize(v, n) == 0 || WordSize(v, n) > dstCap then None
      else if 12 + TagBytes(n) > |s| then None else
        var tags, e0 := TagsAt(s, 12, n), 12 + TagBytes(n);
        if e0 + ec > |s| then None else
          var p0 := e0 + ec;
          if p0 + PartialSize(v, pc) > |s| then None else
            var m0, mc := p0 + PartialSize(v, pc), CountMisses(tags);
            if m0 + WordSize(v, mc) > |s| then None else
              SizeIsProduct(v, pc);
              SizeIsProduct(v, mc);
              Some(Coded(tags, s[e0..p0], WordsFrom(s, p0, PartialBytes(v), pc), WordsFrom(s, m0, WordBytes(v), mc)))
  }

  // The decoder indexes its dictionary with the exact bytes unchecked: they have to
  // be slots, as the encoder writes them.
  predicate ExactReadable(v: Variant, s: seq<Byte>, dstCap: nat) {
    Parse(v, s, dstCap).Some? ==> SlotsFit(v, Parse(v, s, dstCap).value.exact)
  }

  function Decode(v: Variant, s: seq<Byte>, dstCap: nat): (o: Option<seq<Byte>>)
    requires ExactReadable(v, s, dstCap)
    ensures o.Some? ==> 0 < |o.value| <= dstCap
  {
    var c := Parse(v, s, dstCap);
    if c.None? then None else
      var ws := DecodeWords(v, c.value, 0, Start(v));
      SizeIsProduct(v, |c.value.tags|);
      if ws.None? then None else Some(BytesOf(ws.value, WordBytes(v)))
  }

  method CountMissTags(tags: seq<nat>) returns (n: nat)
    ensures n == CountMisses(tags)
  {
    n := 0;
    for i := 0 to |tags|
      invariant n == CountMisses(tags[..i])
    {
      assert tags[..i + 1][..i] == tags[..i];
      if tags[i] == MISS { n := n + 1; }
    }
    assert tags[..|tags|] == tags;
  }

  method Decompress(v: Variant, s: seq<Byte>, dst: array<Byte>) returns (r: nat)
    requires ExactReadable(v, s, dst.Length)
    modifies dst
    ensures r > 0 <==> Decode(v, s, dst.Length).Some?
    ensures r > 0 ==>
              r == |Decode(v, s, dst.Length).value| && Written(old(dst[..]), dst[..], 0, Decode(v, s, dst.Length).value)
  {
    hide FromLE, TagsAt, WordsFrom, CountMisses, DecodeWords, BytesOf, Written;
    if |s| < 12 { return 0; }
    var n, ec, pc := FromLE(s[0..4]), FromLE(s[4..8]), FromLE(s[8..12]);
    var expected := WordSize(v, n);
    if expected == 0 || expected > dst.Length { return 0; }
    var tagBytes := TagBytes(n);
    if 12 + tagBytes > |s| { return 0; }
    var tags := TagsAt(s, 12, n);
    var e0 := 12 + tagBytes;
    if e0 + ec > |s| { return 0; }
    var p0 := e0 + ec;
    if p0 + PartialSize(v, pc) > |s| { return 0; }
    var m0 := p0 + PartialSize(v, pc);
    var mc := CountMissTags(tags);
    if m0 + WordSize(v, mc) > |s| { return 0; }
    SizeIsProduct(v, pc);
    SizeIsProduct(v, mc);
    var c := Coded(tags, s[e0..p0], WordsFrom(s, p0, PartialBytes(v), pc), WordsFrom(s, m0, WordBytes(v), mc));
    r := DecodeAll(v, c, dst);
  }

  // `done` holds the words decoded so far; what is left gives the rest of `all`.
  ghost predicate Decoding(v: Variant, c: Coded, all: Option<seq<nat>>, done: seq<nat>, cur: Cursor)
    requires SlotsFit(v, c.exact)
  {
    && |done| <= |c.tags| && |cur.dict| == Slots(v)
    && all == match DecodeWords(v, c, |done|, cur)
              case None => None
              case Some(rest) => Some(done + rest)
  }

  lemma DecodingStep(v: Variant, c: Coded, all: Option<seq<nat>>, done: seq<nat>, cur: Cursor)
    requires SlotsFit(v, c.exact) && Decoding(v, c, all, done, cur) && |done| < |c.tags|
    ensures var s := ReadWord(v, c.tags[|done|], c, cur);
            if s.NoWord? then all.None? else Decoding(v, c, all, done + [s.w], s.next)
  {
    hide ReadWord;
    var s := ReadWord(v, c.tags[|done|], c, cur);
    if s.Word? {
      var rest := DecodeWords(v, c, |done| + 1, s.next);
      if rest.Some? { assert done + ([s.w] + rest.value) == done + [s.w] + rest.value; }
    }
  }

  // The decoder's word loop.
  method DecodeAll(v: Variant, c: Coded, dst: array<Byte>) returns (r: nat)
    requires SlotsFit(v, c.exact) && 0 < WordSize(v, |c.tags|) <= dst.Length
    modifies dst
    ensures r > 0 <==> DecodeWords(v, c, 0, Start(v)).Some?
    ensures r > 0 ==>
              var image := BytesOf(DecodeWords(v, c, 0, Start(v)).value, WordBytes(v));
              r == |image| && Written(old(dst[..]), dst[..], 0, image)
  {
    hide DecodeWords, BytesOf, Written, ToLE, Hash;
    var wb := WordBytes(v);
    var dict := new nat[Slots(v)](_ => 0);
    var exactIdx, partialIdx, missIdx := 0, 0, 0;
    ghost var all, done: seq<nat> := DecodeWords(v, c, 0, Start(v)), [];
    ghost var s0 := dst[..];
    assert dict[..] == EmptyDict(v);
    StartDecoding(v, c);
    WrittenNothing(s0, 0);
    NoBytes(wb);
    for i := 0 to |c.tags|
      invariant |done| == i && Decoding(v, c, all, done, Cursor(exactIdx, partialIdx, missIdx, dict[..]))
      invariant Written(s0, dst[..], 0, BytesOf(done, wb))
    {
      ghost var was := dst[..];
      ghost var step := ReadWord(v, c.tags[i], c, Cursor(exactIdx, partialIdx, missIdx, dict[..]));
      DecodingStep(v, c, all, done, Cursor(exactIdx, partialIdx, missIdx, dict[..]));
      var val: nat := 0;
      var tag := c.tags[i];
      if tag == EXACT {
        if exactIdx >= |c.exact| { return 0; }
        assert c.exact[exactIdx] in c.exact;
        val := dict[c.exact[exactIdx]];
        exactIdx := exactIdx + 1;
      } else if tag == PARTIAL {
        if partialIdx >= |c.partials| { return 0; }
        val := c.partials[partialIdx];
        dict[Hash(v, val)] := val;
        partialIdx := partialIdx + 1;
      } else if tag == MISS {
        if missIdx >= |c.misses| { return 0; }
        val := c.misses[missIdx];
        dict[Hash(v, val)] := val;
        missIdx := missIdx + 1;
      } else if tag != ZERO {
        return 0;
      }
      assert step == Word(val, Cursor(exactIdx, partialIdx, missIdx, dict[..]));
      WordOffset(v, |c.tags|, i);
      Copy(ToLE(val, wb), dst, WordSize(v, i));
      WrittenThen(s0, was, dst[..], 0, BytesOf(done, wb), ToLE(val, wb));
      BytesOfOne(done, val, wb);
      done := done + [val];
    }
    DecodingEnd(v, c, all, done, Cursor(exactIdx, partialIdx, missIdx, dict[..]));
    SizeIsProduct(v, |c.tags|);
    r := WordSize(v, |c.tags|);
  }

  lemma WordOffset(v: Variant, n: nat, i: nat)
    requires i < n
    ensures WordSize(v, i) == i * WordBytes(v) && WordSize(v, i) + WordBytes(v) <= WordSize(v, n)
  {
  }

  lemma NoBytes(wb: nat)
    requires wb > 0
    ensures BytesOf([], wb) == []
  {
  }

  lemma StartDecoding(v: Variant, c: Coded)
    requires SlotsFit(v, c.exact)
    ensures Decoding(v, c, DecodeWords(v, c, 0, Start(v)), [], Start(v))
  {
    hide DecodeWords;
    var o := DecodeWords(v, c, 0, Start(v));
    if o.Some? { assert [] + o.value == o.value; }
  }

  lemma DecodingEnd(v: Variant, c: Coded, all: Option<seq<nat>>, done: seq<nat>, cur: Cursor)
    requires SlotsFit(v, c.exact) && Decoding(v, c, all, done, cur) && |done| == |c.tags|
    ensures all == Some(done)
  {
    assert done + [] == done;
  }

  // ---- Losslessness ----

  lemma FromLEHolds(s: seq<Byte>, pos: nat, x: nat)
    requires HoldsAt(s, pos, ToLE(x, 4)) && x < 0x1_0000_0000
    ensures pos + 4 <= |s| && FromLE(s[pos..pos + 4]) == x
  {
    assert Pow2(32) == 0x1_0000_0000 by { BytePow(); PowByte(1); PowByte(2); PowByte(3); }
    FromToLE(x, 4);
  }

  lemma TagsRoundTrip(s: seq<Byte>, base: nat, tags: seq<nat>)
    requires HoldsAt(s, base, Pack(tags, TAG_BITS)) && forall t | t in tags :: t < 4
    ensures base + TagBytes(|tags|) <= |s| && TagsAt(s, base, |tags|) == tags
  {
    hide Pack, Extract, FieldAt;
    BytePow();
    forall i | 0 <= i < |tags| ensures 8 * base + TAG_BITS * i + TAG_BITS <= 8 * |s|
        && Extract(s, base, TAG_BITS * i, TAG_BITS) == tags[i] {
      assert tags[i] in tags;
      PackRoundTrip(s, base, tags, TAG_BITS, i);
      ExtractIsField(s, base, TAG_BITS * i, TAG_BITS);
    }
  }

  lemma WordsRoundTrip(s: seq<Byte>, base: nat, ws: seq<nat>, wb: nat)
    requires wb > 0 && HoldsAt(s, base, BytesOf(ws, wb)) && forall w | w in ws :: w < Pow2(8 * wb)
    ensures base + |ws| * wb <= |s| && WordsFrom(s, base, wb, |ws|) == ws
  {
    hide BytesOf, WordAt;
    forall i | 0 <= i < |ws| ensures WordsFrom(s, base, wb, |ws|)[i] == ws[i] {
      assert ws[i] in ws;
      WordsOfBytes(ws, wb, i);
    }
  }

  // Where the parts of a stream are found.
  lemma StreamParts(v: Variant, c: Coded)
    ensures var s := StreamOf(v, c);
            var e0 := 12 + TagBytes(|c.tags|);
            var p0 := e0 + |c.exact|;
            && HoldsAt(s, 0, StreamHeader(c)) && HoldsAt(s, 12, Pack(c.tags, TAG_BITS)) && HoldsAt(s, e0, c.exact)
            && HoldsAt(s, p0, BytesOf(c.partials, PartialBytes(v)))
            && HoldsAt(s, p0 + PartialSize(v, |c.partials|), BytesOf(c.misses, WordBytes(v)))
  {
    hide Pack, BytesOf, StreamHeader, HoldsAt;
    var s := StreamOf(v, c);
    var h, t, e, p, m := StreamHeader(c), Pack(c.tags, TAG_BITS), c.exact,
      BytesOf(c.partials, PartialBytes(v)), BytesOf(c.misses, WordBytes(v));
    HoldsSelf(s);
    HoldsSplit(s, 0, h + t + e + p, m);
    HoldsSplit(s, 0, h + t + e, p);
    HoldsSplit(s, 0, h + t, e);
    HoldsSplit(s, 0, h, t);
  }

  lemma HeaderRoundTrip(c: Coded, s: seq<Byte>)
    requires HoldsAt(s, 0, StreamHeader(c)) && |c.tags| <= 1024 && |c.exact| <= 1024 && |c.partials| <= 1024
    ensures |s| >= 12 && FromLE(s[0..4]) == |c.tags| && FromLE(s[4..8]) == |c.exact| && FromLE(s[8..12]) == |c.partials|
  {
    hide ToLE, HoldsAt, FromLE;
    HoldsSplit(s, 0, ToLE(|c.tags|, 4) + ToLE(|c.exact|, 4), ToLE(|c.partials|, 4));
    HoldsSplit(s, 0, ToLE(|c.tags|, 4), ToLE(|c.exact|, 4));
    FromLEHolds(s, 0, |c.tags|);
    FromLEHolds(s, 4, |c.exact|);
    FromLEHolds(s, 8, |c.partials|);
  }

  lemma PartialFits(v: Variant, p: nat)
    requires IsPartial(v, p)
    ensures p < Pow2(8 * PartialBytes(v))
  {
    BytePow();
    PowByte(1);
    PowByte(2);
    PowByte(3);
  }

  lemma ParseRoundTrip(v: Variant, c: Coded, dstCap: nat)
    requires FieldsFit(v, c) && CountMisses(c.tags) == |c.misses|
    requires |c.tags| <= 1024 && |c.exact| <= 1024 && |c.partials| <= 1024
    requires 0 < WordSize(v, |c.tags|) <= dstCap
    ensures Parse(v, StreamOf(v, c), dstCap) == Some(c)
  {
    hide Pack, BytesOf, StreamHeader, StreamOf, FromLE, TagsAt, WordsFrom, CountMisses, IsPartial;
    var s := StreamOf(v, c);
    StreamParts(v, c);
    HeaderRoundTrip(c, s);
    TagsRoundTrip(s, 12, c.tags);
    var p0 := 12 + TagBytes(|c.tags|) + |c.exact|;
    forall p | p in c.partials ensures p < Pow2(8 * PartialBytes(v)) { PartialFits(v, p); }
    WordsRoundTrip(s, p0, c.partials, PartialBytes(v));
    WordsRoundTrip(s, p0 + PartialSize(v, |c.partials|), c.misses, WordBytes(v));
    SizeIsProduct(v, |c.partials|);
    SizeIsProduct(v, |c.misses|);
  }

  lemma WordsAreWords(v: Variant, src: seq<Byte>, n: nat)
    requires n * WordBytes(v) <= |src|
    ensures AreWords(v, Words(src, WordBytes(v), n))
  {
    var wb := WordBytes(v);
    forall i | 0 <= i < n ensures Words(src, wb, n)[i] < Pow2(8 * wb) {
      WordInside(n, wb, i);
      FromLEBound(src[i * wb..i * wb + wb]);
    }
  }

  // WKdm and WKdm-64 are lossless on every page.
  lemma Lossless(v: Variant, src: seq<Byte>, dstCap: nat)
    requires 0 < |src| <= PAGE_SIZE && |src| % WordBytes(v) == 0 && |src| <= dstCap
    ensures ExactReadable(v, StreamOf(v, CodedOf(v, src)), dstCap)
    ensures Decode(v, StreamOf(v, CodedOf(v, src)), dstCap) == Some(src)
  {
    hide StreamOf, Parse, Encode, DecodeWords, CountMisses, Words, BytesOf;
    var wb := WordBytes(v);
    var n := |src| / wb;
    assert n * wb == |src|;
    var ws, c := Words(src, wb, n), CodedOf(v, src);
    WordsAreWords(v, src, n);
    EncodeFits(v, ws, 0, EmptyDict(v));
    ParseRoundTrip(v, c, dstCap);
    assert Rest(c, 0, Start(v)) == c;
    DecodeEncode(v, ws, c, 0, Start(v));
    assert ws[0..] == ws;
    BytesOfWords(src, wb, n);
    assert src[..|src|] == src;
  }

  method RoundTrip(v: Variant, src: seq<Byte>, buf: array<Byte>, b: Scratch, out: array<Byte>) returns (r: nat, n: nat)
    requires |src| <= PAGE_SIZE && IsScratch(v, b) && |src| <= out.Length && out != buf
    requires buf != b.tags && buf != b.exact && buf != b.partials && buf != b.misses
    modifies buf, out, b.tags, b.exact, b.partials, b.misses
    ensures r > 0 <==> Compressible(v, src, buf.Length)
    ensures r > 0 ==> n == |src| && out[..n] == src
  {
    hide StreamOf, Decode, ExactReadable, CodedOf;
    n := 0;
    r := Compress(v, src, buf, b);
    if r > 0 {
      Lossless(v, src, out.Length);
      assert buf[..r] == StreamOf(v, CodedOf(v, src));
      n := Decompress(v, buf[..r], out);
    }
  }

  // ---- The dictionary as a pigeonhole ----

  predicate NoCollisions(v: Variant, ws: seq<nat>) {
    forall a, b | a in ws && b in ws && a != 0 && b != 0 && Hash(v, a) == Hash(v, b) :: a == b
  }

  // Every occupied slot holds a word of ws that hashes to it.
  predicate DictFrom(v: Variant, ws: seq<nat>, dict: Dict)
    requires |dict| == Slots(v)
  {
    forall h | 0 <= h < |dict| && dict[h] != 0 :: dict[h] in ws && Hash(v, dict[h]) == h
  }

  lemma {:induction false} OccupyFree(dict: Dict, h: nat, w: nat)
    requires h < |dict| && dict[h] == 0 && w != 0
    ensures ByteBlocks.NonZeroCount(dict[h := w]) == ByteBlocks.NonZeroCount(dict) + 1
  {
    var k := |dict| - 1;
    if h == k {
      assert dict[h := w][..k] == dict[..k];
    } else {
      OccupyFree(dict[..k], h, w);
      assert dict[h := w][..k] == dict[..k][h := w];
    }
  }

  function NonZeroWords(ws: seq<nat>, i: nat): nat
    requires i <= |ws|
    decreases |ws| - i
  {
    if i == |ws| then 0 else BitValue(ws[i] != 0) + NonZeroWords(ws, i + 1)
  }

  // Without collisions a word that is not EXACT takes a free slot, so partials and
  // misses together never outnumber the slots; every other non-zero word is EXACT.
  lemma {:induction false} Pigeonhole(v: Variant, ws: seq<nat>, i: nat, dict: Dict)
    requires i <= |ws| && |dict| == Slots(v) && NoCollisions(v, ws) && DictFrom(v, ws, dict)
    ensures var c := Encode(v, ws, i, dict);
            && |c.partials| + |c.misses| + ByteBlocks.NonZeroCount(dict) <= Slots(v)
            && |c.exact| + |c.partials| + |c.misses| == NonZeroWords(ws, i)
    decreases |ws| - i
  {
    if i < |ws| {
      var w, h := ws[i], Hash(v, ws[i]);
      var next := Learn(v, w, dict);
      assert w in ws;
      if w != 0 && dict[h] != w {
        assert dict[h] == 0;
        OccupyFree(dict, h, w);
      }
      Pigeonhole(v, ws, i + 1, next);
    }
  }

  lemma {:induction false} EmptyOccupied(dict: Dict)
    requires forall h | 0 <= h < |dict| :: dict[h] == 0
    ensures ByteBlocks.NonZeroCount(dict) == 0
  {
    if |dict| > 0 { EmptyOccupied(dict[..|dict| - 1]); }
  }

  lemma {:induction false} NonZeroBound(ws: seq<nat>, i: nat)
    requires i <= |ws|
    ensures NonZeroWords(ws, i) <= |ws| - i
    decreases |ws| - i
  {
    if i < |ws| { NonZeroBound(ws, i + 1); }
  }

  // The output size of a page without collisions: at most one byte per non-zero word
  // and a full word per slot; a full page therefore always compresses.
  lemma NoCollisionSize(v: Variant, src: seq<Byte>)
    requires |src| % WordBytes(v) == 0
    requires NoCollisions(v, Words(src, WordBytes(v), |src| / WordBytes(v)))
    ensures var ws := Words(src, WordBytes(v), |src| / WordBytes(v));
            SizeOf(v, CodedOf(v, src)) <= 12 + TagBytes(|ws|) + NonZeroWords(ws, 0) + WordSize(v, Slots(v))
    ensures |src| == PAGE_SIZE ==> forall dstCap | PAGE_SIZE <= dstCap :: Compressible(v, src, dstCap)
  {
    hide Encode, Words, NonZeroWords;
    var n := |src| / WordBytes(v);
    assert n * WordBytes(v) == |src|;
    var ws := Words(src, WordBytes(v), n);
    EmptyOccupied(EmptyDict(v));
    Pigeonhole(v, ws, 0, EmptyDict(v));
    NonZeroBound(ws, 0);
  }
}
