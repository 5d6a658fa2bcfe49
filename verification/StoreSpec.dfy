/**
  The compressed-page store as a state machine: page-table entries, the map from
  page numbers to stored objects, and the live zsmalloc handles.  Every exported
  operation is one atomic step.  What the environment decides (allocations, whether
  the page-table lock is taken again, the handle zsmalloc returns) is a parameter.
*/
module StoreSpec {
  import opened Bits
  import opened Buffers
  import opened PageCodec
  import opened PteMarker

  type Page = p: seq<Byte> | |p| == PAGE_SIZE witness seq(PAGE_SIZE, _ => 0)

  // One virtual page of one address space.
  datatype Slot = Slot(mm: nat, vpn: Word)

  // A page-table entry: a mapped page with its contents, or a non-present value.
  datatype Pte = Present(page: Page) | Swapped(entry: Word)

  datatype Entry = Entry(algo: nat, len: nat, handle: nat)

  // The map is keyed by page number alone.  `overwrites` and `origin` are history:
  // stores that hit an occupied key, and the page compressed into each object.
  datatype State = State(ptes: map<Slot, Pte>, entries: map<Word, Entry>, count: int,
                         objects: map<nat, seq<Byte>>, storedPages: int, totalBytes: int,
                         overwrites: nat, origin: map<nat, Page>)

  predicate IsMarker(pte: Pte) {
    pte.Swapped? && IsMinimemPte(pte.entry)
  }

  // ---- What the environment decides ----

  // Taking the page-table lock again: taken with the entry unchanged; not taken, the
  // entry staying where it is; or taken with what others have put there in the meantime,
  // no entry at all if they unmapped the page.
  datatype Relock = Same | NoLock | Changed(found: Option<Pte>)

  datatype StoreLuck = StoreLuck(kmalloc: bool, handle: Option<nat>, entryAlloc: bool, xaStore: bool, relock: Relock)

  datatype LoadLuck = LoadLuck(pageAlloc: bool, kmalloc: bool, readBegin: bool, relock: Relock)

  datatype Ret = Ok | Enoent | Enospc | Enomem | Eio | Eagain | XaError | Incompressible | Error

  datatype FaultRet = NotMarker | NotInMap | OutOfMemory | BadObject | Handled

  // ---- Net effects ----

  function Put(ptes: map<Slot, Pte>, slot: Slot, found: Option<Pte>): map<Slot, Pte> {
    if found.Some? then ptes[slot := found.value] else ptes - {slot}
  }

  // A slot that others have changed before its lock was taken again.
  function Meanwhile(s: State, slot: Slot, r: Relock): State {
    if r.Changed? then s.(ptes := Put(s.ptes, slot, r.found)) else s
  }

  function StorePage(z: Lz4, s: State, vpn: Word, page: Page, h: nat): State
    requires Packed(z, page).Some?
  {
    var data := Packed(z, page).value;
    s.(entries := s.entries[vpn := Entry(ClassifyPage(page), |data|, h)],
       count := s.count + 1,
       objects := s.objects[h := data],
       overwrites := s.overwrites + BitValue(vpn in s.entries),
       origin := s.origin[h := page])
  }

  function Drop(s: State, vpn: Word): State
    requires vpn in s.entries
  {
    s.(entries := s.entries - {vpn}, count := s.count - 1, objects := s.objects - {s.entries[vpn].handle})
  }

  // Drop, with the two statistics that most callers also adjust.
  function DropCounted(s: State, vpn: Word): State
    requires vpn in s.entries
  {
    Drop(s, vpn).(storedPages := s.storedPages - 1, totalBytes := s.totalBytes - s.entries[vpn].len)
  }

  // The percentage saved, by truncating division, against the configured minimum.
  predicate SavesEnough(len: nat, minPct: int) {
    len < PAGE_SIZE && 100 * (PAGE_SIZE - len) / PAGE_SIZE >= minPct
  }

  // Exactly the streams that save the percentage pass: the truncation costs nothing.
  lemma SavesIff(len: nat, minPct: int)
    ensures SavesEnough(len, minPct) <==> len < 4096 && 100 * (4096 - len) >= 4096 * minPct
  {
    if len < 4096 {
      var a := 100 * (4096 - len);
      assert a == 4096 * (a / 4096) + a % 4096;
    }
  }

  // A page worth storing: it compresses, and saves the percentage asked for.
  predicate Worth(z: Lz4, page: Page, minPct: int) {
    var o := Packed(z, page); o.Some? && 100 * (4096 - |o.value|) >= 4096 * minPct
  }

  lemma AcceptsWorth(z: Lz4, page: Page, minPct: int)
    ensures Accepts(z, page, minPct) <==> Worth(z, page, minPct)
  {
    hide Packed, SavesEnough;
    if Packed(z, page).Some? { SavesIff(|Packed(z, page).value|, minPct); }
  }

  predicate Accepts(z: Lz4, page: Page, minPct: int) {
    Packed(z, page).Some? && SavesEnough(|Packed(z, page).value|, minPct)
  }

  // ---- The operations ----

  // minimem_compress_and_store
  function CompressAndStore(z: Lz4, s: State, vpn: Word, page: Page, maxPool: int, minPct: int, l: StoreLuck)
    : (State, Ret)
  {
    if maxPool > 0 && s.storedPages >= maxPool then (s, Enospc)
    else if !Accepts(z, page, minPct) then (s, Incompressible)
    else if !l.kmalloc || l.handle.None? || !l.entryAlloc then (s, Enomem)
    else if !l.xaStore then (s, XaError)
    else
      var len := |Packed(z, page).value|;
      (StorePage(z, s, vpn, page, l.handle.value).(storedPages := s.storedPages + 1,
          totalBytes := s.totalBytes + len), Ok)
  }

  // minimem_compress_and_replace_pte, with its roll-backs
  function CompressAndReplace(z: Lz4, s: State, slot: Slot, minPct: int, l: StoreLuck): (State, Ret) {
    if slot !in s.ptes || !s.ptes[slot].Present? then (s, Enoent)
    else
      var page := s.ptes[slot].page;
      if !Accepts(z, page, minPct) then (s, Incompressible)
      else if !l.kmalloc || l.handle.None? || !l.entryAlloc then (s, Enomem)
      else if !l.xaStore then (s, XaError)
      else
        var t := StorePage(z, s, slot.vpn, page, l.handle.value);
        match l.relock
        case Same => (t.(ptes := t.ptes[slot := Swapped(MakeEntry(slot.vpn))]), Ok)
        case NoLock => (Drop(t, slot.vpn), Enoent)
        case Changed(_) => (Meanwhile(Drop(t, slot.vpn), slot, l.relock), Eagain)
  }

  predicate EntryReadable(s: State, vpn: Word) {
    vpn in s.entries && s.entries[vpn].handle in s.objects
    && Readable(s.objects[s.entries[vpn].handle], s.entries[vpn].algo)
  }

  // What the stored object of a page number decodes to.
  function Load(z: Lz4, s: State, vpn: Word): (o: Option<Page>) {
    if !EntryReadable(s, vpn) then None else
      var e := s.entries[vpn];
      match Unpacked(z, s.objects[e.handle], e.algo)
      case Some(p) => Some(p)
      case None => None
  }

  predicate AllReadable(s: State) {
    forall vpn | vpn in s.entries :: EntryReadable(s, vpn)
  }

  // The page-table entry is replaced only if the lock is taken again and the entry is
  // still the one seen before.
  function Install(s: State, slot: Slot, page: Page, r: Relock): State {
    if r.Same? then s.(ptes := s.ptes[slot := Present(page)]) else Meanwhile(s, slot, r)
  }

  // Both fault handlers: minimem_vm_fault_handler and minimem_handle_swap_fault.
  // The entry is looked up by the faulting address, not by the index in the marker.
  function Fault(z: Lz4, s: State, slot: Slot, l: LoadLuck): (State, FaultRet) {
    if slot !in s.ptes || !IsMarker(s.ptes[slot]) then (s, NotMarker)
    else if slot.vpn !in s.entries then (s, NotInMap)
    else if !l.pageAlloc || !l.kmalloc then (s, OutOfMemory)
    else if !l.readBegin then (s, BadObject)
    else
      var page := Load(z, s, slot.vpn);
      if page.None? then (s, BadObject)
      else (Install(Drop(s, slot.vpn), slot, page.value, l.relock), Handled)
  }

  // minimem_decompress_and_restore: the page goes to the caller.
  function DecompressAndRestore(z: Lz4, s: State, vpn: Word, l: LoadLuck): (State, Ret, Option<Page>) {
    if vpn !in s.entries then (s, Enoent, None)
    else if !l.kmalloc then (s, Enomem, None)
    else if !l.readBegin then (s, Eio, None)
    else
      var page := Load(z, s, vpn);
      if page.None? then (s, Error, None) else (DropCounted(s, vpn), Ok, page)
  }

  // minimem_zswap_remove and minimem_zswap_zap_cb
  function Remove(s: State, vpn: Word): (State, Ret) {
    if vpn in s.entries then (DropCounted(s, vpn), Ok) else (s, Enoent)
  }

  // An unmap: the kernel calls the zap callback for a marker and clears the entry.
  function Unmap(s: State, slot: Slot): State {
    if slot !in s.ptes then s
    else
      var t := if IsMarker(s.ptes[slot]) then Remove(s, slot.vpn).0 else s;
      t.(ptes := t.ptes - {slot})
  }

  // One page of minimem_zswap_drain_and_restore.
  function DrainOne(z: Lz4, s: State, slot: Slot, l: LoadLuck): State {
    if slot !in s.ptes || !IsMarker(s.ptes[slot]) || slot.vpn !in s.entries then s
    else if !l.pageAlloc || !l.kmalloc || !l.readBegin then s
    else
      var page := Load(z, s, slot.vpn);
      if page.None? then DropCounted(s, slot.vpn)
      else DropCounted(Install(s, slot, page.value, l.relock), slot.vpn)
  }

  // ---- Handle conservation ----

  // The map's counter is the number of live handles; map entries point to distinct
  // live handles; and the handles that no entry points to are exactly the ones that
  // a store to an occupied key has orphaned.
  ghost predicate Conserved(s: State) {
    && s.count == |s.objects|
    && |s.objects| == |s.entries| + s.overwrites
    && (forall v | v in s.entries :: s.entries[v].handle in s.objects)
    && (forall a, b | a in s.entries && b in s.entries && a != b :: s.entries[a].handle != s.entries[b].handle)
  }

  // An entry describes the object it points to.
  ghost predicate EntryFaithful(s: State, vpn: Word)
    requires vpn in s.entries
  {
    var e := s.entries[vpn];
    && e.handle in s.objects && e.handle in s.origin
    && e.algo == ClassifyPage(s.origin[e.handle]) && e.len == |s.objects[e.handle]|
  }

  // Every object is the compressed form of the page it was made from.
  ghost predicate Faithful(z: Lz4, s: State) {
    && (forall h | h in s.objects :: h in s.origin && Packed(z, s.origin[h]) == Some(s.objects[h]))
    && (forall v | v in s.entries :: EntryFaithful(s, v))
  }

  ghost predicate Inv(z: Lz4, s: State) {
    Conserved(s) && Faithful(z, s)
  }

  function Initial(): State {
    State(map[], map[], 0, map[], 0, 0, 0, map[])
  }

  lemma RemoveSize<K, V>(m: map<K, V>, k: K)
    requires k in m
    ensures |m - {k}| == |m| - 1
  {
    assert (m - {k}).Keys == m.Keys - {k};
    assert |m.Keys - {k}| == |m.Keys| - 1;
    assert |(m - {k}).Keys| == |m - {k}|;
    assert |m.Keys| == |m|;
  }

  lemma UpdateSize<K, V>(m: map<K, V>, k: K, v: V)
    ensures |m[k := v]| == |m| + BitValue(k !in m)
  {
    assert m[k := v].Keys == m.Keys + {k};
    assert |m[k := v].Keys| == |m[k := v]|;
    assert |m.Keys| == |m|;
    if k in m { assert m.Keys + {k} == m.Keys; }
  }

  lemma StoreConserves(z: Lz4, s: State, vpn: Word, page: Page, h: nat)
    requires Conserved(s) && Packed(z, page).Some? && h !in s.objects
    ensures Conserved(StorePage(z, s, vpn, page, h))
  {
    hide Packed, ClassifyPage;
    var data := Packed(z, page).value;
    UpdateSize(s.objects, h, data);
    UpdateSize(s.entries, vpn, Entry(ClassifyPage(page), |data|, h));
  }

  lemma StoreFaithful(z: Lz4, s: State, vpn: Word, page: Page, h: nat)
    requires Faithful(z, s) && Packed(z, page).Some? && h !in s.objects
    ensures Faithful(z, StorePage(z, s, vpn, page, h))
  {
    hide Packed, ClassifyPage;
    var t := StorePage(z, s, vpn, page, h);
    forall k | k in t.objects ensures k in t.origin && Packed(z, t.origin[k]) == Some(t.objects[k]) {
      if k != h { assert k in s.objects; }
    }
    forall v | v in t.entries
      ensures EntryFaithful(t, v)
    {
      if v != vpn { assert EntryFaithful(s, v); }
    }
  }

  // A store under a handle that zsmalloc has just returned.
  lemma StoreKeeps(z: Lz4, s: State, vpn: Word, page: Page, h: nat)
    requires Inv(z, s) && Packed(z, page).Some? && h !in s.objects
    ensures Inv(z, StorePage(z, s, vpn, page, h))
  {
    hide Conserved, Faithful, StorePage, Packed;
    StoreConserves(z, s, vpn, page, h);
    StoreFaithful(z, s, vpn, page, h);
  }

  lemma DropConserves(s: State, vpn: Word)
    requires Conserved(s) && vpn in s.entries
    ensures Conserved(Drop(s, vpn))
  {
    RemoveSize(s.objects, s.entries[vpn].handle);
    RemoveSize(s.entries, vpn);
  }

  // No handle is freed twice: what an entry points to is live, and no other entry
  // points to it.
  lemma DropKeeps(z: Lz4, s: State, vpn: Word)
    requires Inv(z, s) && vpn in s.entries
    ensures Inv(z, Drop(s, vpn)) && s.entries[vpn].handle in s.objects
  {
    hide Packed, ClassifyPage;
    DropConserves(s, vpn);
    var t := Drop(s, vpn);
    forall v | v in t.entries ensures EntryFaithful(t, v) {
      assert EntryFaithful(s, v);
      assert s.entries[v].handle != s.entries[vpn].handle;
    }
  }

  lemma InvReadable(z: Lz4, s: State)
    requires Inv(z, s)
    ensures AllReadable(s)
  {
    hide Packed, ClassifyPage, Readable;
    forall v | v in s.entries ensures EntryReadable(s, v) {
      assert EntryFaithful(s, v);
      PackReadable(z, s.origin[s.entries[v].handle]);
    }
  }

  // Objects decode to the page they were made from, as the codecs return it.
  lemma LoadOrigin(z: Lz4, s: State, v: Word)
    requires Inv(z, s) && LosslessLz4(z) && v in s.entries
    ensures s.entries[v].handle in s.origin
    ensures Load(z, s, v) == Some(Restored(s.origin[s.entries[v].handle]))
  {
    hide Packed, Unpacked, Restored, ClassifyPage, Readable;
    InvReadable(z, s);
    assert EntryFaithful(s, v);
    var h := s.entries[v].handle;
    PackUnpack(z, s.origin[h]);
    assert EntryReadable(s, v);
  }

  lemma HandleLive(z: Lz4, s: State, v: Word)
    requires Inv(z, s) && v in s.entries
    ensures s.entries[v].handle in s.objects
  {
    hide Faithful;
  }

  // Pages, statistics and page-table entries do not matter to the invariant.
  lemma InvIgnores(z: Lz4, s: State, t: State)
    requires Inv(z, s)
    requires t.entries == s.entries && t.count == s.count && t.objects == s.objects
    requires t.overwrites == s.overwrites && t.origin == s.origin
    ensures Inv(z, t)
  {
    hide Packed, ClassifyPage;
    forall v | v in t.entries ensures EntryFaithful(t, v) { assert EntryFaithful(s, v); }
  }

  predicate FreshHandle(s: State, l: StoreLuck) {
    l.handle.Some? ==> l.handle.value != 0 && l.handle.value !in s.objects
  }

  // ---- Runs ----

  datatype Op =
    | StoreOp(vpn: Word, page: Page, maxPool: int, minPct: int, store: StoreLuck)
    | ReplaceOp(slot: Slot, minPct: int, store: StoreLuck)
    | FaultOp(slot: Slot, load: LoadLuck)
    | RestoreOp(vpn: Word, load: LoadLuck)
    | RemoveOp(vpn: Word)
    | UnmapOp(slot: Slot)
    | DrainOp(slots: seq<Slot>, loads: seq<LoadLuck>)
    | ShrinkOp(order: seq<Word>, n: nat)
    | WriteOp(slot: Slot, page: Page)
    | MapOp(slot: Slot, page: Page)

  // The order in which the map's iteration yields its keys.
  ghost predicate Lists(order: seq<Word>, s: State) {
    && (forall i, j | 0 <= i < j < |order| :: order[i] != order[j])
    && (forall v :: v in order <==> v in s.entries)
  }

  // An entry that is not a page is compared by its value, so a changed one differs.
  predicate Differs(s: State, slot: Slot, r: Relock) {
    r.Changed? && slot in s.ptes && s.ptes[slot].Swapped? ==> r.found != Some(s.ptes[slot])
  }

  // What the environment guarantees: fresh handles, changes that are changes, an
  // iteration order that is one; and the hardware: a write reaches only mapped pages, a
  // new mapping a free slot.  (No turn of a drain reaches a slot that an earlier one has
  // changed, so the entries it compares are those it starts from.)
  ghost predicate Legal(s: State, op: Op) {
    match op
    case StoreOp(_, _, _, _, l) => FreshHandle(s, l)
    case ReplaceOp(_, _, l) => FreshHandle(s, l)
    case FaultOp(slot, l) => Differs(s, slot, l.relock)
    case DrainOp(slots, loads) =>
      |slots| == |loads| && forall i | 0 <= i < |slots| :: Differs(s, slots[i], loads[i].relock)
    case ShrinkOp(order, _) => Lists(order, s)
    case WriteOp(slot, _) => slot in s.ptes && s.ptes[slot].Present?
    case MapOp(slot, _) => slot !in s.ptes
    case _ => true
  }

  lemma DrainOneKeeps(z: Lz4, s: State, slot: Slot, l: LoadLuck)
    requires Inv(z, s)
    ensures Inv(z, DrainOne(z, s, slot, l))
  {
    hide Inv, Load;
    var t := DrainOne(z, s, slot, l);
    if slot.vpn in s.entries {
      DropKeeps(z, s, slot.vpn);
      if t.entries == s.entries { InvIgnores(z, s, t); } else { InvIgnores(z, Drop(s, slot.vpn), t); }
    } else {
      InvIgnores(z, s, t);
    }
  }

  // minimem_zswap_drain_and_restore, page by page
  function Drain(z: Lz4, s: State, slots: seq<Slot>, ls: seq<LoadLuck>): State
    requires |slots| == |ls|
    decreases |slots|
  {
    if |slots| == 0 then s else Drain(z, DrainOne(z, s, slots[0], ls[0]), slots[1..], ls[1..])
  }

  // An empty map is not drained.
  function DrainAll(z: Lz4, s: State, slots: seq<Slot>, ls: seq<LoadLuck>): State
    requires |slots| == |ls|
  {
    if s.count == 0 then s else Drain(z, s, slots, ls)
  }

  lemma {:induction false} DrainKeeps(z: Lz4, s: State, slots: seq<Slot>, ls: seq<LoadLuck>)
    requires Inv(z, s) && |slots| == |ls|
    ensures Inv(z, Drain(z, s, slots, ls))
    decreases |slots|
  {
    hide Inv, DrainOne;
    if |slots| > 0 {
      DrainOneKeeps(z, s, slots[0], ls[0]);
      DrainKeeps(z, DrainOne(z, s, slots[0], ls[0]), slots[1..], ls[1..]);
    }
  }

  lemma ListsTail(order: seq<Word>, s: State)
    requires Lists(order, s) && |order| > 0
    ensures order[0] in s.entries && Lists(order[1..], Drop(s, order[0]))
  {
    assert order[0] in order;
    forall v ensures v in order[1..] <==> v in Drop(s, order[0]).entries {
      if v in order[1..] { assert v in order; }
      if v in s.entries && v != order[0] {
        var i :| 0 <= i < |order| && order[i] == v;
        assert order[1..][i - 1] == v;
      }
    }
  }

  // minimem_shrink_scan: the first n entries of the iteration are erased and their
  // objects freed; the page-table entries are not touched.
  function Shrink(s: State, order: seq<Word>, n: nat): State
    decreases n
  {
    if n == 0 || |order| == 0 || order[0] !in s.entries then s else Shrink(Drop(s, order[0]), order[1..], n - 1)
  }

  // Exactly the first n entries of the iteration go.
  lemma {:induction false} ShrinkIs(s: State, order: seq<Word>, n: nat)
    requires Lists(order, s)
    ensures var t, k := Shrink(s, order, n), if n < |order| then n else |order|;
            && t.ptes == s.ptes && t.count == s.count - k
            && (forall v :: v in t.entries <==> v in s.entries && v !in order[..k])
            && (forall v | v in t.entries :: t.entries[v] == s.entries[v])
            && (forall h | h in t.objects :: h in s.objects && t.objects[h] == s.objects[h])
    decreases n
  {
    hide Lists, Drop;
    if n > 0 && |order| > 0 {
      ListsTail(order, s);
      var u, k := Drop(s, order[0]), if n < |order| then n else |order|;
      DropIs(s, order[0]);
      ShrinkIs(u, order[1..], n - 1);
      assert Shrink(s, order, n) == Shrink(u, order[1..], n - 1);
      hide Shrink;
      assert order[..k] == [order[0]] + order[1..][..k - 1];
    }
  }

  lemma DropIs(s: State, vpn: Word)
    requires vpn in s.entries
    ensures var t := Drop(s, vpn);
            && t.ptes == s.ptes && t.count == s.count - 1 && t.entries == s.entries - {vpn}
            && t.objects == s.objects - {s.entries[vpn].handle}
  {
  }

  lemma {:induction false} ShrinkKeeps(z: Lz4, s: State, order: seq<Word>, n: nat)
    requires Inv(z, s)
    ensures Inv(z, Shrink(s, order, n))
    decreases n
  {
    hide Inv, Drop;
    if n > 0 && |order| > 0 && order[0] in s.entries {
      DropKeeps(z, s, order[0]);
      ShrinkKeeps(z, Drop(s, order[0]), order[1..], n - 1);
    }
  }

  ghost function Step(z: Lz4, s: State, op: Op): State
    requires Legal(s, op)
  {
    match op
    case StoreOp(vpn, page, maxPool, minPct, l) => CompressAndStore(z, s, vpn, page, maxPool, minPct, l).0
    case ReplaceOp(slot, minPct, l) => CompressAndReplace(z, s, slot, minPct, l).0
    case FaultOp(slot, l) => Fault(z, s, slot, l).0
    case RestoreOp(vpn, l) => DecompressAndRestore(z, s, vpn, l).0
    case RemoveOp(vpn) => Remove(s, vpn).0
    case UnmapOp(slot) => Unmap(s, slot)
    case DrainOp(slots, ls) => DrainAll(z, s, slots, ls)
    case ShrinkOp(order, n) => Shrink(s, order, n)
    case WriteOp(slot, page) => s.(ptes := s.ptes[slot := Present(page)])
    case MapOp(slot, page) => s.(ptes := s.ptes[slot := Present(page)])
  }

  lemma StoreOpKeeps(z: Lz4, s: State, vpn: Word, page: Page, maxPool: int, minPct: int, l: StoreLuck)
    requires Inv(z, s) && FreshHandle(s, l)
    ensures Inv(z, CompressAndStore(z, s, vpn, page, maxPool, minPct, l).0)
  {
    hide Inv, StorePage, SavesEnough;
    if Packed(z, page).Some? && l.handle.Some? {
      StoreKeeps(z, s, vpn, page, l.handle.value);
      var t := StorePage(z, s, vpn, page, l.handle.value);
      var len := |Packed(z, page).value|;
      InvIgnores(z, t, t.(storedPages := s.storedPages + 1, totalBytes := s.totalBytes + len));
    }
  }

  // The roll-backs keep the law too: they free what they stored, and what they
  // overwrote stays orphaned.
  lemma ReplaceKeeps(z: Lz4, s: State, slot: Slot, minPct: int, l: StoreLuck)
    requires Inv(z, s) && FreshHandle(s, l)
    ensures Inv(z, CompressAndReplace(z, s, slot, minPct, l).0)
  {
    hide Inv, SavesEnough, Packed, MakeEntry;
    var t := CompressAndReplace(z, s, slot, minPct, l).0;
    if slot in s.ptes && s.ptes[slot].Present? && Accepts(z, s.ptes[slot].page, minPct) && l.handle.Some? {
      var u := StorePage(z, s, slot.vpn, s.ptes[slot].page, l.handle.value);
      StoreKeeps(z, s, slot.vpn, s.ptes[slot].page, l.handle.value);
      DropKeeps(z, u, slot.vpn);
      InvIgnores(z, u, u.(ptes := u.ptes[slot := Swapped(MakeEntry(slot.vpn))]));
      var d := Drop(u, slot.vpn);
      InvIgnores(z, d, Meanwhile(d, slot, l.relock));
    }
  }

  lemma FaultKeeps(z: Lz4, s: State, slot: Slot, l: LoadLuck)
    requires Inv(z, s)
    ensures Inv(z, Fault(z, s, slot, l).0)
  {
    hide Inv, Load;
    if slot.vpn in s.entries {
      DropKeeps(z, s, slot.vpn);
      var t := Fault(z, s, slot, l).0;
      if t.entries != s.entries { InvIgnores(z, Drop(s, slot.vpn), t); }
    }
  }

  lemma RemoveKeeps(z: Lz4, s: State, vpn: Word)
    requires Inv(z, s)
    ensures Inv(z, Remove(s, vpn).0)
  {
    hide Inv;
    if vpn in s.entries {
      DropKeeps(z, s, vpn);
      InvIgnores(z, Drop(s, vpn), DropCounted(s, vpn));
    }
  }

  // Every operation keeps the conservation law and the faithfulness of the objects.
  lemma StepKeeps(z: Lz4, s: State, op: Op)
    requires Inv(z, s) && Legal(s, op)
    ensures Inv(z, Step(z, s, op))
  {
    hide Inv, Load, Drop, StorePage, Packed;
    match op
    case StoreOp(vpn, page, maxPool, minPct, l) => StoreOpKeeps(z, s, vpn, page, maxPool, minPct, l);
    case ReplaceOp(slot, minPct, l) => ReplaceKeeps(z, s, slot, minPct, l);
    case FaultOp(slot, l) => FaultKeeps(z, s, slot, l);
    case RestoreOp(vpn, l) => RemoveKeeps(z, s, vpn);
    case RemoveOp(vpn) => RemoveKeeps(z, s, vpn);
    case UnmapOp(slot) =>
      RemoveKeeps(z, s, slot.vpn);
      InvIgnores(z, s, s.(ptes := s.ptes - {slot}));
      var t := Remove(s, slot.vpn).0;
      InvIgnores(z, t, t.(ptes := t.ptes - {slot}));
    case DrainOp(slots, ls) => DrainKeeps(z, s, slots, ls);
    case ShrinkOp(order, n) => ShrinkKeeps(z, s, order, n);
    case WriteOp(slot, page) => InvIgnores(z, s, s.(ptes := s.ptes[slot := Present(page)]));
    case MapOp(slot, page) => InvIgnores(z, s, s.(ptes := s.ptes[slot := Present(page)]));
  }

  ghost predicate LegalRun(z: Lz4, s: State, ops: seq<Op>)
    decreases |ops|
  {
    |ops| == 0 || (Legal(s, ops[0]) && LegalRun(z, Step(z, s, ops[0]), ops[1..]))
  }

  ghost function Run(z: Lz4, s: State, ops: seq<Op>): State
    requires LegalRun(z, s, ops)
    decreases |ops|
  {
    if |ops| == 0 then s else Run(z, Step(z, s, ops[0]), ops[1..])
  }

  lemma {:induction false} RunKeeps(z: Lz4, s: State, ops: seq<Op>)
    requires Inv(z, s) && LegalRun(z, s, ops)
    ensures Inv(z, Run(z, s, ops))
    decreases |ops|
  {
    hide Inv, Step, Legal;
    if |ops| > 0 {
      StepKeeps(z, s, ops[0]);
      RunKeeps(z, Step(z, s, ops[0]), ops[1..]);
    }
  }

  lemma InitialInv(z: Lz4)
    ensures Inv(z, Initial())
  {
  }

  // Over every serial run from the empty store.
  lemma HandleConservation(z: Lz4, ops: seq<Op>)
    requires LegalRun(z, Initial(), ops)
    ensures var t := Run(z, Initial(), ops);
            && t.count == |t.objects| == |t.entries| + t.overwrites
            && (forall v | v in t.entries :: t.entries[v].handle in t.objects)
            && (forall a, b | a in t.entries && b in t.entries && a != b :: t.entries[a].handle != t.entries[b].handle)
  {
    hide Faithful, Run, LegalRun;
    InitialInv(z);
    RunKeeps(z, Initial(), ops);
  }

  // ---- The statistics ----

  lemma {:induction false} DrainStatistics(z: Lz4, s: State, slots: seq<Slot>, ls: seq<LoadLuck>)
    requires |slots| == |ls|
    ensures var t := Drain(z, s, slots, ls); t.storedPages - s.storedPages == t.count - s.count
    decreases |slots|
  {
    hide Load, IsMinimemPte;
    if |slots| > 0 { DrainStatistics(z, DrainOne(z, s, slots[0], ls[0]), slots[1..], ls[1..]); }
  }

  lemma {:induction false} ShrinkStatistics(s: State, order: seq<Word>, n: nat)
    ensures Shrink(s, order, n).storedPages == s.storedPages
    decreases n
  {
    if n > 0 && |order| > 0 && order[0] in s.entries { ShrinkStatistics(Drop(s, order[0]), order[1..], n - 1); }
  }

  // Operations that keep the number of stored pages in step with the map's counter.
  predicate Counts(op: Op) {
    !op.ReplaceOp? && !op.FaultOp? && !op.ShrinkOp?
  }

  // The number of stored pages, which a store compares with its limit, follows the map's
  // counter in all operations but three: pages compressed in place, faults and the
  // shrinker leave it alone.
  lemma Statistics(z: Lz4, s: State, op: Op)
    requires Legal(s, op)
    ensures var t := Step(z, s, op);
            t.storedPages - s.storedPages == if Counts(op) then t.count - s.count else 0
  {
    hide Load, IsMinimemPte, MakeEntry, Lists, Accepts, Drain, Shrink;
    match op
    case DrainOp(slots, ls) => DrainStatistics(z, s, slots, ls);
    case ShrinkOp(order, n) => ShrinkStatistics(s, order, n);
    case _ =>
  }

  // Without those three it is the number of live objects.
  lemma {:induction false} CountedRun(z: Lz4, s: State, ops: seq<Op>)
    requires LegalRun(z, s, ops) && s.storedPages == s.count && forall op | op in ops :: Counts(op)
    ensures Run(z, s, ops).storedPages == Run(z, s, ops).count
    decreases |ops|
  {
    hide Step, Legal, Counts;
    if |ops| > 0 {
      assert ops[0] in ops;
      Statistics(z, s, ops[0]);
      CountedRun(z, Step(z, s, ops[0]), ops[1..]);
    }
  }

  // ---- Savings ----

  predicate OpPct(op: Op, p: int) {
    (op.StoreOp? || op.ReplaceOp?) ==> op.minPct == p
  }

  ghost predicate Savings(s: State, p: int) {
    forall v | v in s.entries :: 0 < s.entries[v].len < PAGE_SIZE && 100 * s.entries[v].len <= PAGE_SIZE * (100 - p)
  }

  // The truncating division loses nothing: passing the test means saving p percent.
  lemma SavingsExact(len: nat, p: int)
    requires SavesEnough(len, p)
    ensures 100 * len <= PAGE_SIZE * (100 - p)
  {
    var q := 100 * (PAGE_SIZE - len) / PAGE_SIZE;
    assert PAGE_SIZE * q <= 100 * (PAGE_SIZE - len);
    assert PAGE_SIZE * p <= PAGE_SIZE * q;
  }

  lemma {:induction false} DrainSavings(z: Lz4, s: State, slots: seq<Slot>, ls: seq<LoadLuck>, p: int)
    requires |slots| == |ls| && Savings(s, p)
    ensures Savings(Drain(z, s, slots, ls), p)
    decreases |slots|
  {
    hide Load;
    if |slots| > 0 {
      DrainSavings(z, DrainOne(z, s, slots[0], ls[0]), slots[1..], ls[1..], p);
    }
  }

  lemma {:induction false} ShrinkSavings(s: State, order: seq<Word>, n: nat, p: int)
    requires Savings(s, p)
    ensures Savings(Shrink(s, order, n), p)
    decreases n
  {
    if n > 0 && |order| > 0 && order[0] in s.entries { ShrinkSavings(Drop(s, order[0]), order[1..], n - 1, p); }
  }

  lemma StoreSavings(z: Lz4, s: State, vpn: Word, page: Page, h: nat, p: int)
    requires Savings(s, p) && Accepts(z, page, p)
    ensures Savings(StorePage(z, s, vpn, page, h), p)
  {
    hide Packed, ClassifyPage;
    SavingsExact(|Packed(z, page).value|, p);
  }

  lemma StepSavings(z: Lz4, s: State, op: Op, p: int)
    requires Legal(s, op) && OpPct(op, p) && Savings(s, p)
    ensures Savings(Step(z, s, op), p)
  {
    hide Load, Lists, Packed, SavesEnough, StorePage, IsMinimemPte, MakeEntry;
    match op
    case StoreOp(vpn, page, maxPool, minPct, l) =>
      if Accepts(z, page, p) && l.handle.Some? { StoreSavings(z, s, vpn, page, l.handle.value, p); }
    case ReplaceOp(slot, minPct, l) =>
      if slot in s.ptes && s.ptes[slot].Present? && Accepts(z, s.ptes[slot].page, p) && l.handle.Some? {
        StoreSavings(z, s, slot.vpn, s.ptes[slot].page, l.handle.value, p);
      }
    case DrainOp(slots, ls) => if s.count != 0 { DrainSavings(z, s, slots, ls, p); }
    case ShrinkOp(order, n) => ShrinkSavings(s, order, n, p);
    case _ =>
  }

  lemma {:induction false} RunSavings(z: Lz4, s: State, ops: seq<Op>, p: int)
    requires LegalRun(z, s, ops) && Savings(s, p)
    requires forall op | op in ops :: OpPct(op, p)
    ensures Savings(Run(z, s, ops), p)
    decreases |ops|
  {
    hide Step, Savings, OpPct, Legal;
    if |ops| > 0 {
      assert ops[0] in ops;
      StepSavings(z, s, ops[0], p);
      RunSavings(z, Step(z, s, ops[0]), ops[1..], p);
    }
  }

  lemma {:induction false} ListsSize(order: seq<Word>, keys: set<Word>)
    requires forall i, j | 0 <= i < j < |order| :: order[i] != order[j]
    requires forall v :: v in order <==> v in keys
    ensures |order| == |keys|
    decreases |order|
  {
    if |order| == 0 {
      assert keys == {};
    } else {
      assert order[0] in order;
      forall v ensures v in order[1..] <==> v in keys - {order[0]} {
        if v in order && v != order[0] {
          var i :| 0 <= i < |order| && order[i] == v;
          assert order[1..][i - 1] == v;
        }
        if v in order[1..] { assert v in order; }
      }
      ListsSize(order[1..], keys - {order[0]});
    }
  }

  function StoredBytes(s: State, order: seq<Word>): nat
    requires forall v | v in order :: v in s.entries
  {
    if |order| == 0 then 0 else
      assert order[0] in order;
      s.entries[order[0]].len + StoredBytes(s, order[1..])
  }

  lemma OneMore(k: int, n: nat)
    ensures k * (n + 1) == k + k * n
  {
  }

  lemma {:induction false} SumSavings(s: State, order: seq<Word>, p: int)
    requires Savings(s, p) && forall v | v in order :: v in s.entries
    ensures 100 * StoredBytes(s, order) <= PAGE_SIZE * (100 - p) * |order|
  {
    if |order| > 0 {
      assert order[0] in order;
      SumSavings(s, order[1..], p);
      OneMore(PAGE_SIZE * (100 - p), |order[1..]|);
    }
  }

  // In every reachable state the stored bytes are at most (100-p) percent of the
  // pages they stand for.
  lemma TotalSavings(z: Lz4, ops: seq<Op>, p: int, order: seq<Word>)
    requires LegalRun(z, Initial(), ops) && forall op | op in ops :: OpPct(op, p)
    requires Lists(order, Run(z, Initial(), ops))
    ensures var t := Run(z, Initial(), ops); 100 * StoredBytes(t, order) <= PAGE_SIZE * (100 - p) * |t.entries|
  {
    hide LegalRun, Step, Run;
    RunSavings(z, Initial(), ops, p);
    SumSavings(Run(z, Initial(), ops), order, p);
    ListsSize(order, Run(z, Initial(), ops).entries.Keys);
  }
}
