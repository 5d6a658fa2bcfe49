/**
  The compressed-page store as the kernel module keeps it: a map with a counter, the
  objects of a zsmalloc pool, the page tables it edits and its statistics, all updated
  in place.  Every method is proved against the step of the state machine it performs.
*/
module PageStore {
  import opened Bits
  import opened Buffers
  import opened PageCodec
  import opened PteMarker
  import opened StoreSpec

  // vm_fault_t
  const VM_FAULT_OOM := 1
  const VM_FAULT_SIGBUS := 2
  const VM_FAULT_NOPAGE := 256

  // ~0UL
  const SHRINK_STOP := 0xFFFF_FFFF_FFFF_FFFF

  class Store {
    const z: Lz4

    // The buffers of the CPU: for compression, and the part of the other one that a
    // decompression without a page uses.
    const buf: array<Byte>
    const out: array<Byte>

    var ptes: map<Slot, Pte>
    var entries: map<Word, Entry>
    var count: int
    var objects: map<nat, seq<Byte>>
    var storedPages: int
    var totalBytes: int
    ghost var overwrites: nat
    ghost var origin: map<nat, Page>

    ghost function Abstract(): StoreSpec.State
      reads this
    {
      StoreSpec.State(ptes, entries, count, objects, storedPages, totalBytes, overwrites, origin)
    }

    ghost predicate Valid()
      reads this
    {
      buf.Length == COMPRESS_BUF_SIZE && out.Length == PAGE_SIZE && Inv(z, Abstract())
    }

    constructor (z: Lz4)
      ensures Valid() && fresh(buf) && fresh(out) && Abstract() == Initial() && this.z == z
    {
      this.z := z;
      buf := new Byte[COMPRESS_BUF_SIZE](_ => 0);
      out := new Byte[PAGE_SIZE](_ => 0);
      ptes, entries, count, objects := map[], map[], 0, map[];
      storedPages, totalBytes, overwrites, origin := 0, 0, 0, map[];
      new;
      InitialInv(z);
    }

    // ---- The map ----

    // minimem_map_store
    method MapStore(vpn: Word, algo: nat, len: nat, handle: nat, ghost page: Page, l: StoreLuck) returns (ret: Ret)
      modifies this`entries, this`count, this`overwrites, this`origin
      ensures ret == if !l.entryAlloc then Enomem else if !l.xaStore then XaError else Ok
      ensures ret != Ok ==> Abstract() == old(Abstract())
      ensures ret == Ok ==>
                && entries == old(entries)[vpn := Entry(algo, len, handle)] && count == old(count) + 1
                && overwrites == old(overwrites) + BitValue(vpn in old(entries))
                          && origin == old(origin)[handle := page]
    {
      if !l.entryAlloc { return Enomem; }
      if !l.xaStore { return XaError; }
      overwrites := overwrites + BitValue(vpn in entries);
      origin := origin[handle := page];
      entries := entries[vpn := Entry(algo, len, handle)];
      count := count + 1;
      return Ok;
    }

    // minimem_map_lookup.  Whoever finds an entry may read its object and free its
    // handle: it is live, of the recorded length, decodable under the recorded
    // algorithm, and no other entry's.
    method MapLookup(vpn: Word) returns (e: Option<Entry>)
      requires Valid()
      ensures e.None? <==> vpn !in entries
      ensures e.Some? ==>
                && vpn in entries && entries[vpn] == e.value && EntryReadable(Abstract(), vpn)
                && e.value.handle in objects && 0 < e.value.len == |objects[e.value.handle]| < PAGE_SIZE
                && forall v | v in entries && v != vpn :: entries[v].handle != e.value.handle
    {
      if vpn !in entries { return None; }
      EntryLive(z, Abstract(), vpn);
      return Some(entries[vpn]);
    }

    // minimem_map_remove
    method MapRemove(vpn: Word) returns (ret: Ret)
      modifies this`entries, this`count
      ensures ret == if vpn in old(entries) then Ok else Enoent
      ensures entries == old(entries) - {vpn} && count == old(count) - BitValue(vpn in old(entries))
    {
      if vpn !in entries { return Enoent; }
      entries := entries - {vpn};
      count := count - 1;
      return Ok;
    }

    // ---- The pool ----

    // zs_malloc and zs_obj_write, under the handle the pool hands out
    method ZsStore(handle: nat, data: seq<Byte>)
      requires handle !in objects
      modifies this`objects
      ensures objects == old(objects)[handle := data]
    {
      objects := objects[handle := data];
    }

    // zs_free: freeing a handle that is not live would be a double free.
    method ZsFree(handle: nat)
      requires handle in objects
      modifies this`objects
      ensures objects == old(objects) - {handle}
    {
      objects := objects - {handle};
    }

    // ---- Compression ----

    // What a store operation does with the page's bytes before it touches the pool: the
    // compressed bytes, if they are worth storing, copied out of the shared buffer.
    method CompressBytes(page: Page, minPct: int) returns (ret: Ret, algo: nat, data: seq<Byte>)
      requires buf.Length == COMPRESS_BUF_SIZE
      modifies buf
      ensures ret == if Accepts(z, page, minPct) then Ok else Incompressible
      ensures ret == Ok <==> Worth(z, page, minPct)
      ensures ret == Ok ==> algo == ClassifyPage(page) && data == Packed(z, page).value
    {
      hide Packed, ClassifyPage, Written, Worth;
      AcceptsWorth(z, page, minPct);
      var status, a, csz := CompressPage(z, page, buf);
      if status != OK || csz == 0 || csz >= PAGE_SIZE { return Incompressible, 0, []; }
      var savingsPct := 100 * (PAGE_SIZE - csz) / PAGE_SIZE;
      if savingsPct < minPct { return Incompressible, 0, []; }
      WrittenHolds(old(buf[..]), buf[..], 0, Packed(z, page).value);
      return Ok, a, buf[..csz];
    }

    // From the compressed bytes to a map entry; a failed map store frees the object.
    method Insert(vpn: Word, ghost page: Page, algo: nat, data: seq<Byte>, l: StoreLuck) returns (ret: Ret)
      requires FreshHandle(Abstract(), l)
      requires Packed(z, page) == Some(data) && algo == ClassifyPage(page)
      modifies this`entries, this`count, this`objects, this`overwrites, this`origin
      ensures ret == if !l.kmalloc || l.handle.None? || !l.entryAlloc then Enomem else if !l.xaStore then XaError
                else Ok
      ensures Abstract() == if ret == Ok then StorePage(z, old(Abstract()), vpn, page, l.handle.value)
                else old(Abstract())
    {
      hide Packed, ClassifyPage, BitValue;
      if !l.kmalloc || l.handle.None? { return Enomem; }
      var handle := l.handle.value;
      ZsStore(handle, data);
      ret := MapStore(vpn, algo, |data|, handle, page, l);
      if ret != Ok {
        ZsFree(handle);
        assert objects == old(objects);
      }
    }

    // minimem_compress_and_store
    method CompressAndStore(vpn: Word, page: Page, maxPool: int, minPct: int, l: StoreLuck) returns (ret: Ret)
      requires Valid() && FreshHandle(Abstract(), l)
      modifies this, buf
      ensures Valid()
      ensures (Abstract(), ret) == StoreSpec.CompressAndStore(z, old(Abstract()), vpn, page, maxPool, minPct, l)
      ensures Stored(z, old(Abstract()), Abstract(), vpn, page, maxPool, minPct, l, ret)
    {
      hide Inv, Accepts, Packed, ClassifyPage, StorePage, Stored;
      StoredIs(z, Abstract(), vpn, page, maxPool, minPct, l);
      StoreOpKeeps(z, Abstract(), vpn, page, maxPool, minPct, l);
      if maxPool > 0 && storedPages >= maxPool { return Enospc; }
      var algo, data;
      ret, algo, data := CompressBytes(page, minPct);
      if ret != Ok { return ret; }
      AcceptsPacked(z, page, minPct);
      ret := Insert(vpn, page, algo, data, l);
      if ret != Ok { return ret; }
      StoreCounters(z, old(Abstract()), vpn, page, l.handle.value);
      storedPages := storedPages + 1;
      totalBytes := totalBytes + |data|;
    }

    // minimem_compress_and_replace_pte: a page whose entry cannot be replaced is taken
    // out of the map and the pool again.
    method CompressAndReplacePte(slot: Slot, minPct: int, l: StoreLuck) returns (ret: Ret)
      requires Valid() && FreshHandle(Abstract(), l)
      modifies this, buf
      ensures Valid()
      ensures (Abstract(), ret) == StoreSpec.CompressAndReplace(z, old(Abstract()), slot, minPct, l)
      ensures Replaced(z, old(Abstract()), Abstract(), slot, minPct, l, ret)
    {
      hide Inv, Accepts, Packed, ClassifyPage, StorePage, MakeEntry, Replaced, StoreSpec.CompressAndReplace;
      ghost var was := Abstract();
      ReplaceKeeps(z, was, slot, minPct, l);
      ReplacedIs(z, was, slot, minPct, l);
      ret := ReplaceIn(slot, minPct, l);
    }

    method ReplaceIn(slot: Slot, minPct: int, l: StoreLuck) returns (ret: Ret)
      requires buf.Length == COMPRESS_BUF_SIZE && FreshHandle(Abstract(), l)
      modifies this, buf
      ensures (Abstract(), ret) == StoreSpec.CompressAndReplace(z, old(Abstract()), slot, minPct, l)
    {
      hide Accepts, Packed, ClassifyPage, StorePage, MakeEntry;
      if slot !in ptes || !ptes[slot].Present? { return Enoent; }
      var page := ptes[slot].page;
      var algo, data;
      ret, algo, data := CompressBytes(page, minPct);
      if ret != Ok { return ret; }
      AcceptsPacked(z, page, minPct);
      ret := Insert(slot.vpn, page, algo, data, l);
      if ret != Ok { return ret; }
      StoreCounters(z, old(Abstract()), slot.vpn, page, l.handle.value);
      match l.relock {
        case Same =>
          ptes := ptes[slot := Swapped(MakeEntry(slot.vpn))];
        case NoLock =>
          var _ := MapRemove(slot.vpn);
          ZsFree(l.handle.value);
          return Enoent;
        case Changed(found) =>
          ptes := Put(ptes, slot, found);
          var _ := MapRemove(slot.vpn);
          ZsFree(l.handle.value);
          return Eagain;
      }
    }
  
    // ---- Decompression ----

    // Reading an object into a page.
    method ReadObject(vpn: Word, e: Entry, dst: array<Byte>) returns (ok: bool)
      requires Valid() && vpn in entries && entries[vpn] == e
      requires dst.Length == PAGE_SIZE
      modifies dst
      ensures ok <==> Load(z, Abstract(), vpn).Some?
      ensures ok ==> dst[..] == Load(z, Abstract(), vpn).value
    {
      hide Inv, Unpacked, Readable;
      InvReadable(z, Abstract());
      assert EntryReadable(Abstract(), vpn);
      var status := DecompressPage(z, objects[e.handle], e.algo, dst);
      ok := status == OK;
    }

    // The entry leaves the map, its object the pool, and the statistics follow.
    method DropEntry(vpn: Word, e: Entry)
      requires vpn in entries && entries[vpn] == e && e.handle in objects
      modifies this`entries, this`count, this`objects, this`storedPages, this`totalBytes
      ensures Abstract() == DropCounted(old(Abstract()), vpn) && count == old(count) - 1
    {
      var _ := MapRemove(vpn);
      ZsFree(e.handle);
      storedPages := storedPages - 1;
      totalBytes := totalBytes - e.len;
    }

    // What the lock shows when it is taken again: the entry as it was, which is replaced,
    // or what others have put there, which stays.
    method InstallPage(slot: Slot, page: Page, r: Relock)
      modifies this`ptes
      ensures Abstract() == Install(old(Abstract()), slot, page, r)
    {
      match r {
        case Same => ptes := ptes[slot := Present(page)];
        case NoLock =>
        case Changed(found) => ptes := Put(ptes, slot, found);
      }
    }

    // The common course of minimem_vm_fault_handler and minimem_handle_swap_fault,
    // which differ only in what they answer.
    method FaultIn(slot: Slot, l: LoadLuck) returns (ret: FaultRet)
      requires Valid()
      modifies this
      ensures Valid()
      ensures (Abstract(), ret) == Fault(z, old(Abstract()), slot, l)
      ensures Answers(z, old(Abstract()), Abstract(), slot, l, ret)
    {
      hide Inv, Unpacked, Install, IsMinimemPte, Load, Answers;
      AnswersIs(z, Abstract(), slot, l);
      FaultKeeps(z, Abstract(), slot, l);
      if slot !in ptes || !IsMarker(ptes[slot]) { return NotMarker; }
      var e := MapLookup(slot.vpn);
      if e.None? { return NotInMap; }
      if !l.pageAlloc || !l.kmalloc { return OutOfMemory; }
      if !l.readBegin { return BadObject; }
      var newPage := new Byte[PAGE_SIZE](_ => 0);
      var ok := ReadObject(slot.vpn, e.value, newPage);
      if !ok { return BadObject; }
      var _ := MapRemove(slot.vpn);
      ZsFree(e.value.handle);
      InstallPage(slot, newPage[..], l.relock);
      return Handled;
    }

    method VmFaultHandler(slot: Slot, l: LoadLuck) returns (ret: nat)
      requires Valid()
      modifies this
      ensures Valid()
      ensures Abstract() == Fault(z, old(Abstract()), slot, l).0
      ensures ret == 256 <==>
                && MarkerInMap(old(Abstract()), slot) && l.pageAlloc && l.kmalloc && l.readBegin
                && Load(z, old(Abstract()), slot.vpn).Some?
      ensures ret == 1 <==> MarkerInMap(old(Abstract()), slot) && !(l.pageAlloc && l.kmalloc)
      ensures ret == 256 || ret == 1 || ret == 2
    {
      hide Inv, Fault, Load;
      var r := FaultIn(slot, l);
      return if r == Handled then VM_FAULT_NOPAGE else if r == OutOfMemory then VM_FAULT_OOM else VM_FAULT_SIGBUS;
    }

    method HandleSwapFault(slot: Slot, l: LoadLuck) returns (ret: nat)
      requires Valid()
      modifies this
      ensures Valid()
      ensures Abstract() == Fault(z, old(Abstract()), slot, l).0
      ensures ret == BitValue(MarkerInMap(old(Abstract()), slot) && l.pageAlloc && l.kmalloc && l.readBegin
                              && Load(z, old(Abstract()), slot.vpn).Some?)
    {
      hide Inv, Fault, Load;
      var r := FaultIn(slot, l);
      return if r == Handled then 1 else 0;
    }

    // minimem_decompress_and_restore, into the page of the caller; without one the bytes
    // go to the buffer of the CPU, and with the next use of that buffer they are gone.
    method DecompressAndRestore(vpn: Word, page: array?<Byte>, l: LoadLuck) returns (ret: Ret)
      requires Valid() && (page != null ==> page.Length == PAGE_SIZE)
      modifies this, page, out
      ensures Valid()
      ensures var (t, r, p) := StoreSpec.DecompressAndRestore(z, old(Abstract()), vpn, l);
              Abstract() == t && ret == r && (p.Some? ==> (if page != null then page else out)[..] == p.value)
      ensures ret == Ok <==>
                vpn in old(entries) && l.kmalloc && l.readBegin && Load(z, old(Abstract()), vpn).Some?
      ensures ret == Enoent <==> vpn !in old(entries)
      ensures ret == Enomem <==> vpn in old(entries) && !l.kmalloc
      ensures ret == Ok ==> (if page != null then page else out)[..] == Load(z, old(Abstract()), vpn).value
      ensures ret == Ok && LosslessLz4(z) ==>
                && old(entries)[vpn].handle in old(origin)
                && (if page != null then page else out)[..] == Restored(old(origin)[old(entries)[vpn].handle])
      ensures ret == Ok ==>
                && entries == old(entries) - {vpn} && count == old(count) - 1
                && objects == old(objects) - {old(entries)[vpn].handle}
                && storedPages == old(storedPages) - 1 && totalBytes == old(totalBytes) - old(entries)[vpn].len
      ensures ret != Ok ==> Abstract() == old(Abstract())
      ensures ptes == old(ptes)
    {
      hide Inv, Unpacked, Load, LosslessLz4, Restored;
      RemoveKeeps(z, Abstract(), vpn);
      var e := MapLookup(vpn);
      if e.None? { return Enoent; }
      if !l.kmalloc { return Enomem; }
      if !l.readBegin { return Eio; }
      if LosslessLz4(z) { LoadOrigin(z, Abstract(), vpn); }
      var ok := ReadObject(vpn, e.value, if page != null then page else out);
      if !ok { return Error; }
      DropEntry(vpn, e.value);
      return Ok;
    }

    // ---- Removal ----

    // minimem_zswap_remove
    method ZswapRemove(vpn: Word) returns (ret: Ret)
      requires Valid()
      modifies this
      ensures Valid()
      ensures (Abstract(), ret) == Remove(old(Abstract()), vpn)
      ensures ret == if vpn in old(entries) then Ok else Enoent
      ensures ret == Ok ==>
                && entries == old(entries) - {vpn} && objects == old(objects) - {old(entries)[vpn].handle}
                && storedPages == old(storedPages) - 1 && totalBytes == old(totalBytes) - old(entries)[vpn].len
      ensures ptes == old(ptes) && (ret != Ok ==> Abstract() == old(Abstract()))
    {
      hide Inv;
      RemoveKeeps(z, Abstract(), vpn);
      var e := MapLookup(vpn);
      if e.None? { return Enoent; }
      ret := MapRemove(vpn);
      if ret == Ok {
        ZsFree(e.value.handle);
        storedPages := storedPages - 1;
        totalBytes := totalBytes - e.value.len;
      }
    }

    // minimem_zswap_zap_cb
    method ZapCb(vpn: Word)
      requires Valid()
      modifies this
      ensures Valid()
      ensures Abstract() == Remove(old(Abstract()), vpn).0
      ensures vpn in old(entries) ==>
                && entries == old(entries) - {vpn} && objects == old(objects) - {old(entries)[vpn].handle}
                && storedPages == old(storedPages) - 1 && totalBytes == old(totalBytes) - old(entries)[vpn].len
      ensures ptes == old(ptes) && (vpn !in old(entries) ==> Abstract() == old(Abstract()))
    {
      hide Inv;
      RemoveKeeps(z, Abstract(), vpn);
      var e := MapLookup(vpn);
      if e.None? { return; }
      DropEntry(vpn, e.value);
    }

    // One page of the drain: 1 if it was restored.
    method RestoreOne(slot: Slot, l: LoadLuck) returns (restored: nat)
      requires Valid()
      modifies this
      ensures Valid()
      ensures Abstract() == DrainOne(z, old(Abstract()), slot, l)
      ensures Drained(z, old(Abstract()), Abstract(), slot, l, restored)
      ensures restored <= old(count) - count
      ensures LosslessLz4(z) ==> restored == old(count) - count
    {
      hide Inv, Unpacked, Install, IsMinimemPte, Load, LosslessLz4, DropCounted, Drained;
      DrainedIs(z, Abstract(), slot, l);
      DrainOneKeeps(z, Abstract(), slot, l);
      if slot !in ptes || !IsMarker(ptes[slot]) { return 0; }
      var e := MapLookup(slot.vpn);
      if e.None? || !l.pageAlloc || !l.kmalloc || !l.readBegin { return 0; }
      if LosslessLz4(z) { LoadOrigin(z, Abstract(), slot.vpn); }
      var newPage := new Byte[PAGE_SIZE](_ => 0);
      var ok := ReadObject(slot.vpn, e.value, newPage);
      if ok { InstallPage(slot, newPage[..], l.relock); }
      DropEntry(slot.vpn, e.value);
      return if ok then 1 else 0;
    }

    // minimem_zswap_drain_and_restore, over the slots its page-table walk finds
    method DrainAndRestore(slots: seq<Slot>, ls: seq<LoadLuck>) returns (restored: nat)
      requires Valid() && |slots| == |ls|
      modifies this
      ensures Valid()
      ensures Abstract() == DrainAll(z, old(Abstract()), slots, ls)
      ensures restored <= old(count) - count
      ensures LosslessLz4(z) ==> restored == old(count) - count
    {
      hide Inv, DrainOne, LosslessLz4;
      restored := 0;
      if count == 0 { return 0; }
      for i := 0 to |slots|
        invariant Valid()
        invariant Drain(z, Abstract(), slots[i..], ls[i..]) == Drain(z, old(Abstract()), slots, ls)
        invariant restored <= old(count) - count
        invariant LosslessLz4(z) ==> restored == old(count) - count
      {
        var r := RestoreOne(slots[i], ls[i]);
        restored := restored + r;
        assert slots[i..][1..] == slots[i + 1..] && ls[i..][1..] == ls[i + 1..];
      }
    }

    // One round of minimem_map_drain: the entry is erased, its object freed by the
    // shrinker's callback.
    method EraseFirst(order: seq<Word>)
      requires Valid() && Lists(order, Abstract()) && |order| > 0
      modifies this
      ensures Valid() && count == old(count) - 1 && order[0] in old(entries)
      ensures Lists(order[1..], Abstract()) && Abstract() == Drop(old(Abstract()), order[0])
    {
      hide Inv, Lists;
      ListsTail(order, Abstract());
      DropKeeps(z, Abstract(), order[0]);
      var copy := entries[order[0]];
      var _ := MapRemove(order[0]);
      ZsFree(copy.handle);
    }

    // minimem_shrink_scan over minimem_map_drain, in the order the map is iterated
    method ShrinkScan(order: seq<Word>, toScan: nat) returns (drained: nat)
      requires Valid() && Lists(order, Abstract())
      modifies this
      ensures Valid()
      ensures Abstract() == Shrink(old(Abstract()), order, toScan)
      ensures drained == if toScan == 0 then 0 else if old(entries) == map[] then SHRINK_STOP else old(count) - count
      ensures old(count) - count == if toScan < |order| then toScan else |order|
      ensures forall v :: v in entries <==> v in old(entries) && v !in order[..old(count) - count]
      ensures ptes == old(ptes) && storedPages == old(storedPages)
    {
      hide Inv, Lists, Drop;
      ListsNone(order, Abstract());
      ShrinkIs(Abstract(), order, toScan);
      ShrinkStatistics(Abstract(), order, toScan);
      drained := 0;
      if toScan == 0 { return 0; }
      ghost var goal := Shrink(Abstract(), order, toScan);
      var i := 0;
      while i < |order| && drained < toScan
        invariant 0 <= i == drained <= |order| && drained <= toScan
        invariant Valid() && Lists(order[i..], Abstract())
        invariant Shrink(Abstract(), order[i..], toScan - drained) == goal
        invariant drained == old(count) - count
      {
        EraseFirst(order[i..]);
        assert order[i..][1..] == order[i + 1..];
        i, drained := i + 1, drained + 1;
      }
      if drained == 0 { return SHRINK_STOP; }
    }
  }

  // A marker whose page the map knows.
  predicate MarkerInMap(s: StoreSpec.State, slot: Slot) {
    slot in s.ptes && IsMarker(s.ptes[slot]) && slot.vpn in s.entries
  }

  // Which answer a fault gets: only a marker in the map gets as far as the allocations,
  // only with both of them the object is read; and what a handled one does.
  ghost predicate Answers(z: Lz4, s: StoreSpec.State, t: StoreSpec.State, slot: Slot, l: LoadLuck, ret: FaultRet) {
    var page := Load(z, s, slot.vpn);
    && (ret == NotMarker <==> !(slot in s.ptes && IsMarker(s.ptes[slot])))
    && (ret == OutOfMemory <==> MarkerInMap(s, slot) && !(l.pageAlloc && l.kmalloc))
    && (ret == Handled <==> MarkerInMap(s, slot) && l.pageAlloc && l.kmalloc && l.readBegin && page.Some?)
    && (ret == BadObject <==> MarkerInMap(s, slot) && l.pageAlloc && l.kmalloc && !(l.readBegin && page.Some?))
    && (ret == Handled ==>
          && t.entries == s.entries - {slot.vpn} && t.count == s.count - 1
          && t.objects == s.objects - {s.entries[slot.vpn].handle}
          && (l.relock.Same? ==> t.ptes == s.ptes[slot := Present(page.value)]))
    && (ret != Handled ==> t == s) && t.storedPages == s.storedPages && t.totalBytes == s.totalBytes
  }

  lemma AnswersIs(z: Lz4, s: StoreSpec.State, slot: Slot, l: LoadLuck)
    ensures var (t, ret) := Fault(z, s, slot, l); Answers(z, s, t, slot, l, ret)
  {
    hide IsMinimemPte, Load;
  }

  // What the drain of one page does: a marker in the map whose allocations succeed loses
  // its entry and its object, and is replaced if its page decodes and it is still there.
  ghost predicate Drained(z: Lz4, s: StoreSpec.State, t: StoreSpec.State, slot: Slot, l: LoadLuck, restored: nat) {
    var page := Load(z, s, slot.vpn);
    var reached := MarkerInMap(s, slot) && l.pageAlloc && l.kmalloc && l.readBegin;
    && restored == (if reached && page.Some? then 1 else 0)
    && (!reached ==> t == s)
    && (reached ==>
          && t.entries == s.entries - {slot.vpn} && t.count == s.count - 1
          && t.objects == s.objects - {s.entries[slot.vpn].handle}
          && t.storedPages == s.storedPages - 1 && t.totalBytes == s.totalBytes - s.entries[slot.vpn].len)
    && (reached && page.Some? && l.relock.Same? ==> t.ptes == s.ptes[slot := Present(page.value)])
    && (reached && (page.None? || l.relock.NoLock?) ==> t.ptes == s.ptes)
  }

  lemma DrainedIs(z: Lz4, s: StoreSpec.State, slot: Slot, l: LoadLuck)
    ensures var reached := MarkerInMap(s, slot) && l.pageAlloc && l.kmalloc && l.readBegin;
            Drained(z, s, DrainOne(z, s, slot, l), slot, l, if reached && Load(z, s, slot.vpn).Some? then 1 else 0)
  {
    hide IsMinimemPte, Load;
  }

  lemma EntryLive(z: Lz4, s: StoreSpec.State, vpn: Word)
    requires Inv(z, s) && vpn in s.entries
    ensures EntryReadable(s, vpn)
    ensures var e := s.entries[vpn];
            && e.handle in s.objects && 0 < e.len == |s.objects[e.handle]| < PAGE_SIZE
            && forall v | v in s.entries && v != vpn :: s.entries[v].handle != e.handle
  {
    hide Packed, Readable;
    InvReadable(z, s);
    assert EntryFaithful(s, vpn) && EntryReadable(s, vpn);
  }

  lemma ListsNone(order: seq<Word>, s: StoreSpec.State)
    requires Lists(order, s)
    ensures |order| == 0 <==> s.entries == map[]
  {
    if |order| > 0 { assert order[0] in order; }
    if s.entries != map[] {
      var v :| v in s.entries;
      assert v in order;
    }
  }

  // What a store leaves alone, and where it put its entry.
  lemma StoreCounters(z: Lz4, s: StoreSpec.State, vpn: Word, page: Page, h: nat)
    requires Packed(z, page).Some?
    ensures var t := StorePage(z, s, vpn, page, h);
            && t.storedPages == s.storedPages && t.totalBytes == s.totalBytes && t.ptes == s.ptes
            && vpn in t.entries && t.entries[vpn].handle == h && h in t.objects
  {
    hide Packed, ClassifyPage;
  }

  // What a store answers and does: no room, nothing worth storing, or one more entry and
  // one more object, counted.
  ghost predicate Stored(z: Lz4, s: StoreSpec.State, t: StoreSpec.State, vpn: Word, page: Page, maxPool: int,
                         minPct: int, l: StoreLuck, ret: Ret)
  {
    var full := maxPool > 0 && s.storedPages >= maxPool;
    && (ret == Enospc <==> full) && (ret == Incompressible <==> !full && !Worth(z, page, minPct))
    && (ret == Enomem <==>
          !full && Worth(z, page, minPct) && !(l.kmalloc && l.handle.Some? && l.entryAlloc))
    && (ret == Ok <==>
          !full && Worth(z, page, minPct) && l.kmalloc && l.handle.Some? && l.entryAlloc && l.xaStore)
    && (ret == Ok ==>
          var data := Packed(z, page).value;
          && t.entries == s.entries[vpn := Entry(ClassifyPage(page), |data|, l.handle.value)]
          && t.objects == s.objects[l.handle.value := data] && t.count == s.count + 1
          && t.storedPages == s.storedPages + 1 && t.totalBytes == s.totalBytes + |data|)
    && t.ptes == s.ptes && (ret != Ok ==> t == s)
  }

  lemma StoredIs(z: Lz4, s: StoreSpec.State, vpn: Word, page: Page, maxPool: int, minPct: int, l: StoreLuck)
    ensures var (t, ret) := StoreSpec.CompressAndStore(z, s, vpn, page, maxPool, minPct, l);
            Stored(z, s, t, vpn, page, maxPool, minPct, l, ret)
  {
    hide Packed, ClassifyPage, SavesEnough;
    AcceptsWorth(z, page, minPct);
  }

  // What a replacement answers and does: a page worth it becomes a marker and an object,
  // and if anything stands in the way the object is gone again.
  ghost predicate Replaced(z: Lz4, s: StoreSpec.State, t: StoreSpec.State, slot: Slot, minPct: int, l: StoreLuck,
                           ret: Ret)
  {
    var mapped := slot in s.ptes && s.ptes[slot].Present?;
    && (ret == Ok <==>
          && mapped && Worth(z, s.ptes[slot].page, minPct)
          && l.kmalloc && l.handle.Some? && l.entryAlloc && l.xaStore && l.relock.Same?)
    && (ret == Incompressible <==> mapped && !Worth(z, s.ptes[slot].page, minPct))
    && (ret == Ok ==>
          var data := Packed(z, s.ptes[slot].page).value;
          && t.ptes == s.ptes[slot := Swapped(MakeEntry(slot.vpn))]
          && t.entries == s.entries[slot.vpn := Entry(ClassifyPage(s.ptes[slot].page), |data|, l.handle.value)]
          && t.objects == s.objects[l.handle.value := data] && t.count == s.count + 1)
    && (ret != Ok ==> t.objects == s.objects && t.count == s.count)
    && (ret != Ok && !l.relock.Changed? ==> t.ptes == s.ptes)
    && (ret != Ok ==> t.entries == s.entries || t.entries == s.entries - {slot.vpn})
    && t.storedPages == s.storedPages && t.totalBytes == s.totalBytes
  }

  lemma ReplacedIs(z: Lz4, s: StoreSpec.State, slot: Slot, minPct: int, l: StoreLuck)
    requires FreshHandle(s, l)
    ensures var (t, ret) := StoreSpec.CompressAndReplace(z, s, slot, minPct, l);
            Replaced(z, s, t, slot, minPct, l, ret)
  {
    hide Packed, ClassifyPage, SavesEnough, MakeEntry;
    if slot in s.ptes && s.ptes[slot].Present? {
      AcceptsWorth(z, s.ptes[slot].page, minPct);
      if Packed(z, s.ptes[slot].page).Some? && l.handle.Some? {
        RolledBack(z, s, slot.vpn, s.ptes[slot].page, l.handle.value);
      }
    }
  }

  lemma RolledBack(z: Lz4, s: StoreSpec.State, vpn: Word, page: Page, h: nat)
    requires Packed(z, page).Some? && h !in s.objects
    ensures var t := Drop(StorePage(z, s, vpn, page, h), vpn);
            t.objects == s.objects && t.count == s.count && t.entries == s.entries - {vpn}
  {
    hide Packed, ClassifyPage;
  }

  lemma AcceptsPacked(z: Lz4, page: Page, minPct: int)
    requires Accepts(z, page, minPct)
    ensures Packed(z, page).Some?
  {
  }
}
