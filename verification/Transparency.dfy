/**
  Serial memory transparency of the store: for one address space, whatever sequence
  of compressions, faults, unmaps, drains and user writes runs, a page-table entry is
  a marker exactly where the map has an entry, and the contents the process sees
  change only by what the process itself does.
*/
module Transparency {
  import opened Bits
  import opened Buffers
  import opened PageCodec
  import opened PteMarker
  import opened StoreSpec
  import ByteBlocks

  // Marker at a slot iff its page number is in the map; no other address space.
  ghost predicate Coherent(s: State, mm: nat) {
    && (forall slot | slot in s.ptes :: slot.mm == mm && (IsMarker(s.ptes[slot]) <==> slot.vpn in s.entries))
    && (forall v | v in s.entries :: Slot(mm, v) in s.ptes)
  }

  // What the process finds at a slot: the mapped page or, behind a marker, the page
  // a fault would bring back.
  function Visible(z: Lz4, s: State, slot: Slot): Pte
    requires slot in s.ptes
  {
    if IsMarker(s.ptes[slot]) && slot.vpn in s.entries && Load(z, s, slot.vpn).Some?
    then Present(Load(z, s, slot.vpn).value) else s.ptes[slot]
  }

  ghost function View(z: Lz4, s: State): map<Slot, Pte> {
    map slot | slot in s.ptes :: Visible(z, s, slot)
  }

  predicate Marks(x: Option<Pte>) {
    x.Some? && IsMarker(x.value)
  }

  // The entry behind one marker dropped, and something left in the marker's place.
  ghost predicate Emptied(s: State, t: State, slot: Slot, x: Option<Pte>) {
    && slot in s.ptes && IsMarker(s.ptes[slot]) && slot.vpn in s.entries
    && t.ptes == Put(s.ptes, slot, x)
    && t.entries == s.entries - {slot.vpn}
    && t.objects == s.objects - {s.entries[slot.vpn].handle}
  }

  lemma PutCoherent(s: State, t: State, slot: Slot, x: Option<Pte>, mm: nat)
    requires Coherent(s, mm) && slot in s.ptes && t.ptes == Put(s.ptes, slot, x)
    requires t.entries.Keys == s.entries.Keys - {slot.vpn}
    ensures Coherent(t, mm) <==> !Marks(x)
  {
    hide IsMinimemPte;
    assert forall v :: v in t.entries <==> v in s.entries && v != slot.vpn;
  }

  lemma EmptiedView(z: Lz4, s: State, t: State, slot: Slot, x: Option<Pte>, mm: nat)
    requires Inv(z, s) && Inv(z, t) && Coherent(s, mm) && Emptied(s, t, slot, x)
    ensures Coherent(t, mm) <==> !Marks(x)
    ensures View(z, t) == Put(View(z, s), slot, x)
    ensures View(z, t) == View(z, s) <==> x == Some(View(z, s)[slot])
  {
    hide Inv, IsMinimemPte, View, Coherent;
    PutCoherent(s, t, slot, x, mm);
    OthersVisible(z, s, t, slot, mm);
    ViewPut(z, s, t, slot, x);
    assert slot in View(z, s) by { InView(z, s, slot); }
    PutSame(View(z, s), slot, x);
  }

  lemma OthersVisible(z: Lz4, s: State, t: State, slot: Slot, mm: nat)
    requires Inv(z, s) && Coherent(s, mm) && slot in s.ptes && slot.vpn in s.entries
    requires t.entries == s.entries - {slot.vpn} && t.objects == s.objects - {s.entries[slot.vpn].handle}
    requires forall k | k in s.ptes && k != slot :: k in t.ptes && t.ptes[k] == s.ptes[k]
    ensures forall k | k in s.ptes && k != slot :: Visible(z, t, k) == Visible(z, s, k)
  {
    hide Inv, IsMinimemPte, Load, Coherent;
    OthersLoad(z, s, t, slot.vpn);
    forall k | k in s.ptes && k != slot ensures Visible(z, t, k) == Visible(z, s, k) { KeyApart(s, k, slot, mm); }
  }

  // A slot without a map entry shows what is in it.
  lemma ViewPut(z: Lz4, s: State, t: State, slot: Slot, x: Option<Pte>)
    requires slot in s.ptes && slot.vpn !in t.entries && t.ptes == Put(s.ptes, slot, x)
    requires forall k | k in s.ptes && k != slot :: Visible(z, t, k) == Visible(z, s, k)
    ensures View(z, t) == Put(View(z, s), slot, x)
  {
    hide Visible;
    if x.Some? { NoEntryVisible(z, t, slot); }
    assert View(z, t).Keys == Put(View(z, s), slot, x).Keys;
  }

  lemma InView(z: Lz4, s: State, slot: Slot)
    ensures slot in View(z, s) <==> slot in s.ptes
  {
    hide Visible;
  }

  lemma NoEntryVisible(z: Lz4, t: State, slot: Slot)
    requires slot in t.ptes && slot.vpn !in t.entries
    ensures Visible(z, t, slot) == t.ptes[slot]
  {
  }

  lemma PutSame(view: map<Slot, Pte>, slot: Slot, x: Option<Pte>)
    requires slot in view
    ensures Put(view, slot, x) == view <==> x == Some(view[slot])
  {
    assert slot in Put(view, slot, x) <==> x.Some?;
    assert x.Some? ==> Put(view, slot, x)[slot] == x.value;
  }

  // Dropping one entry leaves what every other entry decodes to.
  lemma OthersLoad(z: Lz4, s: State, t: State, v: Word)
    requires Inv(z, s) && v in s.entries
    requires t.entries == s.entries - {v} && t.objects == s.objects - {s.entries[v].handle}
    ensures forall k | k in t.entries :: Load(z, t, k) == Load(z, s, k)
  {
    hide Unpacked, Faithful, Readable;
    forall k | k in t.entries
      ensures Load(z, t, k) == Load(z, s, k)
    {
      assert s.entries[k].handle != s.entries[v].handle;
    }
  }

  // The allocations of a fault or of one page of the drain.
  predicate Allocs(l: LoadLuck) {
    l.pageAlloc && l.kmalloc && l.readBegin
  }

  // A marker whose entry is gone shows the process a bad entry instead of its page.
  lemma Lost(z: Lz4, s: State, t: State, slot: Slot, mm: nat)
    requires Inv(z, s) && LosslessLz4(z) && Coherent(s, mm)
    requires slot in s.ptes && IsMarker(s.ptes[slot])
    requires slot in t.ptes && t.ptes[slot] == s.ptes[slot] && slot.vpn !in t.entries
    ensures !Coherent(t, mm) && View(z, t) != View(z, s)
  {
    hide Inv, IsMinimemPte, LosslessLz4, Load;
    LoadOrigin(z, s, slot.vpn);
    assert View(z, s)[slot].Present? && View(z, t)[slot].Swapped?;
  }

  // A fault, or one page of the drain, takes the entry out of the map.
  predicate Reached(s: State, slot: Slot, l: LoadLuck) {
    slot in s.ptes && IsMarker(s.ptes[slot]) && Allocs(l)
  }

  // What is then found under the page-table lock: no marker ...
  predicate LeavesNoMarker(r: Relock) {
    r.Same? || (r.Changed? && !Marks(r.found))
  }

  // ... or even the page that the marker stood for, whoever put it there.
  predicate LeavesPage(view: map<Slot, Pte>, slot: Slot, r: Relock) {
    r.Same? || (r.Changed? && slot in view && r.found == Some(view[slot]))
  }

  function LeftAt(z: Lz4, s: State, slot: Slot, r: Relock): Option<Pte>
    requires slot in s.ptes
  {
    match r
    case Same => Some(Visible(z, s, slot))
    case NoLock => Some(s.ptes[slot])
    case Changed(found) => found
  }

  predicate FaultOrderly(s: State, slot: Slot, l: LoadLuck) {
    Reached(s, slot, l) ==> LeavesNoMarker(l.relock)
  }

  ghost predicate FaultHarmless(z: Lz4, s: State, slot: Slot, l: LoadLuck) {
    Reached(s, slot, l) ==> LeavesPage(View(z, s), slot, l.relock)
  }

  // A state that a fault or one page of the drain has gone on to.
  lemma ReachedView(z: Lz4, s: State, t: State, slot: Slot, l: LoadLuck, mm: nat)
    requires Inv(z, s) && Inv(z, t) && Coherent(s, mm) && Reached(s, slot, l)
    requires Load(z, s, slot.vpn).Some? && Emptied(s, t, slot, LeftAt(z, s, slot, l.relock))
    ensures Coherent(t, mm) <==> FaultOrderly(s, slot, l)
    ensures View(z, t) == Put(View(z, s), slot, LeftAt(z, s, slot, l.relock))
    ensures View(z, t) == View(z, s) <==> FaultHarmless(z, s, slot, l)
  {
    hide Inv, IsMinimemPte, Load, Coherent;
    EmptiedView(z, s, t, slot, LeftAt(z, s, slot, l.relock), mm);
    assert View(z, s)[slot] == Visible(z, s, slot) && Visible(z, s, slot).Present? && IsMarker(s.ptes[slot]);
  }

  lemma FaultView(z: Lz4, s: State, slot: Slot, l: LoadLuck, mm: nat)
    requires Inv(z, s) && LosslessLz4(z) && Coherent(s, mm)
    ensures var t := Fault(z, s, slot, l).0;
            && (Coherent(t, mm) <==> FaultOrderly(s, slot, l))
            && (View(z, t) == View(z, s) <==> FaultHarmless(z, s, slot, l))
    ensures Fault(z, s, slot, l).1 == Handled <==> Reached(s, slot, l)
    ensures Fault(z, s, slot, l).1 == Handled ==>
              View(z, Fault(z, s, slot, l).0) == Put(View(z, s), slot, LeftAt(z, s, slot, l.relock))
  {
    hide Inv, IsMinimemPte, LosslessLz4, Load, View;
    FaultKeeps(z, s, slot, l);
    if Reached(s, slot, l) {
      LoadOrigin(z, s, slot.vpn);
      var t := Fault(z, s, slot, l).0;
      assert Emptied(s, t, slot, LeftAt(z, s, slot, l.relock));
      ReachedView(z, s, t, slot, l, mm);
    }
  }

  predicate AllGood(l: LoadLuck) {
    Allocs(l) && l.relock.Same?
  }

  // The drain of one page does to the process what a fault does.
  lemma DrainOneView(z: Lz4, s: State, slot: Slot, l: LoadLuck, mm: nat)
    requires Inv(z, s) && LosslessLz4(z) && Coherent(s, mm)
    ensures var t := DrainOne(z, s, slot, l);
            && Inv(z, t) && t.entries.Keys <= s.entries.Keys
            && (Coherent(t, mm) <==> FaultOrderly(s, slot, l))
            && (View(z, t) == View(z, s) <==> FaultHarmless(z, s, slot, l))
            && (Reached(s, slot, l) ==> t.ptes == Put(s.ptes, slot, LeftAt(z, s, slot, l.relock)))
            && (!Reached(s, slot, l) ==> t == s)
            && (Allocs(l) && slot in s.ptes ==> slot.vpn !in t.entries)
  {
    hide Inv, IsMinimemPte, LosslessLz4, Load, View;
    DrainOneKeeps(z, s, slot, l);
    if Reached(s, slot, l) {
      LoadOrigin(z, s, slot.vpn);
      var t := DrainOne(z, s, slot, l);
      assert Emptied(s, t, slot, LeftAt(z, s, slot, l.relock));
      ReachedView(z, s, t, slot, l, mm);
    }
  }

  // The drain gets to the page of a marker at turn i: no earlier turn brought it back.
  ghost predicate Brings(s: State, slots: seq<Slot>, ls: seq<LoadLuck>, i: nat)
    requires |slots| == |ls| && i < |slots|
  {
    && Reached(s, slots[i], ls[i])
    && forall j | 0 <= j < i && slots[j] == slots[i] :: !Allocs(ls[j])
  }

  // At each such turn no marker is found under the lock ...
  ghost predicate DrainOrderly(s: State, slots: seq<Slot>, ls: seq<LoadLuck>)
    requires |slots| == |ls|
  {
    forall i | 0 <= i < |slots| :: Brings(s, slots, ls, i) ==> LeavesNoMarker(ls[i].relock)
  }

  // ... or even the page itself.
  ghost predicate DrainHarmless(view: map<Slot, Pte>, s: State, slots: seq<Slot>, ls: seq<LoadLuck>)
    requires |slots| == |ls|
  {
    forall i | 0 <= i < |slots| :: Brings(s, slots, ls, i) ==> LeavesPage(view, slots[i], ls[i].relock)
  }

  // What is at a slot without a map entry stays there.
  lemma {:induction false} Settled(z: Lz4, s: State, slots: seq<Slot>, ls: seq<LoadLuck>, k: Slot)
    requires |slots| == |ls| && k.vpn !in s.entries
    ensures var t := Drain(z, s, slots, ls);
            k.vpn !in t.entries && (k in t.ptes <==> k in s.ptes) && (k in s.ptes ==> t.ptes[k] == s.ptes[k])
    decreases |slots|
  {
    hide Load, IsMinimemPte;
    if |slots| > 0 { Settled(z, DrainOne(z, s, slots[0], ls[0]), slots[1..], ls[1..], k); }
  }

  // The markers left after one page of the drain.
  lemma MarkersLeft(z: Lz4, s: State, slot: Slot, l: LoadLuck, mm: nat)
    requires Inv(z, s) && LosslessLz4(z) && Coherent(s, mm) && FaultOrderly(s, slot, l)
    ensures var t := DrainOne(z, s, slot, l);
            && t.ptes.Keys <= s.ptes.Keys
            && (forall k | k in s.ptes && k != slot :: k in t.ptes)
            && forall k | k in s.ptes ::
                 k in t.ptes && IsMarker(t.ptes[k]) <==> IsMarker(s.ptes[k]) && !(k == slot && Allocs(l))
  {
    hide Inv, IsMinimemPte, LosslessLz4, Load;
    if slot in s.ptes && IsMarker(s.ptes[slot]) { LoadOrigin(z, s, slot.vpn); }
  }

  // The turns that get to a page are the same, whether or not the first one is over.
  lemma BringsTail(z: Lz4, s: State, slots: seq<Slot>, ls: seq<LoadLuck>, mm: nat)
    requires Inv(z, s) && LosslessLz4(z) && Coherent(s, mm)
    requires |slots| == |ls| && |slots| > 0 && FaultOrderly(s, slots[0], ls[0])
    ensures var u, xs, ms := DrainOne(z, s, slots[0], ls[0]), slots[1..], ls[1..];
            && |xs| == |ms| == |slots| - 1
            && forall i | 0 <= i < |xs| :: Brings(u, xs, ms, i) <==> Brings(s, slots, ls, i + 1)
  {
    hide Inv, IsMarker, LosslessLz4, DrainOne, FaultOrderly;
    var u, xs, ms := DrainOne(z, s, slots[0], ls[0]), slots[1..], ls[1..];
    MarkersLeft(z, s, slots[0], ls[0], mm);
    forall i | 0 <= i < |xs| ensures Brings(u, xs, ms, i) <==> Brings(s, slots, ls, i + 1) {
      if Brings(u, xs, ms, i) {
        forall j | 0 <= j < i + 1 && slots[j] == slots[i + 1] ensures !Allocs(ls[j]) {
          if j > 0 { assert xs[j - 1] == xs[i] && ms[j - 1] == ls[j]; }
        }
      }
      if Brings(s, slots, ls, i + 1) {
        forall j | 0 <= j < i && xs[j] == xs[i] ensures !Allocs(ms[j]) { assert slots[j + 1] == slots[i + 1]; }
      }
    }
  }

  lemma OrderlyTail(s: State, u: State, slots: seq<Slot>, ls: seq<LoadLuck>)
    requires |slots| == |ls| > 0
    requires forall i | 0 <= i < |slots| - 1 :: Brings(u, slots[1..], ls[1..], i) <==> Brings(s, slots, ls, i + 1)
    ensures DrainOrderly(s, slots, ls) <==>
            FaultOrderly(s, slots[0], ls[0]) && DrainOrderly(u, slots[1..], ls[1..])
  {
    hide Reached, LeavesNoMarker;
    assert Brings(s, slots, ls, 0) <==> Reached(s, slots[0], ls[0]);
    if DrainOrderly(s, slots, ls) {
      forall i | 0 <= i < |slots| - 1 && Brings(u, slots[1..], ls[1..], i) ensures LeavesNoMarker(ls[1..][i].relock) {
        assert Brings(s, slots, ls, i + 1);
      }
    }
    if FaultOrderly(s, slots[0], ls[0]) && DrainOrderly(u, slots[1..], ls[1..]) {
      forall i | 0 <= i < |slots| && Brings(s, slots, ls, i) ensures LeavesNoMarker(ls[i].relock) {
        if i > 0 { assert Brings(u, slots[1..], ls[1..], i - 1) && ls[1..][i - 1] == ls[i]; }
      }
    }
  }

  lemma HarmlessTail(view: map<Slot, Pte>, s: State, u: State, slots: seq<Slot>, ls: seq<LoadLuck>)
    requires |slots| == |ls| > 0
    requires forall i | 0 <= i < |slots| - 1 :: Brings(u, slots[1..], ls[1..], i) <==> Brings(s, slots, ls, i + 1)
    ensures DrainHarmless(view, s, slots, ls) <==>
            (Reached(s, slots[0], ls[0]) ==> LeavesPage(view, slots[0], ls[0].relock))
            && DrainHarmless(view, u, slots[1..], ls[1..])
  {
    hide Reached, LeavesPage;
    assert Brings(s, slots, ls, 0) <==> Reached(s, slots[0], ls[0]);
    if DrainHarmless(view, s, slots, ls) {
      forall i | 0 <= i < |slots| - 1 && Brings(u, slots[1..], ls[1..], i)
        ensures LeavesPage(view, slots[1..][i], ls[1..][i].relock)
      {
        assert Brings(s, slots, ls, i + 1);
      }
    }
    if (Reached(s, slots[0], ls[0]) ==> LeavesPage(view, slots[0], ls[0].relock))
       && DrainHarmless(view, u, slots[1..], ls[1..])
    {
      forall i | 0 <= i < |slots| && Brings(s, slots, ls, i) ensures LeavesPage(view, slots[i], ls[i].relock) {
        if i > 0 { assert Brings(u, slots[1..], ls[1..], i - 1) && ls[1..][i - 1] == ls[i]; }
      }
    }
  }

  // A drain that found the wrong thing at its first page does not make up for it.
  lemma FirstSettles(z: Lz4, s: State, slots: seq<Slot>, ls: seq<LoadLuck>, mm: nat)
    requires Inv(z, s) && LosslessLz4(z) && Coherent(s, mm) && |slots| == |ls| > 0
    ensures var t := Drain(z, s, slots, ls);
            && (!FaultOrderly(s, slots[0], ls[0]) ==>
                  !Coherent(t, mm) && !DrainOrderly(s, slots, ls) && !FaultHarmless(z, s, slots[0], ls[0]))
            && (!FaultHarmless(z, s, slots[0], ls[0]) ==>
                  View(z, t) != View(z, s) && !DrainHarmless(View(z, s), s, slots, ls))
  {
    hide Inv, IsMinimemPte, LosslessLz4, DrainOne, View, Load;
    var slot, l, u := slots[0], ls[0], DrainOne(z, s, slots[0], ls[0]);
    DrainOneView(z, s, slot, l, mm);
    assert Brings(s, slots, ls, 0) <==> Reached(s, slot, l);
    if Reached(s, slot, l) {
      Settled(z, u, slots[1..], ls[1..], slot);
      LoadOrigin(z, s, slot.vpn);
      SettledView(z, s, u, Drain(z, s, slots, ls), slot, l.relock);
      NoMarkerBehind(z, s, slot, l.relock);
    }
  }

  lemma SettledView(z: Lz4, s: State, u: State, t: State, slot: Slot, r: Relock)
    requires slot in s.ptes && IsMarker(s.ptes[slot]) && slot.vpn in s.entries && Load(z, s, slot.vpn).Some?
    requires u.ptes == Put(s.ptes, slot, LeftAt(z, s, slot, r))
    requires slot.vpn !in t.entries && (slot in t.ptes <==> slot in u.ptes)
    requires slot in u.ptes ==> t.ptes[slot] == u.ptes[slot]
    ensures !LeavesNoMarker(r) ==> slot in t.ptes && IsMarker(t.ptes[slot])
    ensures !LeavesPage(View(z, s), slot, r) ==> View(z, t) != View(z, s)
  {
    hide IsMinimemPte, Load;
    assert View(z, s)[slot] == Visible(z, s, slot);
    assert slot in t.ptes ==> View(z, t)[slot] == t.ptes[slot];
  }

  // The page a marker stands for is not a marker.
  lemma NoMarkerBehind(z: Lz4, s: State, slot: Slot, r: Relock)
    requires slot in s.ptes && IsMarker(s.ptes[slot]) && slot.vpn in s.entries && Load(z, s, slot.vpn).Some?
    ensures LeavesPage(View(z, s), slot, r) ==> LeavesNoMarker(r)
  {
    hide IsMinimemPte, Load;
    assert View(z, s)[slot] == Visible(z, s, slot);
  }

  // A drain keeps markers and entries in agreement exactly if no marker is found at a
  // page it gets to, and what the process sees exactly if its page is found there.
  lemma {:induction false} DrainView(z: Lz4, s: State, slots: seq<Slot>, ls: seq<LoadLuck>, mm: nat)
    requires Inv(z, s) && LosslessLz4(z) && Coherent(s, mm) && |slots| == |ls|
    ensures var t := Drain(z, s, slots, ls);
            && (Coherent(t, mm) <==> DrainOrderly(s, slots, ls))
            && (View(z, t) == View(z, s) <==> DrainHarmless(View(z, s), s, slots, ls))
    decreases |slots|
  {
    hide Inv, IsMarker, LosslessLz4, DrainOne, View, DrainOrderly, DrainHarmless, Coherent, Brings;
    if |slots| == 0 {
      NothingDrained(View(z, s), s);
    } else {
      var u := DrainOne(z, s, slots[0], ls[0]);
      DrainOneView(z, s, slots[0], ls[0], mm);
      FirstSettles(z, s, slots, ls, mm);
      if FaultOrderly(s, slots[0], ls[0]) {
        BringsTail(z, s, slots, ls, mm);
        OrderlyTail(s, u, slots, ls);
        HarmlessTail(View(z, s), s, u, slots, ls);
        DrainView(z, u, slots[1..], ls[1..], mm);
      }
    }
  }

  lemma NothingDrained(view: map<Slot, Pte>, s: State)
    ensures DrainOrderly(s, [], []) && DrainHarmless(view, s, [], [])
  {
  }

  // Slots that are drained with every allocation succeeding lose their map entries.
  lemma {:induction false} DrainEmpties(z: Lz4, s: State, slots: seq<Slot>, ls: seq<LoadLuck>, mm: nat)
    requires Inv(z, s) && LosslessLz4(z) && Coherent(s, mm) && |slots| == |ls|
    requires forall l | l in ls :: AllGood(l)
    ensures var t := Drain(z, s, slots, ls);
            && t.entries.Keys <= s.entries.Keys
            && forall slot | slot in slots && slot in s.ptes :: slot.vpn !in t.entries
    decreases |slots|
  {
    hide Inv, IsMarker, LosslessLz4, DrainOne, View, Coherent;
    if |slots| > 0 {
      assert ls[0] in ls;
      DrainOneView(z, s, slots[0], ls[0], mm);
      MarkersLeft(z, s, slots[0], ls[0], mm);
      DrainEmpties(z, DrainOne(z, s, slots[0], ls[0]), slots[1..], ls[1..], mm);
    }
  }

  lemma SameIsHarmless(view: map<Slot, Pte>, s: State, slots: seq<Slot>, ls: seq<LoadLuck>)
    requires |slots| == |ls| && forall l | l in ls :: l.relock.Same?
    ensures DrainOrderly(s, slots, ls) && DrainHarmless(view, s, slots, ls)
  {
    hide IsMarker;
    forall i | 0 <= i < |slots| ensures ls[i].relock.Same? { assert ls[i] in ls; }
  }

  // Without entries a coherent state has no markers, and the process sees its pages.
  lemma NoMarkers(z: Lz4, t: State, mm: nat)
    requires Coherent(t, mm) && t.entries == map[]
    ensures (forall slot | slot in t.ptes :: !IsMarker(t.ptes[slot])) && View(z, t) == t.ptes
  {
    hide IsMinimemPte, Load;
  }

  lemma NoEntries(s: State, t: State, slots: seq<Slot>, mm: nat)
    requires Coherent(s, mm) && t.entries.Keys <= s.entries.Keys
    requires forall slot | slot in s.ptes :: slot in slots
    requires forall slot | slot in slots && slot in s.ptes :: slot.vpn !in t.entries
    ensures t.entries == map[]
  {
    hide IsMarker;
    forall v ensures v !in t.entries {
      if v in s.entries { assert Slot(mm, v) in s.ptes && Slot(mm, v) in slots; }
    }
  }

  // Once every slot has been drained with every allocation succeeding, no marker
  // and no map entry is left, and the process sees what it saw before.
  lemma DrainedClean(z: Lz4, s: State, slots: seq<Slot>, ls: seq<LoadLuck>, mm: nat)
    requires Inv(z, s) && LosslessLz4(z) && Coherent(s, mm) && |slots| == |ls|
    requires (forall l | l in ls :: AllGood(l)) && (forall slot | slot in s.ptes :: slot in slots)
    ensures var t := DrainAll(z, s, slots, ls);
            && t.entries == map[] && (forall slot | slot in t.ptes :: !IsMarker(t.ptes[slot]))
            && t.ptes == View(z, s)
  {
    hide Inv, IsMarker, LosslessLz4, Drain, View, Coherent, DrainOrderly, DrainHarmless;
    var t := DrainAll(z, s, slots, ls);
    if s.count == 0 {
      EmptyMap(z, s);
    } else {
      SameIsHarmless(View(z, s), s, slots, ls);
      DrainView(z, s, slots, ls, mm);
      DrainEmpties(z, s, slots, ls, mm);
      NoEntries(s, t, slots, mm);
    }
    NoMarkers(z, t, mm);
  }

  lemma EmptyMap(z: Lz4, s: State)
    requires Inv(z, s) && s.count == 0
    ensures s.entries == map[]
  {
    hide Faithful;
    assert |s.entries.Keys| == |s.entries|;
  }

  // Putting a marker where a page was: what is behind it is the page as the codec
  // returns it, and nothing else changes.
  lemma MarkedView(z: Lz4, s: State, t: State, slot: Slot, h: nat, mm: nat)
    requires Inv(z, s) && LosslessLz4(z) && Coherent(s, mm) && slot in s.ptes && s.ptes[slot].Present?
    requires Packed(z, s.ptes[slot].page).Some? && h !in s.objects
    requires Inv(z, t)
    requires t == StorePage(z, s, slot.vpn, s.ptes[slot].page, h).(ptes := s.ptes[slot := Swapped(MakeEntry(slot.vpn))])
    ensures Coherent(t, mm)
    ensures View(z, t) == View(z, s)[slot := Present(Restored(s.ptes[slot].page))]
  {
    hide Packed, ClassifyPage, Restored, LosslessLz4, Inv, MakeEntry, IsMinimemPte, Load, Coherent;
    MarkerRoundTrip(slot.vpn);
    LoadOrigin(z, t, slot.vpn);
    MarkedCoherent(s, t, slot, mm);
    forall k | k in s.ptes && k != slot ensures Visible(z, t, k) == Visible(z, s, k) {
      KeyApart(s, k, slot, mm);
      OtherVisible(z, s, t, k);
    }
  }

  lemma KeyApart(s: State, a: Slot, b: Slot, mm: nat)
    requires Coherent(s, mm) && a in s.ptes && b in s.ptes && a != b
    ensures a.vpn != b.vpn
  {
  }

  lemma MarkedCoherent(s: State, t: State, slot: Slot, mm: nat)
    requires Coherent(s, mm) && slot in s.ptes && IsMinimemPte(MakeEntry(slot.vpn))
    requires t.ptes == s.ptes[slot := Swapped(MakeEntry(slot.vpn))]
    requires t.entries.Keys == s.entries.Keys + {slot.vpn}
    ensures Coherent(t, mm)
  {
    hide MakeEntry, IsMinimemPte;
  }

  lemma OtherVisible(z: Lz4, s: State, t: State, k: Slot)
    requires Inv(z, s)
    requires k in s.ptes && k in t.ptes && t.ptes[k] == s.ptes[k] && (k.vpn in s.entries <==> k.vpn in t.entries)
    requires k.vpn in s.entries ==> t.entries[k.vpn] == s.entries[k.vpn]
    requires forall h | h in s.objects :: h in t.objects && t.objects[h] == s.objects[h]
    ensures Visible(z, t, k) == Visible(z, s, k)
  {
    hide Inv, IsMinimemPte, Load;
    if k.vpn in s.entries {
      HandleLive(z, s, k.vpn);
      SameLoad(z, s, t, k.vpn);
    }
  }

  lemma SameLoad(z: Lz4, s: State, t: State, v: Word)
    requires v in s.entries && v in t.entries && s.entries[v] == t.entries[v]
    requires s.entries[v].handle in s.objects && s.entries[v].handle in t.objects
    requires t.objects[s.entries[v].handle] == s.objects[s.entries[v].handle]
    ensures Load(z, s, v) == Load(z, t, v)
  {
    hide Unpacked, Readable;
  }

  // A map without a key that was added, or added and dropped again.
  lemma SameView(z: Lz4, s: State, t: State, mm: nat)
    requires Coherent(s, mm)
    requires t.ptes == s.ptes && t.entries == s.entries
    requires Inv(z, s) && forall h | h in s.objects :: h in t.objects && t.objects[h] == s.objects[h]
    ensures Coherent(t, mm) && View(z, t) == View(z, s)
  {
    hide Load, Faithful;
    forall k | k in s.ptes ensures Visible(z, t, k) == Visible(z, s, k) {
      if k.vpn in s.entries { SameLoad(z, s, t, k.vpn); }
    }
  }

  // An entry without a map entry, changed by others while nothing else has happened.
  lemma FoundView(z: Lz4, s: State, t: State, slot: Slot, x: Option<Pte>, mm: nat)
    requires Inv(z, s) && Coherent(s, mm) && slot in s.ptes && slot.vpn !in s.entries
    requires t.ptes == Put(s.ptes, slot, x) && t.entries == s.entries
    requires forall h | h in s.objects :: h in t.objects && t.objects[h] == s.objects[h]
    ensures (Coherent(t, mm) <==> !Marks(x)) && View(z, t) == Put(View(z, s), slot, x)
  {
    hide Load, Inv, IsMinimemPte, Visible, Coherent;
    PutCoherent(s, t, slot, x, mm);
    forall k | k in s.ptes && k != slot ensures Visible(z, t, k) == Visible(z, s, k) { OtherVisible(z, s, t, k); }
    ViewPut(z, s, t, slot, x);
  }

  // minimem_compress_and_replace_pte gets to taking the lock again.
  predicate Attempts(z: Lz4, s: State, slot: Slot, minPct: int, l: StoreLuck) {
    && slot in s.ptes && s.ptes[slot].Present? && Accepts(z, s.ptes[slot].page, minPct)
    && l.kmalloc && l.handle.Some? && l.entryAlloc && l.xaStore
  }

  lemma ReplaceView(z: Lz4, s: State, slot: Slot, minPct: int, l: StoreLuck, mm: nat)
    requires Inv(z, s) && LosslessLz4(z) && Coherent(s, mm) && FreshHandle(s, l)
    ensures var (t, ret) := CompressAndReplace(z, s, slot, minPct, l);
            && (ret == Ok <==> Attempts(z, s, slot, minPct, l) && l.relock.Same?)
            && (ret == Eagain <==> Attempts(z, s, slot, minPct, l) && l.relock.Changed?)
            && (ret == Ok ==>
                  Coherent(t, mm) && View(z, t) == View(z, s)[slot := Present(Restored(s.ptes[slot].page))])
            && (ret == Eagain ==>
                  (Coherent(t, mm) <==> !Marks(l.relock.found)) && View(z, t) == Put(View(z, s), slot, l.relock.found))
            && (ret != Ok && ret != Eagain ==> Coherent(t, mm) && View(z, t) == View(z, s))
  {
    hide Inv, IsMinimemPte, LosslessLz4, View, Restored, Coherent, SavesEnough, MakeEntry, Packed, ClassifyPage;
    var (t, ret) := CompressAndReplace(z, s, slot, minPct, l);
    ReplaceKeeps(z, s, slot, minPct, l);
    if ret == Ok {
      MarkedView(z, s, t, slot, l.handle.value, mm);
    } else if Attempts(z, s, slot, minPct, l) {
      Unmarked(s, slot, mm);
      assert t.entries == s.entries;
      if ret == Eagain { FoundView(z, s, t, slot, l.relock.found, mm); } else { SameView(z, s, t, mm); }
    }
  }

  lemma Unmarked(s: State, slot: Slot, mm: nat)
    requires Coherent(s, mm) && slot in s.ptes && s.ptes[slot].Present?
    ensures slot.vpn !in s.entries
  {
  }

  // A marker unmapped: its entry and object go with it.
  lemma ZappedView(z: Lz4, s: State, t: State, slot: Slot, mm: nat)
    requires Inv(z, s) && Inv(z, t) && Coherent(s, mm)
    requires slot in s.ptes && slot.vpn in s.entries && t.ptes == s.ptes - {slot}
    requires t.entries == s.entries - {slot.vpn} && t.objects == s.objects - {s.entries[slot.vpn].handle}
    ensures Coherent(t, mm) && View(z, t) == View(z, s) - {slot}
  {
    hide Inv, IsMinimemPte, Load;
    OthersLoad(z, s, t, slot.vpn);
    forall k | k in t.ptes ensures Visible(z, t, k) == Visible(z, s, k) { assert k.vpn != slot.vpn; }
  }

  // Any other entry unmapped.
  lemma ClearedView(z: Lz4, s: State, t: State, slot: Slot, mm: nat)
    requires Coherent(s, mm)
    requires slot in s.ptes && !IsMarker(s.ptes[slot]) && t.ptes == s.ptes - {slot}
    requires t.entries == s.entries && t.objects == s.objects
    ensures Coherent(t, mm) && View(z, t) == View(z, s) - {slot}
  {
    hide IsMinimemPte, Load;
    forall k | k in t.ptes ensures Visible(z, t, k) == Visible(z, s, k) {
      if k.vpn in s.entries { SameLoadIgnores(z, s, t, k.vpn); }
    }
  }

  lemma UnmapView(z: Lz4, s: State, slot: Slot, mm: nat)
    requires Inv(z, s) && Coherent(s, mm)
    ensures var t := Unmap(s, slot);
            && Inv(z, t) && Coherent(t, mm) && View(z, t) == View(z, s) - {slot}
  {
    hide IsMinimemPte, Inv, Load, Visible;
    var t := Unmap(s, slot);
    StepKeeps(z, s, UnmapOp(slot));
    if slot !in s.ptes {
      assert View(z, s) - {slot} == View(z, s);
    } else if IsMarker(s.ptes[slot]) {
      ZappedView(z, s, t, slot, mm);
    } else {
      ClearedView(z, s, t, slot, mm);
    }
  }

  // A page put into a slot that is free or already mapped.
  lemma PutView(z: Lz4, s: State, slot: Slot, page: Page, mm: nat)
    requires Inv(z, s) && Coherent(s, mm) && slot.mm == mm && (slot in s.ptes ==> s.ptes[slot].Present?)
    ensures var t := s.(ptes := s.ptes[slot := Present(page)]);
            && Inv(z, t) && Coherent(t, mm)
            && View(z, t) == View(z, s)[slot := Present(page)]
  {
    hide IsMinimemPte, Load, Inv;
    var t := s.(ptes := s.ptes[slot := Present(page)]);
    InvIgnores(z, s, t);
    forall k | k in t.ptes && k != slot ensures Visible(z, t, k) == Visible(z, s, k) {
      if k.vpn in s.entries { SameLoadIgnores(z, s, t, k.vpn); }
    }
  }

  lemma SameLoadIgnores(z: Lz4, s: State, t: State, v: Word)
    requires v in s.entries && t.entries == s.entries && t.objects == s.objects
    ensures Load(z, s, v) == Load(z, t, v)
  {
    hide Unpacked, Readable;
  }

  // ---- Operations that take entries away or put them in ----

  // minimem_decompress_and_restore and minimem_zswap_remove leave the marker, so they
  // do no harm exactly if they find no entry or, for the former, fail before removing it.
  predicate RestoreSafe(s: State, vpn: Word, l: LoadLuck) {
    !(vpn in s.entries && l.kmalloc && l.readBegin)
  }

  lemma RestoreView(z: Lz4, s: State, vpn: Word, l: LoadLuck, mm: nat)
    requires Inv(z, s) && LosslessLz4(z) && Coherent(s, mm)
    ensures var t := DecompressAndRestore(z, s, vpn, l).0;
            && (Coherent(t, mm) <==> RestoreSafe(s, vpn, l))
            && (View(z, t) == View(z, s) <==> RestoreSafe(s, vpn, l))
  {
    hide Inv, IsMinimemPte, LosslessLz4, Load, View;
    if !RestoreSafe(s, vpn, l) {
      LoadOrigin(z, s, vpn);
      Lost(z, s, DecompressAndRestore(z, s, vpn, l).0, Slot(mm, vpn), mm);
    }
  }

  lemma RemoveView(z: Lz4, s: State, vpn: Word, mm: nat)
    requires Inv(z, s) && LosslessLz4(z) && Coherent(s, mm)
    ensures var t := Remove(s, vpn).0;
            && (Coherent(t, mm) <==> vpn !in s.entries)
            && (View(z, t) == View(z, s) <==> vpn !in s.entries)
  {
    hide Inv, IsMinimemPte, LosslessLz4, View;
    if vpn in s.entries { Lost(z, s, Remove(s, vpn).0, Slot(mm, vpn), mm); }
  }

  lemma {:induction false} ShrinkLeaves(s: State, order: seq<Word>, n: nat)
    ensures Shrink(s, order, n).ptes == s.ptes && Shrink(s, order, n).entries.Keys <= s.entries.Keys
    decreases n
  {
    if n > 0 && |order| > 0 && order[0] in s.entries { ShrinkLeaves(Drop(s, order[0]), order[1..], n - 1); }
  }

  // The shrinker loses a page whenever it is asked for one and there is one.
  lemma ShrinkView(z: Lz4, s: State, order: seq<Word>, n: nat, mm: nat)
    requires Inv(z, s) && LosslessLz4(z) && Coherent(s, mm) && Lists(order, s)
    ensures var t := Shrink(s, order, n);
            && (Coherent(t, mm) <==> n == 0 || s.entries == map[])
            && (View(z, t) == View(z, s) <==> n == 0 || s.entries == map[])
  {
    hide Inv, IsMinimemPte, LosslessLz4, View;
    if n > 0 && s.entries != map[] {
      var v :| v in s.entries;
      assert v in order;
      assert order[0] in order;
      ShrinkLeaves(Drop(s, order[0]), order[1..], n - 1);
      Lost(z, s, Shrink(s, order, n), Slot(mm, order[0]), mm);
    }
  }

  // minimem_compress_and_store gets to the map.
  predicate Stores(z: Lz4, s: State, page: Page, maxPool: int, minPct: int, l: StoreLuck) {
    && !(maxPool > 0 && s.storedPages >= maxPool) && Accepts(z, page, minPct)
    && l.kmalloc && l.handle.Some? && l.entryAlloc && l.xaStore
  }

  // A stored page under an occupied key replaces what its marker stands for; under a
  // free key it is an entry without a marker.
  lemma StoredView(z: Lz4, s: State, vpn: Word, page: Page, h: nat, t: State, mm: nat)
    requires Inv(z, s) && Inv(z, t) && LosslessLz4(z) && Coherent(s, mm)
    requires Packed(z, page).Some? && h !in s.objects
    requires t.ptes == s.ptes && t.entries == StorePage(z, s, vpn, page, h).entries
    requires t.objects == StorePage(z, s, vpn, page, h).objects && t.origin == s.origin[h := page]
    ensures Coherent(t, mm) <==> vpn in s.entries
    ensures vpn !in s.entries ==> View(z, t) == View(z, s)
    ensures vpn in s.entries ==>
              Slot(mm, vpn) in s.ptes && View(z, t) == View(z, s)[Slot(mm, vpn) := Present(Restored(page))]
  {
    hide Inv, Packed, ClassifyPage, Restored, LosslessLz4, IsMinimemPte, Load;
    LoadOrigin(z, t, vpn);
    forall k | k in s.ptes && (k.vpn != vpn || vpn !in s.entries) ensures Visible(z, t, k) == Visible(z, s, k) {
      if k.vpn != vpn { OtherVisible(z, s, t, k); }
    }
  }

  lemma StoreView(z: Lz4, s: State, vpn: Word, page: Page, maxPool: int, minPct: int, l: StoreLuck, mm: nat)
    requires Inv(z, s) && LosslessLz4(z) && Coherent(s, mm) && FreshHandle(s, l)
    ensures var t := CompressAndStore(z, s, vpn, page, maxPool, minPct, l).0;
            var stores := Stores(z, s, page, maxPool, minPct, l);
            && (Coherent(t, mm) <==> (stores ==> vpn in s.entries))
            && (View(z, t) == View(z, s) <==> (stores && vpn in s.entries ==> Load(z, s, vpn) == Some(Restored(page))))
  {
    hide Inv, Packed, ClassifyPage, Restored, LosslessLz4, Coherent, View, Load, StorePage, SavesEnough;
    if Stores(z, s, page, maxPool, minPct, l) {
      var h, t := l.handle.value, CompressAndStore(z, s, vpn, page, maxPool, minPct, l).0;
      StoreOpKeeps(z, s, vpn, page, maxPool, minPct, l);
      StoreOnly(z, s, vpn, page, h);
      StoredView(z, s, vpn, page, h, t, mm);
      if vpn in s.entries {
        LoadOrigin(z, s, vpn);
        MarkerView(z, s, vpn, Restored(page), mm);
      }
    }
  }

  lemma StoreOnly(z: Lz4, s: State, vpn: Word, page: Page, h: nat)
    requires Packed(z, page).Some?
    ensures var t := StorePage(z, s, vpn, page, h); t.ptes == s.ptes && t.origin == s.origin[h := page]
  {
  }

  lemma MarkerView(z: Lz4, s: State, vpn: Word, page: Page, mm: nat)
    requires Coherent(s, mm) && vpn in s.entries && Load(z, s, vpn).Some?
    ensures var slot := Slot(mm, vpn);
            View(z, s)[slot := Present(page)] == View(z, s) <==> Load(z, s, vpn) == Some(page)
  {
    hide Load, IsMinimemPte;
    var slot := Slot(mm, vpn);
    assert slot in s.ptes && View(z, s)[slot] == Present(Load(z, s, vpn).value);
    assert View(z, s)[slot := Present(page)][slot] == Present(page);
  }

  // ---- Steps ----

  // What a step means to the process: its own writes, mappings and unmaps.
  function Meaning(view: map<Slot, Pte>, op: Op): map<Slot, Pte> {
    match op
    case WriteOp(slot, page) => view[slot := Present(page)]
    case MapOp(slot, page) => view[slot := Present(page)]
    case UnmapOp(slot) => view - {slot}
    case _ => view
  }

  // Operations on one address space map no page into another.
  predicate InSpace(op: Op, mm: nat) {
    op.MapOp? ==> op.slot.mm == mm
  }

  // When an operation leaves markers and map entries in agreement.
  ghost predicate Orderly(z: Lz4, s: State, op: Op)
    requires Legal(s, op)
  {
    match op
    case StoreOp(vpn, page, maxPool, minPct, l) => Stores(z, s, page, maxPool, minPct, l) ==> vpn in s.entries
    case ReplaceOp(slot, minPct, l) =>
      Attempts(z, s, slot, minPct, l) && l.relock.Changed? ==> !Marks(l.relock.found)
    case FaultOp(slot, l) => FaultOrderly(s, slot, l)
    case RestoreOp(vpn, l) => RestoreSafe(s, vpn, l)
    case RemoveOp(vpn) => vpn !in s.entries
    case DrainOp(slots, ls) => DrainOrderly(s, slots, ls)
    case ShrinkOp(order, n) => n == 0 || s.entries == map[]
    case _ => true
  }

  // When an operation changes what the process sees only as the process asked.  What
  // others put into an entry while an operation has let go of its lock counts as a
  // change, unless it is the page that was there.
  ghost predicate Harmless(z: Lz4, s: State, op: Op)
    requires Legal(s, op)
  {
    match op
    case StoreOp(vpn, page, maxPool, minPct, l) =>
      Stores(z, s, page, maxPool, minPct, l) && vpn in s.entries ==> Load(z, s, vpn) == Some(Restored(page))
    case ReplaceOp(slot, minPct, l) =>
      Attempts(z, s, slot, minPct, l) ==>
        && (l.relock.Same? ==> Survives(s.ptes[slot].page))
        && (l.relock.Changed? ==> l.relock.found == Some(s.ptes[slot]))
    case FaultOp(slot, l) => FaultHarmless(z, s, slot, l)
    case DrainOp(slots, ls) => DrainHarmless(View(z, s), s, slots, ls)
    case _ => Orderly(z, s, op)
  }

  // All ten operations, both ways.  What decides is the state before the step and what
  // the environment does during it: allocations, handles, locks and what is found under
  // them.  No condition looks at the state or the answer that comes out.
  lemma StepView(z: Lz4, s: State, op: Op, mm: nat)
    requires Inv(z, s) && LosslessLz4(z) && Coherent(s, mm) && Legal(s, op) && InSpace(op, mm)
    ensures var t := Step(z, s, op);
            && (Coherent(t, mm) <==> Orderly(z, s, op))
            && (View(z, t) == Meaning(View(z, s), op) <==> Harmless(z, s, op))
  {
    hide Inv, LosslessLz4, IsMinimemPte, Survives, Restored, View, Fault, Drain, Unmap, Shrink, Remove;
    hide Stores, DrainOrderly, DrainHarmless, FaultOrderly, FaultHarmless, Attempts, Differs, Coherent;
    hide CompressAndStore, DecompressAndRestore, RestoreSafe, Load, Lists;
    match op
    case StoreOp(vpn, page, maxPool, minPct, l) => StoreView(z, s, vpn, page, maxPool, minPct, l, mm);
    case ReplaceOp(slot, minPct, l) => ReplaceStep(z, s, slot, minPct, l, mm);
    case FaultOp(slot, l) => FaultView(z, s, slot, l, mm);
    case RestoreOp(vpn, l) => RestoreView(z, s, vpn, l, mm);
    case RemoveOp(vpn) => RemoveView(z, s, vpn, mm);
    case UnmapOp(slot) => UnmapView(z, s, slot, mm);
    case DrainOp(slots, ls) =>
      DrainView(z, s, slots, ls, mm);
      if s.count == 0 { NoDrain(z, s, slots, ls, mm); }
    case ShrinkOp(order, n) => ShrinkView(z, s, order, n, mm);
    case WriteOp(slot, page) =>
      OneSpace(s, slot, mm);
      PutView(z, s, slot, page, mm);
    case MapOp(slot, page) => PutView(z, s, slot, page, mm);
  }

  lemma ReplaceStep(z: Lz4, s: State, slot: Slot, minPct: int, l: StoreLuck, mm: nat)
    requires Inv(z, s) && LosslessLz4(z) && Coherent(s, mm) && FreshHandle(s, l)
    ensures var t := CompressAndReplace(z, s, slot, minPct, l).0;
            && (Coherent(t, mm) <==> Orderly(z, s, ReplaceOp(slot, minPct, l)))
            && (View(z, t) == View(z, s) <==> Harmless(z, s, ReplaceOp(slot, minPct, l)))
  {
    hide Inv, LosslessLz4, MakeEntry, Survives, Restored, View, Coherent, StorePage, Drop, Accepts, CompressAndReplace;
    ReplaceView(z, s, slot, minPct, l, mm);
    if Attempts(z, s, slot, minPct, l) {
      RestoredIff(s.ptes[slot].page);
      ViewAt(z, s, slot, Some(Present(Restored(s.ptes[slot].page))));
      if l.relock.Changed? { ViewAt(z, s, slot, l.relock.found); }
    }
  }

  lemma ViewAt(z: Lz4, s: State, slot: Slot, x: Option<Pte>)
    requires slot in s.ptes && s.ptes[slot].Present?
    ensures Put(View(z, s), slot, x) == View(z, s) <==> x == Some(s.ptes[slot])
  {
    hide Load;
    assert View(z, s)[slot] == s.ptes[slot];
    PutSame(View(z, s), slot, x);
  }

  lemma OneSpace(s: State, slot: Slot, mm: nat)
    requires Coherent(s, mm) && slot in s.ptes
    ensures slot.mm == mm
  {
  }

  lemma NoDrain(z: Lz4, s: State, slots: seq<Slot>, ls: seq<LoadLuck>, mm: nat)
    requires Inv(z, s) && Coherent(s, mm) && s.count == 0 && |slots| == |ls|
    ensures DrainOrderly(s, slots, ls) && DrainHarmless(View(z, s), s, slots, ls)
  {
    hide Inv, IsMinimemPte, View;
    EmptyMap(z, s);
  }

  // ---- Runs ----

  ghost predicate OrderlyRun(z: Lz4, s: State, ops: seq<Op>)
    requires LegalRun(z, s, ops)
    decreases |ops|
  {
    |ops| == 0 || (Orderly(z, s, ops[0]) && OrderlyRun(z, Step(z, s, ops[0]), ops[1..]))
  }

  ghost predicate HarmlessRun(z: Lz4, s: State, ops: seq<Op>)
    requires LegalRun(z, s, ops)
    decreases |ops|
  {
    |ops| == 0 || (Harmless(z, s, ops[0]) && HarmlessRun(z, Step(z, s, ops[0]), ops[1..]))
  }

  // Markers and entries agree after every step.
  ghost predicate CoherentRun(z: Lz4, s: State, ops: seq<Op>, mm: nat)
    requires LegalRun(z, s, ops)
    decreases |ops|
  {
    |ops| == 0 || (Coherent(Step(z, s, ops[0]), mm) && CoherentRun(z, Step(z, s, ops[0]), ops[1..], mm))
  }

  // After every step the process sees what it saw before, but for what it did itself.
  ghost predicate FollowsRun(z: Lz4, s: State, ops: seq<Op>)
    requires LegalRun(z, s, ops)
    decreases |ops|
  {
    |ops| == 0 ||
    (View(z, Step(z, s, ops[0])) == Meaning(View(z, s), ops[0]) && FollowsRun(z, Step(z, s, ops[0]), ops[1..]))
  }

  function Story(view: map<Slot, Pte>, ops: seq<Op>): map<Slot, Pte>
    decreases |ops|
  {
    if |ops| == 0 then view else Story(Meaning(view, ops[0]), ops[1..])
  }

  // Over every run of all ten operations: markers and entries agree throughout exactly
  // if every operation is orderly at its turn; and if they do, the process's memory
  // follows its own writes, mappings and unmaps exactly if every operation is harmless.
  lemma {:induction false} TransparentIff(z: Lz4, s: State, ops: seq<Op>, mm: nat)
    requires Inv(z, s) && LosslessLz4(z) && Coherent(s, mm) && LegalRun(z, s, ops)
    requires forall op | op in ops :: InSpace(op, mm)
    ensures CoherentRun(z, s, ops, mm) <==> OrderlyRun(z, s, ops)
    ensures OrderlyRun(z, s, ops) ==>
              && Coherent(Run(z, s, ops), mm)
              && (FollowsRun(z, s, ops) <==> HarmlessRun(z, s, ops))
              && (HarmlessRun(z, s, ops) ==> View(z, Run(z, s, ops)) == Story(View(z, s), ops))
    decreases |ops|
  {
    hide Inv, LosslessLz4, Step, Coherent, InSpace, Legal, Orderly, Harmless, View, Meaning;
    if |ops| > 0 {
      assert ops[0] in ops;
      StepKeeps(z, s, ops[0]);
      StepView(z, s, ops[0], mm);
      if Orderly(z, s, ops[0]) { TransparentIff(z, Step(z, s, ops[0]), ops[1..], mm); }
    }
  }

  // The steps of a serial run: entries found unchanged after a map removal, no marker
  // found in place of a page, a zap with every unmap, no shrinker and no bare store.
  predicate Serial(op: Op, mm: nat) {
    match op
    case ReplaceOp(_, _, l) => l.relock.Changed? ==> !Marks(l.relock.found)
    case FaultOp(_, l) => l.relock.Same?
    case UnmapOp(_) => true
    case DrainOp(_, ls) => forall l | l in ls :: l.relock.Same?
    case WriteOp(slot, _) => slot.mm == mm
    case MapOp(slot, _) => slot.mm == mm
    case _ => false
  }

  lemma SerialIsOrderly(z: Lz4, s: State, op: Op, mm: nat)
    requires Legal(s, op) && Serial(op, mm)
    ensures Orderly(z, s, op)
  {
    hide IsMarker;
    match op
    case DrainOp(slots, ls) =>
      SameIsHarmless(map[], s, slots, ls);
    case _ =>
  }

  lemma {:induction false} SerialOrderly(z: Lz4, s: State, ops: seq<Op>, mm: nat)
    requires LegalRun(z, s, ops) && forall op | op in ops :: Serial(op, mm)
    ensures OrderlyRun(z, s, ops)
    decreases |ops|
  {
    hide Step, Legal, Serial, Orderly;
    if |ops| > 0 {
      assert ops[0] in ops;
      SerialIsOrderly(z, s, ops[0], mm);
      SerialOrderly(z, Step(z, s, ops[0]), ops[1..], mm);
    }
  }

  // Over every serial run the markers are exactly the map's entries, and the process's
  // memory is what its own writes, mappings and unmaps made it, step by step, exactly if
  // only surviving pages are compressed and none is replaced while that is being tried.
  lemma Transparent(z: Lz4, s: State, ops: seq<Op>, mm: nat)
    requires Inv(z, s) && LosslessLz4(z) && Coherent(s, mm) && LegalRun(z, s, ops)
    requires forall op | op in ops :: Serial(op, mm)
    ensures var t := Run(z, s, ops);
            && Coherent(t, mm) && CoherentRun(z, s, ops, mm)
            && (FollowsRun(z, s, ops) <==> HarmlessRun(z, s, ops))
            && (HarmlessRun(z, s, ops) ==> View(z, t) == Story(View(z, s), ops))
  {
    hide Inv, LosslessLz4, Coherent, LegalRun, Run, CoherentRun, FollowsRun, HarmlessRun, OrderlyRun, Story;
    forall op | op in ops ensures InSpace(op, mm) { assert Serial(op, mm); }
    SerialOrderly(z, s, ops, mm);
    TransparentIff(z, s, ops, mm);
  }

  // ---- Losses at work ----

  function PageOf(b: Byte): Page {
    seq(PAGE_SIZE, _ => b)
  }

  lemma PageOfPacked(z: Lz4, b: Byte, minPct: int)
    requires minPct <= 90
    ensures Accepts(z, PageOf(b), minPct) && Packed(z, PageOf(b)) == Some([b]) && ClassifyPage(PageOf(b)) == SAME_PAGE
    ensures Readable([b], SAME_PAGE) && Unpacked(z, [b], SAME_PAGE) == Some(PageOf(b))
  {
    assert AllSame(PageOf(b));
    assert ByteBlocks.Repeat(b, PAGE_SIZE) == PageOf(b);
  }

  lemma RunTwo(z: Lz4, s: State, a: Op, b: Op)
    requires Legal(s, a) && Legal(Step(z, s, a), b)
    ensures LegalRun(z, s, [a, b]) && Run(z, s, [a, b]) == Step(z, Step(z, s, a), b)
  {
    hide Step, Legal;
    var t := Step(z, s, a);
    assert [a, b][1..] == [b] && [b][1..] == [];
    assert LegalRun(z, Step(z, t, b), []) && LegalRun(z, t, [b]);
    assert Run(z, t, [b]) == Run(z, Step(z, t, b), []);
  }

  function Lucky(handle: nat): StoreLuck {
    StoreLuck(true, Some(handle), true, true, Same)
  }

  // A state with one page, all of whose bytes are b, compressed under a handle.
  predicate OneCompressed(s: State, slot: Slot, b: Byte, handle: nat) {
    && s.ptes == map[slot := Swapped(MakeEntry(slot.vpn))] && s.count > 0
    && s.entries == map[slot.vpn := Entry(SAME_PAGE, 1, handle)]
    && handle in s.objects && s.objects[handle] == [b] && (forall h | h in s.objects :: h <= handle)
  }

  lemma OneLoads(z: Lz4, s: State, slot: Slot, b: Byte, handle: nat)
    requires OneCompressed(s, slot, b, handle)
    ensures Load(z, s, slot.vpn) == Some(PageOf(b))
  {
    hide Unpacked, Readable, PageOf, Packed, ClassifyPage, Accepts, MakeEntry;
    PageOfPacked(z, b, 0);
  }

  lemma OneView(z: Lz4, s: State, slot: Slot, b: Byte, handle: nat)
    requires OneCompressed(s, slot, b, handle)
    ensures Coherent(s, slot.mm) && View(z, s) == map[slot := Present(PageOf(b))]
  {
    hide Load, IsMinimemPte, MakeEntry, PageOf;
    OneLoads(z, s, slot, b, handle);
    MarkerRoundTrip(slot.vpn);
  }

  // What is reached from the empty store by mapping one page and compressing it.
  function One(z: Lz4, slot: Slot): State {
    CompressAndReplace(z, Initial().(ptes := map[slot := Present(PageOf(0))]), slot, 0, Lucky(1)).0
  }

  lemma CompressOne(z: Lz4, slot: Slot)
    ensures Legal(Initial(), MapOp(slot, PageOf(0)))
    ensures var s := Step(z, Initial(), MapOp(slot, PageOf(0)));
            && Legal(s, ReplaceOp(slot, 0, Lucky(1))) && One(z, slot) == Step(z, s, ReplaceOp(slot, 0, Lucky(1)))
    ensures OneCompressed(One(z, slot), slot, 0, 1)
  {
    hide Packed, ClassifyPage, MakeEntry, PageOf, Accepts;
    PageOfPacked(z, 0, 0);
  }

  // The process still sees its page there.
  ghost predicate ReachesOne(z: Lz4, slot: Slot) {
    var ops := [MapOp(slot, PageOf(0)), ReplaceOp(slot, 0, Lucky(1))];
    && LegalRun(z, Initial(), ops) && One(z, slot) == Run(z, Initial(), ops)
    && Coherent(One(z, slot), slot.mm) && View(z, One(z, slot)) == map[slot := Present(PageOf(0))]
  }

  lemma ReachOne(z: Lz4, slot: Slot)
    ensures ReachesOne(z, slot) && OneCompressed(One(z, slot), slot, 0, 1)
  {
    hide Step, Legal, Coherent, View, OneCompressed, MakeEntry, PageOf, LegalRun, Run, One;
    CompressOne(z, slot);
    RunTwo(z, Initial(), MapOp(slot, PageOf(0)), ReplaceOp(slot, 0, Lucky(1)));
    OneView(z, One(z, slot), slot, 0, 1);
  }

  function Loading(r: Relock): LoadLuck {
    LoadLuck(true, true, true, r)
  }

  // The shrinker, a fault and a drain that do not get the lock again, a restore to a
  // caller's page, and a removal without an unmap.
  predicate Loses(op: Op, slot: Slot) {
    match op
    case ShrinkOp(order, n) => order == [slot.vpn] && n == 1
    case FaultOp(k, l) => k == slot && l == Loading(NoLock)
    case DrainOp(slots, ls) => slots == [slot] && ls == [Loading(NoLock)]
    case RestoreOp(vpn, l) => vpn == slot.vpn && l == Loading(Same)
    case RemoveOp(vpn) => vpn == slot.vpn
    case _ => false
  }

  lemma OneLost(z: Lz4, s: State, slot: Slot, op: Op)
    requires OneCompressed(s, slot, 0, 1) && Loses(op, slot)
    ensures Legal(s, op) && Step(z, s, op).ptes == s.ptes && Step(z, s, op).entries == map[]
  {
    hide IsMinimemPte, MakeEntry, Load, Shrink, DrainAll, Lists, Fault, DecompressAndRestore, Remove;
    MarkerRoundTrip(slot.vpn);
    OneLoads(z, s, slot, 0, 1);
    match op
    case ShrinkOp(order, _) => OneShrunk(s, slot, order);
    case DrainOp(slots, ls) => OneDrained(z, s, slot, slots, ls);
    case _ => OneTaken(z, s, slot);
  }

  lemma OneTaken(z: Lz4, s: State, slot: Slot)
    requires OneCompressed(s, slot, 0, 1) && IsMarker(s.ptes[slot]) && Load(z, s, slot.vpn).Some?
    ensures var t := Fault(z, s, slot, Loading(NoLock)).0; t.ptes == s.ptes && t.entries == map[]
    ensures var t := DecompressAndRestore(z, s, slot.vpn, Loading(Same)).0; t.ptes == s.ptes && t.entries == map[]
    ensures var t := Remove(s, slot.vpn).0; t.ptes == s.ptes && t.entries == map[]
  {
    hide IsMinimemPte, MakeEntry, Load;
    assert Drop(s, slot.vpn).entries == map[];
  }

  lemma OneShrunk(s: State, slot: Slot, order: seq<Word>)
    requires OneCompressed(s, slot, 0, 1) && order == [slot.vpn]
    ensures Lists(order, s) && Shrink(s, order, 1).ptes == s.ptes && Shrink(s, order, 1).entries == map[]
  {
    hide MakeEntry;
    assert Shrink(s, order, 1) == Shrink(Drop(s, slot.vpn), order[1..], 0);
  }

  lemma OneDrained(z: Lz4, s: State, slot: Slot, slots: seq<Slot>, ls: seq<LoadLuck>)
    requires OneCompressed(s, slot, 0, 1) && IsMarker(s.ptes[slot]) && Load(z, s, slot.vpn).Some?
    requires slots == [slot] && ls == [Loading(NoLock)]
    ensures DrainAll(z, s, slots, ls).ptes == s.ptes && DrainAll(z, s, slots, ls).entries == map[]
  {
    hide IsMinimemPte, MakeEntry, Load;
    var u := DrainOne(z, s, slot, ls[0]);
    assert Drain(z, s, slots, ls) == Drain(z, u, slots[1..], ls[1..]) == u;
  }

  // Each of them takes the page away from the process, which is left with a marker that
  // nothing backs.
  lemma LosesAPage(z: Lz4, slot: Slot, op: Op)
    requires Loses(op, slot)
    ensures ReachesOne(z, slot) && Legal(One(z, slot), op)
    ensures var t := Step(z, One(z, slot), op);
            !Coherent(t, slot.mm) && View(z, t) == map[slot := Swapped(MakeEntry(slot.vpn))]
  {
    hide Step, Legal, IsMinimemPte, MakeEntry, Load, ReachesOne, One;
    ReachOne(z, slot);
    OneLost(z, One(z, slot), slot, op);
    MarkerRoundTrip(slot.vpn);
  }

  // A fault that finds its entry changed keeps markers and map in agreement if what it
  // finds is a page, and what the process sees if it is the page.
  lemma FindsAPage(z: Lz4, slot: Slot, b: Byte)
    ensures var op := FaultOp(slot, Loading(Changed(Some(Present(PageOf(b))))));
            && ReachesOne(z, slot) && Legal(One(z, slot), op)
            && var (s, t) := (One(z, slot), Step(z, One(z, slot), op));
            && Coherent(t, slot.mm) && View(z, t) == map[slot := Present(PageOf(b))]
            && (View(z, t) == View(z, s) <==> b == 0)
  {
    hide IsMinimemPte, MakeEntry, PageOf, Load, ReachesOne, One, Step, OneCompressed, View, Coherent;
    ReachOne(z, slot);
    assert ReachesOne(z, slot);
    OneFound(z, One(z, slot), slot, b);
    OneView(z, One(z, slot), slot, 0, 1);
    PagesDiffer(b);
    assert map[slot := Present(PageOf(b))][slot] == Present(PageOf(b));
    assert map[slot := Present(PageOf(0))][slot] == Present(PageOf(0));
  }

  lemma OneFound(z: Lz4, s: State, slot: Slot, b: Byte)
    requires OneCompressed(s, slot, 0, 1)
    ensures var op := FaultOp(slot, Loading(Changed(Some(Present(PageOf(b))))));
            && Legal(s, op) && Coherent(Step(z, s, op), slot.mm)
            && View(z, Step(z, s, op)) == map[slot := Present(PageOf(b))]
  {
    hide IsMinimemPte, MakeEntry, PageOf, Load;
    MarkerRoundTrip(slot.vpn);
    OneLoads(z, s, slot, 0, 1);
    var t := Fault(z, s, slot, Loading(Changed(Some(Present(PageOf(b)))))).0;
    assert t.ptes == map[slot := Present(PageOf(b))] && t.entries == map[];
    NoMarkers(z, t, slot.mm);
  }

  lemma PagesDiffer(b: Byte)
    ensures PageOf(b) == PageOf(0) <==> b == 0
  {
    assert PageOf(b)[0] == b && PageOf(0)[0] == 0;
  }

  // A bare store of another page: under the key of a marker it changes what the process
  // sees, under any other it leaves an entry without a marker.
  lemma StoresAPage(z: Lz4, slot: Slot, vpn: Word)
    ensures var op := StoreOp(vpn, PageOf(1), 0, 0, Lucky(2));
            && ReachesOne(z, slot) && Legal(One(z, slot), op)
            && var (s, t) := (One(z, slot), Step(z, One(z, slot), op));
            if vpn == slot.vpn then Coherent(t, slot.mm) && View(z, t) == map[slot := Present(PageOf(1))] != View(z, s)
            else !Coherent(t, slot.mm) && View(z, t) == View(z, s)
  {
    hide IsMinimemPte, MakeEntry, Unpacked, Readable, PageOf, Packed, ClassifyPage, Accepts, Load, LegalRun, Run;
    hide Coherent, View, One;
    ReachOne(z, slot);
    var s, t := One(z, slot), Step(z, One(z, slot), StoreOp(vpn, PageOf(1), 0, 0, Lucky(2)));
    PageOfPacked(z, 1, 0);
    PagesDiffer(1);
    if vpn == slot.vpn {
      OneView(z, t, slot, 1, 2);
      assert View(z, t)[slot] != View(z, s)[slot];
    } else {
      KeyWithoutSlot(z, s, t, slot, vpn);
    }
  }

  lemma KeyWithoutSlot(z: Lz4, s: State, t: State, slot: Slot, vpn: Word)
    requires OneCompressed(s, slot, 0, 1) && vpn != slot.vpn && t.ptes == s.ptes && vpn in t.entries
    requires slot.vpn in t.entries && t.entries[slot.vpn] == s.entries[slot.vpn]
    requires 1 in t.objects && t.objects[1] == s.objects[1]
    ensures !Coherent(t, slot.mm) && View(z, t) == View(z, s)
  {
    hide IsMinimemPte, MakeEntry, Load;
    SameLoad(z, s, t, slot.vpn);
  }
}
