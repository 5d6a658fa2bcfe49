/**
  What a pass of the scanner visits and what its sweep does, said of the areas, page
  states and addresses themselves.
*/
module ScanLaws {
  import opened ScanSpec

  // ---- Visits ----

  // An area the scanner looks into: anonymous, not a device's, not locked, not shared.
  lemma AreaIs(v: Vma)
    ensures Scannable(v) <==>
            v.anonymous && v.start != 0 && v.end != 0 && !v.device && !v.locked && !v.shared
  {
  }

  // What one uninterrupted pass visits.  A mark pass is after every small, present,
  // anonymous page on the LRU list that is neither locked nor shared; a sweep is after
  // those of them that have been idle and not been touched since.
  lemma PassVisits(procs: seq<Process>, w: World, isSweep: bool)
    requires ValidProcs(procs)
    ensures Ordered(procs, Select(w, isSweep, Everything(procs)))
    ensures forall p :: p in Select(w, isSweep, Everything(procs)) <==>
                        && (exists i, j ::
                              && 0 <= i < |procs| && procs[i].pid == p.pid && procs[i].mm.Some?
                              && 0 <= j < |procs[i].mm.value|
                              && var v := procs[i].mm.value[j];
                              && v.anonymous && v.start != 0 && v.end != 0 && !v.device && !v.locked && !v.shared
                              && v.start <= p.addr < v.end)
                        && var s := w.state(p);
                        && s.mapped && s.present && s.plain && s.anon && s.lru && !s.mlocked && !s.extraRefs
                        && (isSweep ==> s.idle && !s.young)
  {
    hide Select, Ordered, Everything;
    FullPass(procs, w, isSweep);
  }

  // ---- The sweep ----

  // The k-th cold page is on the skip list: its bit was set before, or an earlier cold
  // page with an equal address modulo 16384 could not be compressed.
  ghost predicate Hit(w: World, skip: seq<bool>, pages: seq<Page>, k: int)
    requires |skip| == 16384 && 0 <= k < |pages|
  {
    || skip[pages[k].addr % 16384]
    || exists j :: 0 <= j < k && pages[j].addr % 16384 == pages[k].addr % 16384 && !w.compresses(pages[j])
  }

  // The pages compressed among the first n: no hits, and compressible.
  ghost function PackedOf(w: World, skip: seq<bool>, pages: seq<Page>, n: nat): seq<Page>
    requires |skip| == 16384 && n <= |pages|
  {
    if n == 0 then [] else
      PackedOf(w, skip, pages, n - 1) +
      if !Hit(w, skip, pages, n - 1) && w.compresses(pages[n - 1]) then [pages[n - 1]] else []
  }

  ghost function Hits(w: World, skip: seq<bool>, pages: seq<Page>): set<int>
    requires |skip| == 16384
  {
    set k | 0 <= k < |pages| && Hit(w, skip, pages, k)
  }

  // A page of this index cannot be compressed.
  ghost predicate Fails(w: World, pages: seq<Page>, i: int) {
    exists j :: 0 <= j < |pages| && pages[j].addr % 16384 == i && !w.compresses(pages[j])
  }

  // What the sweep comes to: each cold page is a hit, or it is attempted, and then it is
  // compressed if it can be and sets its bit if not.
  ghost predicate SweptTo(w: World, t: Tally, pages: seq<Page>, r: Tally)
    requires |t.skip| == 16384 && |r.skip| == 16384
  {
    && r.packed == t.packed + PackedOf(w, t.skip, pages, |pages|) && r.log == t.log + pages
    && r.hits == t.hits + |Hits(w, t.skip, pages)|
    && r.scanned == t.scanned + |pages| - |Hits(w, t.skip, pages)|
    && r.idle - t.idle == r.scanned - t.scanned
    && r.compressed - t.compressed == |r.packed| - |t.packed|
    && r.skipped - t.skipped == |pages| - (|r.packed| - |t.packed|)
    && forall i | 0 <= i < 16384 :: r.skip[i] <==> t.skip[i] || Fails(w, pages, i)
  }

  lemma HitOn(w: World, skip: seq<bool>, pages: seq<Page>, p: Page, k: int)
    requires |skip| == 16384 && 0 <= k < |pages|
    ensures Hit(w, skip, pages + [p], k) <==> Hit(w, skip, pages, k)
  {
    var longer := pages + [p];
    assert longer[k] == pages[k] && forall j | 0 <= j < k :: longer[j] == pages[j];
  }

  lemma {:induction false} PackedOn(w: World, skip: seq<bool>, pages: seq<Page>, p: Page, n: nat)
    requires |skip| == 16384 && n <= |pages|
    ensures PackedOf(w, skip, pages + [p], n) == PackedOf(w, skip, pages, n)
  {
    hide Hit;
    if n > 0 {
      HitOn(w, skip, pages, p, n - 1);
      PackedOn(w, skip, pages, p, n - 1);
    }
  }

  lemma HitsOn(w: World, skip: seq<bool>, pages: seq<Page>, p: Page)
    requires |skip| == 16384
    ensures |Hits(w, skip, pages + [p])| ==
            |Hits(w, skip, pages)| + if Hit(w, skip, pages + [p], |pages|) then 1 else 0
  {
    hide Hit;
    var longer, n := pages + [p], |pages|;
    forall k | 0 <= k < n ensures Hit(w, skip, longer, k) <==> Hit(w, skip, pages, k) { HitOn(w, skip, pages, p, k); }
    var rest := Hits(w, skip, pages);
    assert n !in rest;
    assert Hits(w, skip, longer) == if Hit(w, skip, longer, n) then rest + {n as int} else rest;
  }

  lemma BitsOn(w: World, t: Tally, pages: seq<Page>, p: Page, r: Tally)
    requires |t.skip| == 16384 && |r.skip| == 16384 && SweptTo(w, t, pages, r)
    ensures r.skip[p.addr % 16384] <==> Hit(w, t.skip, pages + [p], |pages|)
    ensures forall i | 0 <= i < 16384 ::
              SweepOne(w, r, p).skip[i] <==> t.skip[i] || Fails(w, pages + [p], i)
  {
    hide PackedOf, Hits;
    var longer, n := pages + [p], |pages|;
    assert longer[n] == p && forall j | 0 <= j < n :: longer[j] == pages[j];
  }

  lemma SweptOn(w: World, t: Tally, pages: seq<Page>, p: Page, r: Tally)
    requires |t.skip| == 16384 && |r.skip| == 16384 && SweptTo(w, t, pages, r)
    ensures SweptTo(w, t, pages + [p], SweepOne(w, r, p))
  {
    BitsOn(w, t, pages, p, r);
    hide Hit, Hits;
    var longer := pages + [p];
    HitsOn(w, t.skip, pages, p);
    PackedOn(w, t.skip, pages, p, |pages|);
    assert longer[|pages|] == p;
    var before := PackedOf(w, t.skip, pages, |pages|);
    assert t.packed + before + [p] == t.packed + (before + [p]);
    assert t.log + pages + [p] == t.log + longer;
  }

  lemma {:induction false} SweepIs(w: World, t: Tally, pages: seq<Page>)
    requires |t.skip| == 16384
    ensures SweptTo(w, t, pages, SweepAll(w, t, pages))
    decreases |pages|
  {
    hide SweptTo, SweepOne;
    if |pages| == 0 {
      NothingSwept(w, t);
    } else {
      var init, p := pages[..|pages| - 1], pages[|pages| - 1];
      SweepIs(w, t, init);
      SweptOn(w, t, init, p, SweepAll(w, t, init));
      assert init + [p] == pages;
    }
  }

  lemma NothingSwept(w: World, t: Tally)
    requires |t.skip| == 16384
    ensures SweptTo(w, t, [], t)
  {
    assert Hits(w, t.skip, []) == {};
    assert t.packed + [] == t.packed && t.log + [] == t.log;
  }
}
