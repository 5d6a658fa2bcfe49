/**
  The page scanner: mark and sweep passes over the memory of all processes, cut into
  cycles by a page budget and a clock, and resumed from a saved cursor.
*/
module Scanner {
  import opened Buffers
  import opened ScanSpec
  import opened ScanLaws
  import opened ScanResume
  import opened ScanRuns

  const MAX_BATCH_PAGES := 8192
  const ADAPTIVE_MAX_MS := 30000
  const ADAPTIVE_BACKOFF_MS := 2000
  const SKIP_DECAY_CYCLES := 8
  const MARK_BUDGET_MIN := 4096
  const MARK_BUDGET_MAX := 524288

  // A pass completed: its cycles together have visited all it was after exactly if each
  // of its stops kept.
  ghost predicate Completed(procs: seq<Process>, isSweep: bool, was: Pass, c: Cycle, now: Pass) {
    && (VisitsAll(procs, isSweep, was.cycles + [c]) <==> Kept(procs, was.cycles))
    && now == Pass(now.cursor, [], was.yielded) && !now.cursor.valid
  }

  // A cycle in which the pass at hand ran: what it visited, what that did to budget and
  // counters, why it ended and where, and how it leaves its pass.
  ghost predicate Scanned(procs: seq<Process>, c: Cycle, was: Pass, now: Pass, t0: Tally, t1: Tally,
                          result: nat, budget: nat, left: nat, ticks: nat, ticksLeft: nat)
    requires |t0.skip| == SKIP_LIST_SIZE
  {
    && Picks(c.isSweep, c)
    && Accounted(c.w, c.isSweep, c.walked, t0, t1, result, budget, left)
    && result <= Prompt(c.isSweep, ticks + 1)
    && !c.outcome.HandedOver?
    && (c.outcome.CutShort? ==>
          && Stops(procs, was.cursor, c.stop, c.walked) && (left == 0 || ticksLeft == 0)
          && now == Advanced(was, c))
    && (c.outcome.Complete? ==> c.walked == WalkFrom(procs, was.cursor) && Completed(procs, c.isSweep, was, c, now))
  }

  // The pages between two clock readings, at most.
  function Prompt(isSweep: bool, readings: nat): nat {
    if isSweep then 64 * readings else 256 * readings
  }

  class Scanner {
    const procs: seq<Process>

    // What this round finds.
    var w: World

    var sweeping: bool
    var mark: Cursor
    var sweep: Cursor
    const skipList: array<bool>
    var markBudget: nat
    var intervalMs: nat
    var currentInterval: nat

    // Locals of the scanner thread.
    var emptyCycles: nat
    var threadInterval: nat

    var pagesScanned: nat
    var pagesIdle: nat
    var pagesCompressed: nat
    var pagesSkipped: nat
    var skipIncompressible: nat
    var markPages: nat
    var markYielded: nat
    var sweepYielded: nat
    var cyclesTotal: nat
    var cyclesEmpty: nat

    // Clock readings left in this cycle.
    var ticks: nat

    // Every page marked, compressed, tried or found on the skip list, in order.
    ghost var log: seq<Page>

    // Every page compressed, in order.
    ghost var packed: seq<Page>

    // The cycles of the unfinished mark pass and of the unfinished sweep pass.
    ghost var markCycles: seq<Cycle>
    ghost var sweepCycles: seq<Cycle>

    ghost predicate Settings()
      reads this`markBudget, this`emptyCycles, this`intervalMs, this`currentInterval, this`threadInterval
    {
      && MARK_BUDGET_MIN <= markBudget <= MARK_BUDGET_MAX
      && emptyCycles < SKIP_DECAY_CYCLES
      && 100 <= intervalMs <= 60000 && 100 <= currentInterval <= 60000 && 100 <= threadInterval <= 60000
    }

    ghost predicate Valid()
      reads this
    {
      && ValidProcs(procs)
      && skipList.Length == SKIP_LIST_SIZE
      && Settings()
      && pagesIdle == pagesScanned
      && Position(procs, false, PassOf(false)) && Position(procs, true, PassOf(true))
    }

    ghost function PassOf(isSweep: bool): Pass
      reads this`mark, this`sweep, this`markYielded, this`sweepYielded, this`markCycles, this`sweepCycles
    {
      if isSweep then Pass(sweep, sweepCycles, sweepYielded) else Pass(mark, markCycles, markYielded)
    }

    ghost function TallyNow(): (t: Tally)
      reads this`pagesScanned, this`pagesIdle, this`pagesCompressed, this`pagesSkipped, this`skipIncompressible
      reads this`log, this`packed, skipList
    {
      Tally(skipList[..], pagesScanned, pagesIdle, pagesCompressed, pagesSkipped, skipIncompressible, log,
            packed)
    }

    constructor (procs: seq<Process>, w: World)
      requires ValidProcs(procs)
      ensures Valid() && fresh(skipList) && this.procs == procs
      ensures !sweeping && mark == START && sweep == START && log == [] && packed == []
      ensures markBudget == 65536 && intervalMs == 1000
      ensures forall i | 0 <= i < skipList.Length :: !skipList[i]
    {
      this.procs, this.w := procs, w;
      sweeping, mark, sweep := false, START, START;
      skipList := new bool[SKIP_LIST_SIZE](_ => false);
      markBudget, intervalMs, currentInterval, threadInterval, emptyCycles := 65536, 1000, 1000, 1000, 0;
      pagesScanned, pagesIdle, pagesCompressed, pagesSkipped, skipIncompressible := 0, 0, 0, 0, 0;
      markPages, markYielded, sweepYielded, cyclesTotal, cyclesEmpty, ticks := 0, 0, 0, 0, 0, 0;
      log, packed, markCycles, sweepCycles := [], [], [], [];
      new;
      NewPosition(procs, false, START, 0);
      NewPosition(procs, true, START, 0);
    }

    // minimem_scanner_set_enabled: enabling starts both passes over.
    method SetEnabled(val: bool)
      requires Valid()
      modifies this, skipList
      ensures Valid()
      ensures val ==> !sweeping && !mark.valid && !sweep.valid && forall i | 0 <= i < skipList.Length :: !skipList[i]
      ensures val ==> forall p :: PassOf(p).cycles == []
      ensures !val ==>
                PassOf(false) == old(PassOf(false)) && PassOf(true) == old(PassOf(true)) && sweeping == old(sweeping)
      ensures !val ==> skipList[..] == old(skipList[..])
      ensures log == old(log)
    {
      hide Position, ValidProcs, Settings;
      if val {
        sweeping := false;
        Decay();
        mark, sweep := mark.(valid := false), sweep.(valid := false);
        markCycles, sweepCycles := [], [];
        NewPosition(procs, false, mark, markYielded);
        NewPosition(procs, true, sweep, sweepYielded);
      }
    }

    method SetMarkBudgetPages(pages: int)
      requires Valid()
      modifies this`markBudget
      ensures Valid()
      ensures markBudget == if pages < 4096 then 4096 else if pages > 524288 then 524288 else pages
    {
      hide Position, ValidProcs;
      var p := pages;
      if p < MARK_BUDGET_MIN { p := MARK_BUDGET_MIN; }
      if p > MARK_BUDGET_MAX { p := MARK_BUDGET_MAX; }
      markBudget := p;
    }

    method SetIntervalMs(ms: int)
      requires Valid()
      modifies this`intervalMs, this`currentInterval
      ensures Valid()
      ensures intervalMs == currentInterval == if ms < 100 then 100 else if ms > 60000 then 60000 else ms
    {
      hide Position, ValidProcs;
      var m := ms;
      if m < 100 { m := 100; }
      if m > 60000 { m := 60000; }
      intervalMs, currentInterval := m, m;
    }

    // skip_list_decay
    method Decay()
      requires skipList.Length == SKIP_LIST_SIZE
      modifies skipList
      ensures forall i | 0 <= i < skipList.Length :: !skipList[i]
    {
      for i := 0 to skipList.Length
        invariant forall k | 0 <= k < i :: !skipList[k]
      {
        skipList[i] := false;
      }
    }

    // cpu_budget_expired
    method CpuBudgetExpired() returns (expired: bool)
      modifies this`ticks
      ensures expired <==> old(ticks) == 0
      ensures ticks == if old(ticks) == 0 then 0 else old(ticks) - 1
    {
      expired := ticks == 0;
      if !expired { ticks := ticks - 1; }
    }

    // ---- One area ----

    // Mark the markable pages from startAddr on, until the area ends, the page budget is
    // used up, or one of the clock readings taken every 256 pages finds no time left.
    method MarkVma(pid: int, v: Vma, startAddr: nat, pagesRemaining: nat)
      returns (examined: nat, remaining: nat, endAddr: nat)
      modifies this`ticks, this`log
      ensures Max(startAddr, v.start) <= endAddr <= Max(Max(startAddr, v.start), v.end)
      ensures log == old(log) + Select(w, false, Walk(pid, Max(startAddr, v.start), endAddr))
      ensures examined == |log| - |old(log)| && examined + remaining == pagesRemaining
      ensures endAddr < v.end ==> remaining == 0 || ticks == 0
      ensures pagesRemaining > 0 && startAddr < v.end && v.start < v.end ==> endAddr > Max(startAddr, v.start)
      ensures ticks <= old(ticks) && examined <= 256 * (old(ticks) - ticks + 1)
    {
      hide Walk, Wanted, Select;
      var start := Max(startAddr, v.start);
      var addr := start;
      examined, remaining := 0, pagesRemaining;
      SelectNone(pid, start);
      while addr < v.end
        invariant start <= addr <= Max(start, v.end)
        invariant log == old(log) + Select(w, false, Walk(pid, start, addr))
        invariant examined == |log| - |old(log)| && examined + remaining == pagesRemaining
        invariant addr == start ==> examined == 0
        invariant ticks <= old(ticks) && examined <= 256 * (old(ticks) - ticks + 1)
      {
        if remaining == 0 { break; }
        if examined % 256 == 0 && examined > 0 {
          var expired := CpuBudgetExpired();
          if expired { break; }
        }
        SelectOne(w, false, pid, start, addr);
        if Wanted(w, false, Page(pid, addr)) {
          log := log + [Page(pid, addr)];
          examined := examined + 1;
          remaining := remaining - 1;
        }
        addr := addr + 1;
      }
      endAddr := addr;
    }

    lemma SelectNone(pid: int, start: nat)
      ensures Select(w, false, Walk(pid, start, start)) == [] && Select(w, true, Walk(pid, start, start)) == []
    {
      assert Walk(pid, start, start) == [];
    }

    // One cold page: skipped if the skip list says so, otherwise compressed and its entry
    // replaced, or put on the skip list.
    method SweepPage(page: Page) returns (hit: bool, ok: bool)
      requires skipList.Length == SKIP_LIST_SIZE
      modifies this`skipIncompressible, this`log, this`packed, skipList
      ensures hit == old(skipList[SkipIndex(page)]) && ok == (!hit && w.compresses(page))
      ensures log == old(log) + [page] && packed == old(packed) + if ok then [page] else []
      ensures skipIncompressible == old(skipIncompressible) + if hit then 1 else 0
      ensures skipList[..] == if hit || ok then old(skipList[..]) else old(skipList[..])[SkipIndex(page) := true]
    {
      hide SkipIndex;
      log := log + [page];
      hit, ok := skipList[SkipIndex(page)], false;
      if hit {
        skipIncompressible := skipIncompressible + 1;
      } else if w.compresses(page) {
        ok := true;
        packed := packed + [page];
      } else {
        skipList[SkipIndex(page)] := true;
      }
    }

    // Sweep the cold pages from start on: a skip-list hit costs a unit of the batch, any
    // other page is compressed and its entry replaced, or put on the skip list.  The
    // counters are kept aside until the area is done.
    method SweepPages(pid: int, end: nat, start: nat, totalBatch: nat)
      returns (scanned: nat, compressed: nat, skipped: nat, batch: nat, addr: nat, ghost cold: seq<Page>)
      requires skipList.Length == SKIP_LIST_SIZE
      modifies this`ticks, this`skipIncompressible, this`log, this`packed, skipList
      ensures start <= addr <= Max(start, end) && cold == Select(w, true, Walk(pid, start, addr))
      ensures Tally(skipList[..], pagesScanned + scanned, pagesIdle + scanned, pagesCompressed + compressed,
                    pagesSkipped + skipped, skipIncompressible, log, packed)
              == SweepAll(w, old(TallyNow()), cold)
      ensures |cold| + batch == totalBatch && (addr < end ==> batch == 0 || ticks == 0)
      ensures totalBatch > 0 && start < end ==> addr > start
      ensures ticks <= old(ticks) && scanned <= 64 * (old(ticks) - ticks + 1)
    {
      hide Walk, Wanted, Select, SkipIndex, SweepAll, SweepOne;
      var pagesSinceYield := 0;
      scanned, compressed, skipped, batch, addr, cold := 0, 0, 0, totalBatch, start, [];
      ghost var was, now := TallyNow(), TallyNow();
      SelectNone(pid, start);
      SweepNone(w, was);
      while addr < end
        invariant start <= addr <= Max(start, end) && pagesSinceYield == scanned
        invariant cold == Select(w, true, Walk(pid, start, addr))
        invariant |now.skip| == SKIP_LIST_SIZE && now == SweepAll(w, was, cold)
        invariant now.skip == skipList[..] && now.hits == skipIncompressible && now.log == log && now.packed == packed
        invariant now.scanned == pagesScanned + scanned && now.idle == pagesIdle + scanned
        invariant now.compressed == pagesCompressed + compressed && now.skipped == pagesSkipped + skipped
        invariant |cold| + batch == totalBatch
        invariant addr == start ==> scanned == 0 && batch == totalBatch
        invariant ticks <= old(ticks) && scanned <= 64 * (old(ticks) - ticks + 1)
      {
        if batch == 0 { break; }
        if pagesSinceYield > 0 && pagesSinceYield % 64 == 0 {
          var expired := CpuBudgetExpired();
          if expired { break; }
        }
        var page := Page(pid, addr);
        SelectOne(w, true, pid, start, addr);
        if Wanted(w, true, page) {
          SweepLast(w, was, cold, page);
          var hit, ok := SweepPage(page);
          SweepOneIs(w, now, page, hit, ok);
          now, cold := SweepOne(w, now, page), cold + [page];
          if !hit {
            scanned := scanned + 1;
            pagesSinceYield := pagesSinceYield + 1;
          }
          if ok { compressed := compressed + 1; } else { skipped := skipped + 1; }
          batch := batch - 1;
        }
        addr := addr + 1;
      }
    }

    method SweepVma(pid: int, v: Vma, startAddr: nat, totalBatch: nat)
      returns (scanned: nat, batch: nat, endAddr: nat)
      requires skipList.Length == SKIP_LIST_SIZE
      modifies this`ticks, this`pagesScanned, this`pagesIdle, this`pagesCompressed, this`pagesSkipped
      modifies this`skipIncompressible, this`log, this`packed
      modifies skipList
      ensures Max(startAddr, v.start) <= endAddr <= Max(Max(startAddr, v.start), v.end)
      ensures TallyNow() == SweepAll(w, old(TallyNow()), Select(w, true, Walk(pid, Max(startAddr, v.start), endAddr)))
      ensures SweptTo(w, old(TallyNow()), Select(w, true, Walk(pid, Max(startAddr, v.start), endAddr)), TallyNow())
      ensures pagesScanned - old(pagesScanned) == scanned
      ensures |Select(w, true, Walk(pid, Max(startAddr, v.start), endAddr))| + batch == totalBatch
      ensures scanned + (skipIncompressible - old(skipIncompressible)) + batch == totalBatch
      ensures endAddr < v.end ==> batch == 0 || ticks == 0
      ensures totalBatch > 0 && startAddr < v.end && v.start < v.end ==> endAddr > Max(startAddr, v.start)
      ensures ticks <= old(ticks) && scanned <= 64 * (old(ticks) - ticks + 1)
    {
      hide Walk, Select, SweepAll, SweptTo;
      ghost var was := TallyNow();
      var compressed, skipped;
      ghost var cold;
      scanned, compressed, skipped, batch, endAddr, cold :=
        SweepPages(pid, v.end, Max(startAddr, v.start), totalBatch);
      SweepCounts(w, was, cold);
      SweepIs(w, was, cold);
      pagesScanned := pagesScanned + scanned;
      pagesIdle := pagesIdle + scanned;
      pagesCompressed := pagesCompressed + compressed;
      pagesSkipped := pagesSkipped + skipped;
    }

    // ---- One process ----

    // One area in one of the two passes.
    method ScanVma(isSweep: bool, pid: int, v: Vma, start: nat, budget: nat)
      returns (count: nat, left: nat, endAddr: nat)
      requires v.start <= start < v.end && skipList.Length == SKIP_LIST_SIZE
      modifies this`ticks, this`pagesScanned, this`pagesIdle, this`pagesCompressed, this`pagesSkipped
      modifies this`skipIncompressible, this`log, this`packed
      modifies skipList
      ensures start <= endAddr <= v.end
      ensures Accounted(w, isSweep, Walk(pid, start, endAddr), old(TallyNow()), TallyNow(), count, budget, left)
      ensures endAddr < v.end ==> left == 0 || ticks == 0
      ensures budget > 0 ==> endAddr > start
      ensures ticks <= old(ticks) && count <= Prompt(isSweep, old(ticks) - ticks + 1)
    {
      hide Walk, Select, SweepAll;
      ghost var was := TallyNow();
      if isSweep {
        count, left, endAddr := SweepVma(pid, v, start, budget);
        SweepCounts(w, was, Select(w, true, Walk(pid, start, endAddr)));
      } else {
        count, left, endAddr := MarkVma(pid, v, start, budget);
      }
    }

    // One area, and the look at budget and clock behind it.
    method ScanArea(isSweep: bool, pid: int, v: Vma, start: nat, budget: nat)
      returns (count: nat, left: nat, endAddr: nat, expired: bool)
      requires v.start <= start < v.end && skipList.Length == SKIP_LIST_SIZE && budget > 0
      modifies this`ticks, this`pagesScanned, this`pagesIdle, this`pagesCompressed, this`pagesSkipped
      modifies this`skipIncompressible, this`log, this`packed
      modifies skipList
      ensures start < endAddr <= v.end
      ensures Accounted(w, isSweep, Walk(pid, start, endAddr), old(TallyNow()), TallyNow(), count, budget, left)
      ensures expired ==> left == 0 || ticks == 0
      ensures !expired ==> left > 0 && endAddr == v.end
      ensures ticks <= old(ticks) && count <= Prompt(isSweep, old(ticks) - ticks + if expired then 1 else 0)
    {
      hide Walk, Select, SweepAll, Accounted;
      count, left, endAddr := ScanVma(isSweep, pid, v, start, budget);
      expired := left == 0;
      if !expired { expired := CpuBudgetExpired(); }
    }

    // VMA_ITERATOR: the first area that ends behind an address
    method FindVma(vmas: seq<Vma>, addr: nat) returns (j: nat)
      ensures j <= |vmas| && (forall k | 0 <= k < j :: vmas[k].end <= addr)
      ensures j < |vmas| ==> addr < vmas[j].end
    {
      j := 0;
      while j < |vmas| && vmas[j].end <= addr
        invariant j <= |vmas| && forall k | 0 <= k < j :: vmas[k].end <= addr
      {
        j := j + 1;
      }
    }

    // The areas of one process, from the cursor on.  A budget found used up after an
    // area saves the position and ends the cycle.
    method ScanMm(isSweep: bool, pid: int, vmas: seq<Vma>, c0: Cursor, budget: nat)
      returns (c: Cursor, count: nat, left: nat, exhausted: bool, ghost walked: seq<Page>)
      requires SortedVmas(vmas) && skipList.Length == SKIP_LIST_SIZE && budget > 0
      modifies this`ticks, this`pagesScanned, this`pagesIdle, this`pagesCompressed, this`pagesSkipped
      modifies this`skipIncompressible, this`log, this`packed
      modifies skipList
      ensures Accounted(w, isSweep, walked, old(TallyNow()), TallyNow(), count, budget, left)
      ensures !exhausted ==> walked == MmWalk(pid, vmas, StartOf(c0, pid)) && left > 0
      ensures !exhausted ==> c == c0 || (c0.valid && c0.pid == pid && c == c0.(addr := 0))
      ensures !exhausted && c0.valid && c0.pid == pid && |walked| > 0 ==> c.addr == 0
      ensures exhausted ==>
                c.valid && c.pid == pid && walked + MmWalk(pid, vmas, c.addr) == MmWalk(pid, vmas, StartOf(c0, pid))
      ensures exhausted ==> (left == 0 || ticks == 0) && c.addr > StartOf(c0, pid)
      ensures exhausted ==> |walked| > 0 && walked[|walked| - 1] == Page(pid, c.addr - 1)
      ensures ticks <= old(ticks)
      ensures count <= Prompt(isSweep, old(ticks) - ticks + if exhausted then 1 else 0)
    {
      hide Walk, Select, SweepAll, MmWalk, Scannable, Accounted, SortedVmas;
      ghost var from := StartOf(c0, pid);
      ghost var was := TallyNow();
      var j := FindVma(vmas, StartOf(c0, pid));
      c, count, left, exhausted, walked := c0, 0, budget, false, [];
      MmSkip(pid, vmas, from, j);
      AccountedNothing(w, isSweep, was, budget);
      while j < |vmas|
        invariant j <= |vmas| && !exhausted && left > 0 && skipList.Length == SKIP_LIST_SIZE
        invariant walked + MmWalk(pid, vmas[j..], from) == MmWalk(pid, vmas, from)
        invariant j < |vmas| ==> from < vmas[j].end
        invariant c == c0 || (c0.valid && c0.pid == pid && c == c0.(addr := 0)
                  && (j < |vmas| ==> from <= vmas[j].start))
        invariant c0.valid && c0.pid == pid && |walked| > 0 ==> c.addr == 0
        invariant Accounted(w, isSweep, walked, was, TallyNow(), count, budget, left)
        invariant ticks <= old(ticks) && count <= Prompt(isSweep, old(ticks) - ticks)
      {
        var v := vmas[j];
        NextArea(vmas, j, from);
        if !Scannable(v) {
          SkipVma(pid, vmas, j, from, walked);
          j := j + 1;
          continue;
        }
        AreaStarts(vmas, j);
        var start := v.start;
        if c.valid && pid == c.pid && v.start <= c.addr < v.end { start := c.addr; }
        assert start == Max(from, v.start);
        ghost var mid, between, soFar := TallyNow(), left, walked;
        var n, endAddr, expired;
        n, left, endAddr, expired := ScanArea(isSweep, pid, v, start, left);
        walked := soFar + Walk(pid, start, endAddr);
        AccountedThen(w, isSweep, soFar, Walk(pid, start, endAddr), was, mid, TallyNow(), count, n, budget, between,
            left);
        count := count + n;
        AreaWalked(pid, vmas, j, from, endAddr, soFar);
        if expired {
          exhausted := true;
          c := Cursor(pid, endAddr, true);
          break;
        }
        if c.valid && pid == c.pid { c := c.(addr := 0); }
        j := j + 1;
      }
      MmEnd(pid, vmas, from);
    }
  
    // ---- One cycle ----

    // The process list, from the cursor on.
    method ScanProcs(isSweep: bool, c0: Cursor, budget: nat)
      returns (c: Cursor, count: nat, left: nat, exhausted: bool, ghost walked: seq<Page>)
      requires ValidProcs(procs) && skipList.Length == SKIP_LIST_SIZE && budget > 0
      modifies this`ticks, this`pagesScanned, this`pagesIdle, this`pagesCompressed, this`pagesSkipped
      modifies this`skipIncompressible, this`log, this`packed
      modifies skipList
      ensures Accounted(w, isSweep, walked, old(TallyNow()), TallyNow(), count, budget, left)
      ensures !exhausted ==> walked == WalkFrom(procs, c0)
      ensures exhausted ==> Stops(procs, c0, c, walked) && (left == 0 || ticks == 0)
      ensures ticks <= old(ticks)
      ensures count <= Prompt(isSweep, old(ticks) - ticks + if exhausted then 1 else 0)
    {
      hide WalkFrom, MmWalk, Accounted, SortedVmas, StopsAt;
      c, count, left, exhausted, walked := c0, 0, budget, false, [];
      ghost var was := TallyNow();
      AccountedNothing(w, isSweep, was, budget);
      assert procs[0..] == procs;
      for i := 0 to |procs|
        invariant !exhausted && left > 0 && skipList.Length == SKIP_LIST_SIZE
        invariant walked + WalkFrom(procs[i..], c0) == WalkFrom(procs, c0)
        invariant c == c0 || (c0.valid && c == c0.(addr := 0) && forall k | i <= k < |procs| :: c0.pid != procs[k].pid)
        invariant Accounted(w, isSweep, walked, was, TallyNow(), count, budget, left)
        invariant ticks <= old(ticks) && count <= Prompt(isSweep, old(ticks) - ticks)
      {
        var p := procs[i];
        if Passed(c, p.pid) || p.mm.None? {
          SkipProc(procs, i, c0, walked);
          continue;
        }
        ghost var mid, between, soFar := TallyNow(), left, walked;
        var n;
        ghost var piece;
        c, n, left, exhausted, piece := ScanMm(isSweep, p.pid, p.mm.value, c, left);
        walked := soFar + piece;
        AccountedThen(w, isSweep, soFar, piece, was, mid, TallyNow(), count, n, budget, between, left);
        count := count + n;
        if exhausted {
          ProcStopped(procs, i, c0, c, soFar, piece);
          break;
        }
        ProcWalked(procs, i, c0, soFar, piece);
      }
      if !exhausted { ProcsEnd(procs, c0); }
    }

    // The end of a cycle: a cycle cut short keeps its position for the next one, a
    // completed pass forgets it and hands over to the other pass.
    method Finish(isSweep: bool, c: Cursor, exhausted: bool, ghost cycle: Cycle)
      requires ValidProcs(procs) && Position(procs, false, PassOf(false)) && Position(procs, true, PassOf(true))
      requires sweeping == isSweep && Picks(isSweep, cycle) && cycle.stop == c
      requires exhausted ==> Stops(procs, PassOf(isSweep).cursor, c, cycle.walked)
      requires !exhausted ==> cycle.walked == WalkFrom(procs, PassOf(isSweep).cursor)
      modifies this`sweeping, this`mark, this`sweep, this`markYielded, this`sweepYielded
      modifies this`markCycles, this`sweepCycles
      ensures Position(procs, false, PassOf(false)) && Position(procs, true, PassOf(true))
      ensures sweeping == if exhausted then isSweep else !isSweep
      ensures PassOf(!isSweep) == old(PassOf(!isSweep))
      ensures exhausted ==> PassOf(isSweep) == Advanced(old(PassOf(isSweep)), cycle)
      ensures !exhausted ==> Completed(procs, isSweep, old(PassOf(isSweep)), cycle, PassOf(isSweep))
    {
      hide WalkFrom, Picks, VisitsAll, Kept, Stops, ValidProcs, Position;
      ghost var was := PassOf(isSweep);
      if exhausted {
        Cut(procs, isSweep, was, cycle);
        if isSweep {
          sweep := c;
          sweepYielded := sweepYielded + 1;
          sweepCycles := sweepCycles + [cycle];
        } else {
          mark := c;
          markYielded := markYielded + 1;
          markCycles := markCycles + [cycle];
        }
      } else {
        Ended(procs, isSweep, was, cycle);
        NewPosition(procs, isSweep, c.(valid := false), was.yielded);
        if isSweep {
          sweep := c.(valid := false);
          sweepCycles := [];
        } else {
          mark := c.(valid := false);
          markCycles := [];
        }
        sweeping := !isSweep;
      }
    }

    // A cycle of a pass spends a budget on what it walks.  It is cut short only by that
    // budget or the clock, and then it has advanced; otherwise the pass is complete.
    method RunPass(isSweep: bool, budget: nat, ticks0: nat) returns (result: nat, ghost cycle: Cycle, ghost left: nat)
      requires Valid() && sweeping == isSweep && budget > 0
      modifies this`sweeping, this`mark, this`sweep, this`markYielded, this`sweepYielded
      modifies this`markCycles, this`sweepCycles
      modifies this`ticks, this`pagesScanned, this`pagesIdle, this`pagesCompressed, this`pagesSkipped
      modifies this`skipIncompressible, this`log, this`packed
      modifies skipList
      ensures Valid() && cycle.isSweep == isSweep && cycle.w == w && sweeping == NextPhase(cycle)
      ensures log == old(log) + cycle.visited && PassOf(!isSweep) == old(PassOf(!isSweep))
      ensures Scanned(procs, cycle, old(PassOf(isSweep)), PassOf(isSweep), old(TallyNow()), TallyNow(),
                      result, budget, left, ticks0, ticks)
    {
      hide WalkFrom, Accounted, ValidProcs, Select, Stops, Completed, Position, Settings;
      ticks := ticks0;
      var cursor := if isSweep then sweep else mark;
      ghost var was := TallyNow();
      var c, exhausted;
      ghost var walked;
      c, result, left, exhausted, walked := ScanProcs(isSweep, cursor, budget);
      AccountedIdle(w, isSweep, walked, was, TallyNow(), result, budget, left);
      AccountedLog(w, isSweep, walked, was, TallyNow(), result, budget, left);
      cycle := Cycle(isSweep, w, walked, Select(w, isSweep, walked), if exhausted then CutShort else Complete, c);
      Finish(isSweep, c, exhausted, cycle);
    }

    ghost function Passes(): Unfinished
      reads this`markCycles, this`sweepCycles
    {
      Unfinished(markCycles, sweepCycles)
    }

    lemma CyclesBounded()
      requires Valid()
      ensures forall p :: |Of(Passes(), p)| <= |Everything(procs)|
    {
      hide WalkFrom, ValidProcs, Everything, Spoiled, Kept;
    }

    // minimem_scan_batch_vma: one cycle of the pass at hand.  A sweep that the kernel
    // cannot handle markers for gives way to the mark pass and keeps its position.
    method ScanBatchVma(luck: CycleLuck) returns (result: nat, ghost cycle: Cycle, ghost left: nat)
      requires Valid()
      modifies this`w, this`sweeping, this`mark, this`sweep, this`markYielded, this`sweepYielded, this`markPages
      modifies this`markCycles, this`sweepCycles
      modifies this`ticks, this`pagesScanned, this`pagesIdle, this`pagesCompressed, this`pagesSkipped
      modifies this`skipIncompressible, this`log, this`packed
      modifies skipList
      ensures Valid() && cycle.isSweep == old(sweeping) && cycle.w == w == luck.w && sweeping == NextPhase(cycle)
      ensures cycle.outcome.HandedOver? <==> old(sweeping) && !luck.markerReady
      ensures log == old(log) + cycle.visited && Picks(cycle.isSweep, cycle)
      ensures match cycle.outcome
              case CutShort => sweeping == old(sweeping)
              case Complete => sweeping == !old(sweeping)
              case HandedOver => !sweeping
      ensures PassOf(!old(sweeping)) == old(PassOf(!sweeping))
      ensures markPages == if cycle.isSweep then old(markPages) else result
      ensures cycle.outcome.HandedOver? ==>
                && result == 0 && cycle.walked == [] && TallyNow() == old(TallyNow())
                && PassOf(old(sweeping)) == old(PassOf(sweeping))
      ensures !cycle.outcome.HandedOver? ==>
                Scanned(procs, cycle, old(PassOf(sweeping)), PassOf(old(sweeping)), old(TallyNow()), TallyNow(), result,
                        if cycle.isSweep then 8192 else markBudget, left, luck.ticks, ticks)
    {
      hide Accounted, ValidProcs, Select, Position, Scanned;
      w := luck.w;
      var isSweep := sweeping;
      if isSweep && !luck.markerReady {
        sweeping := false;
        SelectNothing(w, true);
        return 0, Cycle(true, w, [], [], HandedOver, sweep), 0;
      }
      result, cycle, left := RunPass(isSweep, if isSweep then MAX_BATCH_PAGES else markBudget, luck.ticks);
      ScannedOutcome(procs, cycle, old(PassOf(isSweep)), PassOf(isSweep), old(TallyNow()), TallyNow(), result,
                     if isSweep then MAX_BATCH_PAGES else markBudget, left, luck.ticks, ticks);
      if !isSweep { markPages := result; }
    }

    // After a cycle: empty ones age the skip list and stretch the interval.
    method Adapt(result: nat)
      requires skipList.Length == SKIP_LIST_SIZE && Settings()
      modifies this`emptyCycles, this`cyclesEmpty, this`threadInterval, this`currentInterval, skipList
      ensures cyclesEmpty == old(cyclesEmpty) + if result == 0 then 1 else 0
      ensures result > 0 ==> emptyCycles == 0 && threadInterval == intervalMs && skipList[..] == old(skipList[..])
      ensures result == 0 ==>
                && emptyCycles == (old(emptyCycles) + 1) % 8
                && threadInterval == if old(threadInterval) + 2000 < 30000 then old(threadInterval) + 2000 else 30000
      ensures result == 0 && emptyCycles > 0 ==> skipList[..] == old(skipList[..])
      ensures result == 0 && emptyCycles == 0 ==> forall i | 0 <= i < skipList.Length :: !skipList[i]
      ensures Settings() && currentInterval == threadInterval
    {
      if result == 0 {
        emptyCycles := emptyCycles + 1;
        cyclesEmpty := cyclesEmpty + 1;
        if emptyCycles >= SKIP_DECAY_CYCLES {
          Decay();
          emptyCycles := 0;
        }
      } else {
        emptyCycles := 0;
      }
      if result == 0 {
        threadInterval := if threadInterval + ADAPTIVE_BACKOFF_MS < ADAPTIVE_MAX_MS
        then threadInterval + ADAPTIVE_BACKOFF_MS else ADAPTIVE_MAX_MS;
      } else {
        threadInterval := intervalMs;
      }
      currentInterval := threadInterval;
    }

    // One round of scanner_thread: a cycle, then what its result means for the skip list
    // and the interval.  `tally` is what the cycle left before the skip list aged.
    method ScanCycle(luck: CycleLuck) returns (result: nat, ghost cycle: Cycle, ghost left: nat, ghost tally: Tally)
      requires Valid()
      modifies this, skipList
      ensures Valid() && cyclesTotal == old(cyclesTotal) + 1
      ensures cycle.isSweep == old(sweeping) && cycle.w == luck.w && sweeping == NextPhase(cycle)
      ensures cycle.outcome.HandedOver? <==> old(sweeping) && !luck.markerReady
      ensures log == old(log) + cycle.visited && Picks(cycle.isSweep, cycle)
      ensures match cycle.outcome
              case CutShort => sweeping == old(sweeping)
              case Complete => sweeping == !old(sweeping)
              case HandedOver => !sweeping
      ensures PassOf(!old(sweeping)) == old(PassOf(!sweeping))
      ensures cycle.outcome.HandedOver? ==>
                && result == 0 && cycle.walked == [] && tally == old(TallyNow())
                && PassOf(old(sweeping)) == old(PassOf(sweeping))
      ensures !cycle.outcome.HandedOver? ==>
                Scanned(procs, cycle, old(PassOf(sweeping)), PassOf(old(sweeping)), old(TallyNow()), tally, result,
                        if cycle.isSweep then 8192 else old(markBudget), left, luck.ticks, ticks)
      ensures result == 0 ==> emptyCycles == (old(emptyCycles) + 1) % 8
      ensures result > 0 ==> emptyCycles == 0
      ensures TallyNow() == if result == 0 && emptyCycles == 0 then tally.(skip := NoSkips()) else tally
    {
      hide Accounted, ValidProcs, Picks, Position, Scanned, Settings, NextPhase;
      cyclesTotal := cyclesTotal + 1;
      result, cycle, left := ScanBatchVma(luck);
      tally := TallyNow();
      Adapt(result);
      if result == 0 && emptyCycles == 0 { assert skipList[..] == NoSkips(); }
    }

    // The same round, as a step of a run.
    method Round(luck: CycleLuck) returns (ghost cycle: Cycle)
      requires Valid()
      modifies this, skipList
      ensures Valid() && log == old(log) + cycle.visited && cycle.w == luck.w
      ensures cycle.isSweep == old(sweeping) && sweeping == NextPhase(cycle)
      ensures cycle.outcome.HandedOver? <==> old(sweeping) && !luck.markerReady
      ensures CycleStep(procs, cycle, old(Passes()), Passes())
      ensures forall p :: |Of(Passes(), p)| <= |Everything(procs)|
    {
      hide Everything, ValidProcs, Scanned, Picks, Position, VisitsAll, Kept;
      ghost var isSweep, was, t0, budget := sweeping, PassOf(sweeping), TallyNow(), markBudget;
      var result;
      ghost var left, tally;
      result, cycle, left, tally := ScanCycle(luck);
      if !cycle.outcome.HandedOver? {
        ScannedStep(procs, cycle, was, PassOf(isSweep), t0, tally,
                    result, if isSweep then MAX_BATCH_PAGES else budget, left, luck.ticks, ticks);
      }
      CyclesBounded();
    }

    // scanner_thread, for any number of rounds: the log grows by what its cycles visit,
    // and whatever the clock, the kernel and the page tables do, whenever a pass completes
    // its cycles have visited all it is after, exactly if each of its stops kept; and no
    // pass takes more cycles than there are pages.
    method ScannerThread(lucks: seq<CycleLuck>) returns (ghost trace: seq<Cycle>)
      requires Valid()
      modifies this, skipList
      ensures Valid() && log == old(log) + Visits(trace)
      ensures RunOf(procs, old(sweeping), lucks, old(Passes()), trace)
    {
      hide Everything, ValidProcs, RunOf, CycleStep, Tracks, Position, Visits, NextPhase, Of;
      ghost var start, b := sweeping, Passes();
      trace := [];
      CyclesBounded();
      NoRun(procs, start, b);
      NothingTracked(b);
      assert lucks[..0] == [] && old(log) + [] == old(log);
      for i := 0 to |lucks|
        invariant Valid() && |trace| == i && log == old(log) + Visits(trace)
        invariant sweeping == if i == 0 then start else NextPhase(trace[i - 1])
        invariant Tracks(b, trace, Passes()) && RunOf(procs, start, lucks[..i], b, trace)
      {
        ghost var was := Passes();
        ghost var cycle := Round(lucks[i]);
        CycleOn(procs, start, lucks[..i], b, trace, cycle, lucks[i], was, Passes());
        assert lucks[..i + 1] == lucks[..i] + [lucks[i]];
        assert old(log) + (Visits(trace) + cycle.visited) == old(log) + Visits(trace) + cycle.visited;
        trace := trace + [cycle];
      }
      assert lucks[..|lucks|] == lucks;
    }
  }

  // A cleared skip list.
  function NoSkips(): (s: seq<bool>)
    ensures |s| == SKIP_LIST_SIZE && forall i | 0 <= i < SKIP_LIST_SIZE :: !s[i]
  {
    seq(SKIP_LIST_SIZE, _ => false)
  }

  lemma ScannedOutcome(procs: seq<Process>, c: Cycle, was: Pass, now: Pass, t0: Tally, t1: Tally,
                       result: nat, budget: nat, left: nat, ticks: nat, ticksLeft: nat)
    requires |t0.skip| == SKIP_LIST_SIZE && Scanned(procs, c, was, now, t0, t1, result, budget, left, ticks, ticksLeft)
    ensures !c.outcome.HandedOver? && Picks(c.isSweep, c)
  {
  }

  // What a cycle that ran its pass leaves of it.
  lemma ScannedStep(procs: seq<Process>, c: Cycle, was: Pass, now: Pass, t0: Tally, t1: Tally,
                    result: nat, budget: nat, left: nat, ticks: nat, ticksLeft: nat)
    requires |t0.skip| == SKIP_LIST_SIZE && Scanned(procs, c, was, now, t0, t1, result, budget, left, ticks, ticksLeft)
    ensures now.cycles == if c.outcome.Complete? then [] else was.cycles + [c]
    ensures c.outcome.Complete? ==> (VisitsAll(procs, c.isSweep, was.cycles + [c]) <==> Kept(procs, was.cycles))
  {
    hide Picks, VisitsAll, Kept, Accounted, Stops;
  }

  lemma SkipProc(procs: seq<Process>, i: nat, c: Cursor, soFar: seq<Page>)
    requires i < |procs| && (Passed(c, procs[i].pid) || procs[i].mm.None?)
    ensures soFar + WalkFrom(procs[i..], c) == soFar + WalkFrom(procs[i + 1..], c)
  {
    assert procs[i..][1..] == procs[i + 1..];
  }

  lemma ProcsEnd(procs: seq<Process>, c: Cursor)
    ensures WalkFrom(procs[|procs|..], c) == []
  {
  }

  // Having walked process i.
  lemma ProcWalked(procs: seq<Process>, i: nat, c0: Cursor, soFar: seq<Page>, piece: seq<Page>)
    requires i < |procs| && procs[i].mm.Some? && !Passed(c0, procs[i].pid)
    requires piece == MmWalk(procs[i].pid, procs[i].mm.value, StartOf(c0, procs[i].pid))
    ensures soFar + piece + WalkFrom(procs[i + 1..], c0) == soFar + WalkFrom(procs[i..], c0)
  {
    hide MmWalk;
    assert procs[i..][1..] == procs[i + 1..];
  }

  // Having walked process i up to a cursor inside it.
  lemma ProcStopped(procs: seq<Process>, i: nat, c0: Cursor, c: Cursor, soFar: seq<Page>, piece: seq<Page>)
    requires i < |procs| && procs[i].mm.Some? && !Passed(c0, procs[i].pid)
    requires c.valid && c.pid == procs[i].pid && StartOf(c0, c.pid) < c.addr
    requires |piece| > 0 && piece[|piece| - 1] == Page(c.pid, c.addr - 1)
    requires piece + MmWalk(c.pid, procs[i].mm.value, c.addr) == MmWalk(c.pid, procs[i].mm.value, StartOf(c0, c.pid))
    requires soFar + WalkFrom(procs[i..], c0) == WalkFrom(procs, c0)
    ensures Stops(procs, c0, c, soFar + piece)
  {
    hide MmWalk;
    var rest, more := procs[i + 1..], MmWalk(c.pid, procs[i].mm.value, c.addr);
    assert procs[i..][1..] == rest;
    assert WalkFrom(procs[i..], c0) == piece + more + WalkFrom(rest, c0);
    assert soFar + (piece + more + WalkFrom(rest, c0)) == soFar + piece + (more + WalkFrom(rest, c0));
    assert StopsAt(procs, i, c0, c, soFar + piece);
  }

  lemma SkipVma(pid: int, vmas: seq<Vma>, j: nat, from: nat, soFar: seq<Page>)
    requires j < |vmas| && !Scannable(vmas[j])
    ensures soFar + MmWalk(pid, vmas[j..], from) == soFar + MmWalk(pid, vmas[j + 1..], from)
  {
    MmStep(pid, vmas, j, from);
  }

  lemma MmEnd(pid: int, vmas: seq<Vma>, from: nat)
    ensures MmWalk(pid, vmas[|vmas|..], from) == []
  {
  }

  // Having walked area j up to endAddr, what is left is what a cursor at endAddr
  // leaves; and if that is the whole area, it is the areas behind it.
  lemma AreaWalked(pid: int, vmas: seq<Vma>, j: nat, from: nat, endAddr: nat, soFar: seq<Page>)
    requires SortedVmas(vmas) && j < |vmas| && Scannable(vmas[j]) && from < vmas[j].end
    requires Max(from, vmas[j].start) <= endAddr <= vmas[j].end
    ensures var seen := Walk(pid, Max(from, vmas[j].start), endAddr);
            && soFar + seen + MmWalk(pid, vmas, endAddr) == soFar + MmWalk(pid, vmas[j..], from)
            && (endAddr == vmas[j].end ==>
                  soFar + seen + MmWalk(pid, vmas[j + 1..], from) == soFar + MmWalk(pid, vmas[j..], from))
  {
    hide MmWalk, Walk, Scannable, VmaWalk;
    var seen := Walk(pid, Max(from, vmas[j].start), endAddr);
    MmResume(pid, vmas, j, from, endAddr);
    assert soFar + (seen + MmWalk(pid, vmas, endAddr)) == soFar + seen + MmWalk(pid, vmas, endAddr);
    if endAddr == vmas[j].end {
      MmStep(pid, vmas, j, from);
      WholeVma(pid, vmas[j], from);
      assert soFar + (seen + MmWalk(pid, vmas[j + 1..], from)) == soFar + seen + MmWalk(pid, vmas[j + 1..], from);
    }
  }

  lemma AreaStarts(vmas: seq<Vma>, j: nat)
    requires j < |vmas| && SortedVmas(vmas) && Scannable(vmas[j])
    ensures 0 < vmas[j].start < vmas[j].end
  {
  }

  lemma NextArea(vmas: seq<Vma>, j: nat, from: nat)
    requires j < |vmas| && SortedVmas(vmas) && from < vmas[j].end
    ensures j + 1 < |vmas| ==> from <= vmas[j + 1].start && from < vmas[j + 1].end
  {
  }

  lemma WholeVma(pid: int, v: Vma, from: nat)
    requires Scannable(v) && from < v.end && v.start < v.end
    ensures VmaWalk(pid, v, from) == Walk(pid, Max(from, v.start), v.end)
  {
  }

  lemma SweepNone(w: World, t: Tally)
    requires |t.skip| == SKIP_LIST_SIZE
    ensures SweepAll(w, t, []) == t
  {
  }
}
