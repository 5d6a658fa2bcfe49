/**
  What the page scanner has to walk: the processes, their memory areas, the pages in
  them, and the position of a cursor in that walk.  Addresses count pages.
*/
module ScanSpec {
  import opened Buffers

  const SKIP_LIST_SIZE := 16384

  datatype Page = Page(pid: int, addr: nat)

  datatype Vma = Vma(start: nat, end: nat, anonymous: bool, device: bool, locked: bool, shared: bool)

  // A task without an mm is a kernel thread or is exiting.
  datatype Process = Process(pid: int, mm: Option<seq<Vma>>)

  // What the page tables and page flags say: a table chain down to a small page, a
  // present entry, an ordinary page, anonymous, on the LRU, and so on.
  datatype PageState = PageState(mapped: bool, present: bool, plain: bool, anon: bool, lru: bool,
                                 mlocked: bool, extraRefs: bool, idle: bool, young: bool)

  // What one round of the scanner finds: the state of the pages, and whether compressing
  // a page and replacing its entry will succeed.
  datatype World = World(state: Page -> PageState, compresses: Page -> bool)

  datatype Cursor = Cursor(pid: int, addr: nat, valid: bool)

  ghost predicate SortedVmas(vmas: seq<Vma>) {
    && (forall i | 0 <= i < |vmas| :: vmas[i].start < vmas[i].end)
    && (forall i, j | 0 <= i < j < |vmas| :: vmas[i].end <= vmas[j].start)
  }

  // The processes in the order of the kernel's list, which is that of their creation.
  ghost predicate ValidProcs(procs: seq<Process>) {
    && (forall i, j | 0 <= i < j < |procs| :: procs[i].pid != procs[j].pid)
    && (forall i | 0 <= i < |procs| :: procs[i].mm.Some? ==> SortedVmas(procs[i].mm.value))
  }

  // As long as no process number has been used again, newer processes have larger ones.
  ghost predicate SortedPids(procs: seq<Process>) {
    forall i, j | 0 <= i < j < |procs| :: procs[i].pid < procs[j].pid
  }

  // The areas that are not skipped.
  predicate Scannable(v: Vma) {
    v.anonymous && v.start != 0 && v.end != 0 && !v.device && !v.locked && !v.shared
  }

  predicate Markable(s: PageState) {
    s.mapped && s.present && s.plain && s.anon && s.lru && !s.mlocked && !s.extraRefs
  }

  // The pages that the mark pass marks, and those that the sweep pass finds cold.
  predicate Wanted(w: World, isSweep: bool, p: Page) {
    Markable(w.state(p)) && (isSweep ==> w.state(p).idle && !w.state(p).young)
  }

  function Max(a: nat, b: nat): nat {
    if a < b then b else a
  }

  // ---- The walk ----

  // The pages of an address range.
  function Walk(pid: int, from: nat, to: nat): (s: seq<Page>)
    requires from <= to
    ensures |s| == to - from && forall i | 0 <= i < |s| :: s[i] == Page(pid, from + i)
  {
    seq(to - from, i requires 0 <= i < to - from => Page(pid, from + i))
  }

  function VmaWalk(pid: int, v: Vma, from: nat): seq<Page> {
    if Scannable(v) && Max(from, v.start) < v.end then Walk(pid, Max(from, v.start), v.end) else []
  }

  function MmWalk(pid: int, vmas: seq<Vma>, from: nat): seq<Page> {
    if |vmas| == 0 then [] else VmaWalk(pid, vmas[0], from) + MmWalk(pid, vmas[1..], from)
  }

  // Where a cursor starts inside a process that it does not skip.
  function StartOf(c: Cursor, pid: int): nat {
    if c.valid && pid == c.pid then c.addr else 0
  }

  predicate Passed(c: Cursor, pid: int) {
    c.valid && pid < c.pid
  }

  function ProcWalk(p: Process, c: Cursor): seq<Page> {
    if Passed(c, p.pid) || p.mm.None? then [] else MmWalk(p.pid, p.mm.value, StartOf(c, p.pid))
  }

  // What is left to walk from a cursor on.
  function WalkFrom(procs: seq<Process>, c: Cursor): seq<Page> {
    if |procs| == 0 then [] else ProcWalk(procs[0], c) + WalkFrom(procs[1..], c)
  }

  const START := Cursor(0, 0, false)

  function Everything(procs: seq<Process>): seq<Page> {
    WalkFrom(procs, START)
  }

  // The pages of a walk that a pass is after.
  function Select(w: World, isSweep: bool, pages: seq<Page>): (s: seq<Page>)
    ensures |s| <= |pages|
  {
    if |pages| == 0 then [] else
      Select(w, isSweep, pages[..|pages| - 1]) +
      if Wanted(w, isSweep, pages[|pages| - 1]) then [pages[|pages| - 1]] else []
  }

  lemma {:induction false} SelectConcat(w: World, isSweep: bool, a: seq<Page>, b: seq<Page>)
    ensures Select(w, isSweep, a + b) == Select(w, isSweep, a) + Select(w, isSweep, b)
    decreases |b|
  {
    if |b| == 0 {
      assert a + b == a;
    } else {
      var n := |b| - 1;
      assert (a + b)[..|a + b| - 1] == a + b[..n];
      SelectConcat(w, isSweep, a, b[..n]);
    }
  }

  lemma WalkSplit(pid: int, from: nat, mid: nat, to: nat)
    requires from <= mid <= to
    ensures Walk(pid, from, to) == Walk(pid, from, mid) + Walk(pid, mid, to)
  {
  }

  lemma SelectOne(w: World, isSweep: bool, pid: int, from: nat, to: nat)
    requires from <= to
    ensures var before := Select(w, isSweep, Walk(pid, from, to));
            Select(w, isSweep, Walk(pid, from, to + 1)) ==
            if Wanted(w, isSweep, Page(pid, to)) then before + [Page(pid, to)] else before
  {
    var s := Walk(pid, from, to + 1);
    assert s[..|s| - 1] == Walk(pid, from, to);
  }

  // ---- Moving a cursor ----

  // Areas that end at or before the start contribute nothing.
  lemma {:induction false} MmSkip(pid: int, vmas: seq<Vma>, from: nat, j: nat)
    requires j <= |vmas| && forall k | 0 <= k < j :: vmas[k].end <= from
    ensures MmWalk(pid, vmas, from) == MmWalk(pid, vmas[j..], from)
    decreases j
  {
    if j == 0 {
      assert vmas[0..] == vmas;
    } else {
      assert vmas[1..][j - 1..] == vmas[j..];
      MmSkip(pid, vmas[1..], from, j - 1);
    }
  }

  // Areas that begin at or behind both starting points are walked in full from either.
  lemma {:induction false} MmSame(pid: int, vmas: seq<Vma>, from: nat, other: nat)
    requires forall k | 0 <= k < |vmas| :: from <= vmas[k].start && other <= vmas[k].start
    ensures MmWalk(pid, vmas, from) == MmWalk(pid, vmas, other)
  {
    if |vmas| > 0 { MmSame(pid, vmas[1..], from, other); }
  }

  // A cursor put inside area j leaves exactly the rest of that area and the areas
  // behind it.
  lemma MmResume(pid: int, vmas: seq<Vma>, j: nat, from: nat, at: nat)
    requires SortedVmas(vmas) && j < |vmas| && Scannable(vmas[j])
    requires from < vmas[j].end && Max(from, vmas[j].start) <= at <= vmas[j].end
    ensures Walk(pid, Max(from, vmas[j].start), at) + MmWalk(pid, vmas, at) == MmWalk(pid, vmas[j..], from)
  {
    hide VmaWalk, Walk, Scannable;
    var v, rest := vmas[j], vmas[j + 1..];
    MmSkip(pid, vmas, at, j);
    MmStep(pid, vmas, j, at);
    MmStep(pid, vmas, j, from);
    VmaResume(pid, v, from, at);
    MmSame(pid, rest, from, at);
    var seen := Walk(pid, Max(from, v.start), at);
    assert seen + (VmaWalk(pid, v, at) + MmWalk(pid, rest, at)) == seen + VmaWalk(pid, v, at) + MmWalk(pid, rest, at);
  }

  lemma MmStep(pid: int, vmas: seq<Vma>, j: nat, from: nat)
    requires j < |vmas|
    ensures MmWalk(pid, vmas[j..], from) == VmaWalk(pid, vmas[j], from) + MmWalk(pid, vmas[j + 1..], from)
  {
    assert vmas[j..][1..] == vmas[j + 1..];
  }

  lemma VmaResume(pid: int, v: Vma, from: nat, at: nat)
    requires Scannable(v) && from < v.end && v.start < v.end && Max(from, v.start) <= at <= v.end
    ensures VmaWalk(pid, v, from) == Walk(pid, Max(from, v.start), at) + VmaWalk(pid, v, at)
  {
    WalkSplit(pid, Max(from, v.start), at, v.end);
  }

  // Two cursors from which every process of a list is walked alike.
  lemma {:induction false} ProcsSame(procs: seq<Process>, c: Cursor, d: Cursor)
    requires forall k | 0 <= k < |procs| :: ProcWalk(procs[k], c) == ProcWalk(procs[k], d)
    ensures WalkFrom(procs, c) == WalkFrom(procs, d)
  {
    hide ProcWalk;
    if |procs| > 0 { ProcsSame(procs[1..], c, d); }
  }

  lemma {:induction false} ProcsPassed(procs: seq<Process>, c: Cursor, i: nat)
    requires i <= |procs| && forall k | 0 <= k < i :: ProcWalk(procs[k], c) == []
    ensures WalkFrom(procs, c) == WalkFrom(procs[i..], c)
    decreases i
  {
    hide ProcWalk;
    if i == 0 {
      assert procs[0..] == procs;
    } else {
      assert procs[1..][i - 1..] == procs[i..];
      ProcsPassed(procs[1..], c, i - 1);
    }
  }

  // ---- Every walk meets each of its pages once, in order ----

  predicate Before(p: Page, q: Page) {
    p.pid < q.pid || (p.pid == q.pid && p.addr < q.addr)
  }

  ghost predicate Ascending(s: seq<Page>) {
    forall i, j | 0 <= i < j < |s| :: Before(s[i], s[j])
  }

  lemma AscendingConcat(a: seq<Page>, b: seq<Page>)
    requires Ascending(a) && Ascending(b) && forall p, q | p in a && q in b :: Before(p, q)
    ensures Ascending(a + b)
  {
    forall i, j | 0 <= i < j < |a + b| ensures Before((a + b)[i], (a + b)[j]) {
      if i < |a| && j >= |a| { assert (a + b)[i] in a && (a + b)[j] in b; }
    }
  }

  // A page of a process that lies in one of its scanned areas, at or behind `from`.
  ghost predicate InAreas(p: Page, vmas: seq<Vma>, from: nat) {
    exists j | 0 <= j < |vmas| :: Scannable(vmas[j]) && vmas[j].start <= p.addr < vmas[j].end && from <= p.addr
  }

  lemma VmaWalkIs(pid: int, v: Vma, from: nat, p: Page)
    ensures p in VmaWalk(pid, v, from) <==>
            p.pid == pid && Scannable(v) && v.start <= p.addr < v.end && from <= p.addr
  {
    if p.pid == pid && Scannable(v) && v.start <= p.addr < v.end && from <= p.addr {
      assert Walk(pid, Max(from, v.start), v.end)[p.addr - Max(from, v.start)] == p;
    }
  }

  lemma {:induction false} MmWalkIs(pid: int, vmas: seq<Vma>, from: nat)
    requires SortedVmas(vmas)
    ensures Ascending(MmWalk(pid, vmas, from))
    ensures forall p :: p in MmWalk(pid, vmas, from) <==> p.pid == pid && InAreas(p, vmas, from)
  {
    hide VmaWalk, Scannable;
    if |vmas| > 0 {
      var rest := vmas[1..];
      MmWalkIs(pid, rest, from);
      forall p ensures p in VmaWalk(pid, vmas[0], from) <==>
                       p.pid == pid && Scannable(vmas[0]) && vmas[0].start <= p.addr < vmas[0].end && from <= p.addr
      {
        VmaWalkIs(pid, vmas[0], from, p);
      }
      forall p ensures InAreas(p, vmas, from) <==>
                       InAreas(p, rest, from) || (Scannable(vmas[0]) && vmas[0].start <= p.addr < vmas[0].end
                           && from <= p.addr)
      {
        AreasHead(p, vmas, from);
      }
      VmaAscending(pid, vmas[0], from);
      AscendingConcat(VmaWalk(pid, vmas[0], from), MmWalk(pid, rest, from));
    }
  }

  lemma AreasHead(p: Page, vmas: seq<Vma>, from: nat)
    requires |vmas| > 0
    ensures InAreas(p, vmas, from) <==>
            InAreas(p, vmas[1..], from) || (Scannable(vmas[0]) && vmas[0].start <= p.addr < vmas[0].end
                && from <= p.addr)
  {
    hide Scannable;
    if InAreas(p, vmas[1..], from) {
      var j :| 0 <= j < |vmas[1..]| && Scannable(vmas[1..][j]) && vmas[1..][j].start <= p.addr < vmas[1..][j].end;
      assert vmas[j + 1] == vmas[1..][j];
    }
    if InAreas(p, vmas, from) {
      var j :| 0 <= j < |vmas| && Scannable(vmas[j]) && vmas[j].start <= p.addr < vmas[j].end;
      if j > 0 { assert vmas[1..][j - 1] == vmas[j]; }
    }
  }

  lemma VmaAscending(pid: int, v: Vma, from: nat)
    ensures Ascending(VmaWalk(pid, v, from))
  {
  }

  ghost predicate InProcs(p: Page, procs: seq<Process>) {
    exists i | 0 <= i < |procs| :: procs[i].pid == p.pid && procs[i].mm.Some? && InAreas(p, procs[i].mm.value, 0)
  }

  // At or behind a cursor, by process number and address.
  predicate Ahead(c: Cursor, p: Page) {
    !c.valid || p.pid > c.pid || (p.pid == c.pid && p.addr >= c.addr)
  }

  // Before in the process list or, in one process, at a lower address.
  ghost predicate Precedes(procs: seq<Process>, p: Page, q: Page) {
    || (p.pid == q.pid && p.addr < q.addr)
    || exists a, b | 0 <= a < b < |procs| :: procs[a].pid == p.pid && procs[b].pid == q.pid
  }

  ghost predicate Ordered(procs: seq<Process>, s: seq<Page>) {
    forall i, j | 0 <= i < j < |s| :: Precedes(procs, s[i], s[j])
  }

  lemma OrderedConcat(procs: seq<Process>, a: seq<Page>, b: seq<Page>)
    ensures Ordered(procs, a + b) <==>
            Ordered(procs, a) && Ordered(procs, b) && forall p, q | p in a && q in b :: Precedes(procs, p, q)
  {
    hide Precedes;
    if Ordered(procs, a + b) {
      forall i, j | 0 <= i < j < |a| ensures Precedes(procs, a[i], a[j]) {
        assert Precedes(procs, (a + b)[i], (a + b)[j]);
      }
      forall i, j | 0 <= i < j < |b| ensures Precedes(procs, b[i], b[j]) {
        assert Precedes(procs, (a + b)[|a| + i], (a + b)[|a| + j]);
      }
      forall p, q | p in a && q in b ensures Precedes(procs, p, q) {
        var i :| 0 <= i < |a| && a[i] == p;
        var j :| 0 <= j < |b| && b[j] == q;
        assert Precedes(procs, (a + b)[i], (a + b)[|a| + j]);
      }
    }
    if Ordered(procs, a) && Ordered(procs, b) && forall p, q | p in a && q in b :: Precedes(procs, p, q) {
      forall i, j | 0 <= i < j < |a + b| ensures Precedes(procs, (a + b)[i], (a + b)[j]) {
        if i < |a| && j >= |a| { assert (a + b)[i] in a && (a + b)[j] in b; }
      }
    }
  }

  // In order means without repetition.
  lemma NoRepeats(procs: seq<Process>, a: seq<Page>, b: seq<Page>, p: Page)
    requires ValidProcs(procs) && Ordered(procs, a + b) && p in b
    ensures p !in a
  {
    hide SortedVmas;
    OrderedConcat(procs, a, b);
  }

  lemma OrderedTail(procs: seq<Process>, s: seq<Page>)
    requires |procs| > 0 && Ordered(procs[1..], s)
    ensures Ordered(procs, s)
  {
    forall i, j | 0 <= i < j < |s| ensures Precedes(procs, s[i], s[j]) {
      var p, q := s[i], s[j];
      assert Precedes(procs[1..], p, q);
      if !(p.pid == q.pid && p.addr < q.addr) {
        var a, b :| 0 <= a < b < |procs[1..]| && procs[1..][a].pid == p.pid && procs[1..][b].pid == q.pid;
        assert procs[a + 1].pid == p.pid && procs[b + 1].pid == q.pid;
      }
    }
  }

  lemma ProcWalkIs(p: Process, c: Cursor)
    requires p.mm.Some? ==> SortedVmas(p.mm.value)
    ensures Ascending(ProcWalk(p, c))
    ensures forall q :: q in ProcWalk(p, c) <==>
                        q.pid == p.pid && p.mm.Some? && InAreas(q, p.mm.value, 0) && Ahead(c, q)
  {
    hide MmWalk, SortedVmas, InAreas;
    if p.mm.Some? {
      MmWalkIs(p.pid, p.mm.value, StartOf(c, p.pid));
      forall q ensures InAreas(q, p.mm.value, StartOf(c, p.pid)) <==>
                       InAreas(q, p.mm.value, 0) && StartOf(c, p.pid) <= q.addr
      {
        AreasFrom(q, p.mm.value, StartOf(c, p.pid));
      }
    }
  }

  lemma AreasFrom(q: Page, vmas: seq<Vma>, from: nat)
    ensures InAreas(q, vmas, from) <==> InAreas(q, vmas, 0) && from <= q.addr
  {
  }

  // The walk from a cursor is in order, so it meets no page twice, and it meets exactly
  // those pages of the scanned areas that are numerically at or behind the cursor.
  lemma {:induction false} WalkIs(procs: seq<Process>, c: Cursor)
    requires ValidProcs(procs)
    ensures Ordered(procs, WalkFrom(procs, c))
    ensures forall p :: p in WalkFrom(procs, c) <==> InProcs(p, procs) && Ahead(c, p)
  {
    hide InAreas, MmWalk, SortedVmas, Ahead, ProcWalk;
    if |procs| > 0 {
      var rest, head := procs[1..], procs[0];
      WalkIs(rest, c);
      var walk := ProcWalk(head, c);
      ProcWalkIs(head, c);
      forall p ensures InProcs(p, procs) <==>
                       InProcs(p, rest) || (head.pid == p.pid && head.mm.Some? && InAreas(p, head.mm.value, 0))
      {
        ProcsHead(p, procs);
      }
      OrderedTail(procs, WalkFrom(rest, c));
      forall p, q | p in walk && q in WalkFrom(rest, c) ensures Precedes(procs, p, q) {
        var b :| 0 <= b < |rest| && rest[b].pid == q.pid;
        assert procs[0].pid == p.pid && procs[b + 1].pid == q.pid;
      }
      assert Ordered(procs, walk);
      OrderedConcat(procs, walk, WalkFrom(rest, c));
    }
  }

  lemma ProcsHead(p: Page, procs: seq<Process>)
    requires |procs| > 0
    ensures InProcs(p, procs) <==>
            InProcs(p, procs[1..]) || (procs[0].pid == p.pid && procs[0].mm.Some? && InAreas(p, procs[0].mm.value, 0))
  {
    hide InAreas;
    if InProcs(p, procs[1..]) {
      var i :| 0 <= i < |procs[1..]| && procs[1..][i].pid == p.pid && procs[1..][i].mm.Some?
          && InAreas(p, procs[1..][i].mm.value, 0);
      assert procs[i + 1] == procs[1..][i];
    }
    if InProcs(p, procs) {
      var i :| 0 <= i < |procs| && procs[i].pid == p.pid && procs[i].mm.Some? && InAreas(p, procs[i].mm.value, 0);
      if i > 0 { assert procs[1..][i - 1] == procs[i]; }
    }
  }

  lemma {:induction false} SelectIs(procs: seq<Process>, w: World, isSweep: bool, s: seq<Page>)
    requires Ordered(procs, s)
    ensures Ordered(procs, Select(w, isSweep, s))
    ensures forall p :: p in Select(w, isSweep, s) <==> p in s && Wanted(w, isSweep, p)
    decreases |s|
  {
    hide Wanted, Precedes;
    if |s| > 0 {
      var k := |s| - 1;
      var init, last := s[..k], s[k];
      assert s == init + [last];
      OrderedConcat(procs, init, [last]);
      SelectIs(procs, w, isSweep, init);
      if Wanted(w, isSweep, last) { OrderedConcat(procs, Select(w, isSweep, init), [last]); }
    }
  }

  // What one uninterrupted pass visits: each wanted page of each scanned area, once, in
  // the order of the process list and, in a process, of addresses.
  lemma FullPass(procs: seq<Process>, w: World, isSweep: bool)
    requires ValidProcs(procs)
    ensures Ordered(procs, Select(w, isSweep, Everything(procs)))
    ensures forall p :: p in Select(w, isSweep, Everything(procs)) <==> InProcs(p, procs) && Wanted(w, isSweep, p)
  {
    hide InProcs, Wanted, Select, Ordered;
    WalkIs(procs, START);
    SelectIs(procs, w, isSweep, Everything(procs));
  }

  // ---- Cycles ----

  // How a cycle of a pass ends: short of time or budget, at the end of the walk, or,
  // for a sweep that the kernel cannot handle markers for, before it begins.
  datatype Outcome = CutShort | Complete | HandedOver

  // What a cycle found, walked and visited, and where it stopped.
  datatype Cycle = Cycle(isSweep: bool, w: World, walked: seq<Page>, visited: seq<Page>, outcome: Outcome,
                         stop: Cursor)

  ghost predicate Picks(isSweep: bool, c: Cycle) {
    c.visited == Select(c.w, isSweep, c.walked)
  }

  ghost function Walks(cycles: seq<Cycle>): seq<Page> {
    if |cycles| == 0 then [] else Walks(cycles[..|cycles| - 1]) + cycles[|cycles| - 1].walked
  }

  ghost function Visits(cycles: seq<Cycle>): seq<Page> {
    if |cycles| == 0 then [] else Visits(cycles[..|cycles| - 1]) + cycles[|cycles| - 1].visited
  }

  lemma OneCycle(cycles: seq<Cycle>, c: Cycle)
    ensures Walks(cycles + [c]) == Walks(cycles) + c.walked
    ensures Visits(cycles + [c]) == Visits(cycles) + c.visited
  {
    assert (cycles + [c])[..|cycles|] == cycles;
  }

  ghost predicate WalkedOnlyBy(cycles: seq<Cycle>, i: nat, p: Page) {
    i < |cycles| && forall j | 0 <= j < |cycles| :: p in cycles[j].walked <==> j == i
  }

  // A page was walked by one cycle, and visited exactly if that cycle found it wanted.
  ghost predicate Fate(isSweep: bool, cycles: seq<Cycle>, p: Page) {
    exists i: nat :: WalkedOnlyBy(cycles, i, p) && (p in Visits(cycles) <==> Wanted(cycles[i].w, isSweep, p))
  }

  // The cycles of one pass together have walked everything, each page once.  They
  // visited pages of the scanned areas only, none twice, in order; and of those pages
  // exactly the ones that were wanted at the time.
  ghost predicate VisitsAll(procs: seq<Process>, isSweep: bool, cycles: seq<Cycle>) {
    && Walks(cycles) == Everything(procs)
    && Ordered(procs, Visits(cycles)) && (forall p | p in Visits(cycles) :: InProcs(p, procs))
    && forall p | InProcs(p, procs) :: Fate(isSweep, cycles, p)
  }

  lemma {:induction false} NotWalked(cycles: seq<Cycle>, j: nat, p: Page)
    requires p !in Walks(cycles) && j < |cycles|
    ensures p !in cycles[j].walked
  {
    if j < |cycles| - 1 { NotWalked(cycles[..|cycles| - 1], j, p); }
  }

  lemma FateOfNew(isSweep: bool, cycles: seq<Cycle>, c: Cycle, p: Page)
    requires p in c.walked && p !in Walks(cycles) && p !in Visits(cycles)
    requires p in c.visited <==> Wanted(c.w, isSweep, p)
    ensures Fate(isSweep, cycles + [c], p)
  {
    hide Wanted, Walks;
    var longer, n := cycles + [c], |cycles|;
    forall j | 0 <= j < |longer| ensures p in longer[j].walked <==> j == n {
      if j < n { NotWalked(cycles, j, p); }
    }
    assert WalkedOnlyBy(longer, n, p) && longer[n] == c;
    OneCycle(cycles, c);
  }

  lemma FateOfOld(isSweep: bool, cycles: seq<Cycle>, c: Cycle, p: Page)
    requires Fate(isSweep, cycles, p) && p !in c.walked && p !in c.visited
    ensures Fate(isSweep, cycles + [c], p)
  {
    hide Wanted, Walks;
    var i: nat :| WalkedOnlyBy(cycles, i, p) && (p in Visits(cycles) <==> Wanted(cycles[i].w, isSweep, p));
    var longer := cycles + [c];
    forall j | 0 <= j < |longer| ensures p in longer[j].walked <==> j == i {
      if j < |cycles| { assert longer[j] == cycles[j]; }
    }
    assert WalkedOnlyBy(longer, i, p) && longer[i] == cycles[i];
    OneCycle(cycles, c);
  }

  lemma {:induction false} VisitsIn(procs: seq<Process>, isSweep: bool, cycles: seq<Cycle>)
    requires Ordered(procs, Walks(cycles)) && forall c | c in cycles :: Picks(isSweep, c)
    ensures Ordered(procs, Visits(cycles)) && forall p | p in Visits(cycles) :: p in Walks(cycles)
    decreases |cycles|
  {
    hide Wanted, Precedes, Select;
    if |cycles| > 0 {
      var n := |cycles| - 1;
      var init, c := cycles[..n], cycles[n];
      assert c in cycles;
      OrderedConcat(procs, Walks(init), c.walked);
      VisitsIn(procs, isSweep, init);
      SelectIs(procs, c.w, isSweep, c.walked);
      OrderedConcat(procs, Visits(init), c.visited);
    }
  }

  lemma {:induction false} Fates(procs: seq<Process>, isSweep: bool, cycles: seq<Cycle>, p: Page)
    requires ValidProcs(procs) && Ordered(procs, Walks(cycles)) && forall c | c in cycles :: Picks(isSweep, c)
    requires p in Walks(cycles)
    ensures Fate(isSweep, cycles, p)
    decreases |cycles|
  {
    hide Wanted, Ordered, ValidProcs, Fate, Select;
    var n := |cycles| - 1;
    var init, c := cycles[..n], cycles[n];
    assert cycles == init + [c] && c in cycles;
    OrderedConcat(procs, Walks(init), c.walked);
    SelectIs(procs, c.w, isSweep, c.walked);
    if p in c.walked {
      NoRepeats(procs, Walks(init), c.walked, p);
      VisitsIn(procs, isSweep, init);
      FateOfNew(isSweep, init, c, p);
    } else {
      Fates(procs, isSweep, init, p);
      FateOfOld(isSweep, init, c, p);
    }
  }

  // However a pass is cut into cycles, and whatever each of them finds.
  lemma PiecesVisit(procs: seq<Process>, isSweep: bool, cycles: seq<Cycle>)
    requires ValidProcs(procs) && Walks(cycles) == Everything(procs)
    requires forall c | c in cycles :: Picks(isSweep, c)
    ensures VisitsAll(procs, isSweep, cycles)
  {
    hide InProcs, WalkFrom, Fate, ValidProcs, Picks, Ordered, Walks, Visits;
    WalkIs(procs, START);
    VisitsIn(procs, isSweep, cycles);
    forall p | InProcs(p, procs) ensures Fate(isSweep, cycles, p) { Fates(procs, isSweep, cycles, p); }
  }

  lemma SelectNothing(w: World, isSweep: bool)
    ensures Select(w, isSweep, []) == []
  {
  }

  // ---- The sweep's bookkeeping ----

  // The skip list, the counters of the sweep, and the pages visited and compressed so far.
  datatype Tally = Tally(skip: seq<bool>, scanned: nat, idle: nat, compressed: nat, skipped: nat, hits: nat,
                         log: seq<Page>, packed: seq<Page>)

  // What the mark pass does with its markable pages.
  function MarkAll(t: Tally, pages: seq<Page>): Tally {
    t.(log := t.log + pages)
  }

  function SkipIndex(p: Page): (i: nat)
    ensures i < SKIP_LIST_SIZE
  {
    p.addr % SKIP_LIST_SIZE
  }

  // What the sweep does with one cold page.
  function SweepOne(w: World, t: Tally, p: Page): (r: Tally)
    requires |t.skip| == SKIP_LIST_SIZE
    ensures |r.skip| == SKIP_LIST_SIZE && r.log == t.log + [p]
  {
    var u := t.(log := t.log + [p]);
    if t.skip[SkipIndex(p)] then u.(skipped := t.skipped + 1, hits := t.hits + 1)
    else if w.compresses(p) then u.(scanned := t.scanned + 1, idle := t.idle + 1, compressed := t.compressed + 1,
        packed := t.packed + [p])
    else u.(scanned := t.scanned + 1, idle := t.idle + 1, skipped := t.skipped + 1,
        skip := t.skip[SkipIndex(p) := true])
  }

  lemma SweepOneIs(w: World, t: Tally, p: Page, hit: bool, ok: bool)
    requires |t.skip| == SKIP_LIST_SIZE && hit == t.skip[SkipIndex(p)] && ok == (!hit && w.compresses(p))
    ensures var n := if hit then 0 else 1;
            SweepOne(w, t, p) ==
            Tally(if hit || ok then t.skip else t.skip[SkipIndex(p) := true], t.scanned + n, t.idle + n,
                  t.compressed + (if ok then 1 else 0), t.skipped + (if ok then 0 else 1), t.hits + 1 - n, t.log + [p],
                  t.packed + if ok then [p] else [])
  {
    hide SkipIndex;
  }

  function SweepAll(w: World, t: Tally, pages: seq<Page>): (r: Tally)
    requires |t.skip| == SKIP_LIST_SIZE
    ensures |r.skip| == SKIP_LIST_SIZE
  {
    if |pages| == 0 then t else SweepOne(w, SweepAll(w, t, pages[..|pages| - 1]), pages[|pages| - 1])
  }

  lemma SweepLast(w: World, t: Tally, pages: seq<Page>, p: Page)
    requires |t.skip| == SKIP_LIST_SIZE
    ensures SweepAll(w, t, pages + [p]) == SweepOne(w, SweepAll(w, t, pages), p)
  {
    hide SweepOne;
    assert (pages + [p])[..|pages|] == pages;
  }

  lemma {:induction false} SweepConcat(w: World, t: Tally, a: seq<Page>, b: seq<Page>)
    requires |t.skip| == SKIP_LIST_SIZE
    ensures SweepAll(w, t, a + b) == SweepAll(w, SweepAll(w, t, a), b)
    decreases |b|
  {
    hide SweepOne;
    if |b| == 0 {
      assert a + b == a;
    } else {
      var n := |b| - 1;
      assert (a + b)[..|a + b| - 1] == a + b[..n];
      SweepConcat(w, t, a, b[..n]);
    }
  }

  // Every cold page is either attempted or a skip-list hit; an attempt succeeds or is
  // skipped; and once set, a skip-list bit stays set.
  lemma {:induction false} SweepCounts(w: World, t: Tally, pages: seq<Page>)
    requires |t.skip| == SKIP_LIST_SIZE
    ensures var r := SweepAll(w, t, pages);
            && r.scanned - t.scanned + (r.hits - t.hits) == |pages|
            && r.compressed - t.compressed + (r.skipped - t.skipped) == |pages|
            && r.idle - t.idle == r.scanned - t.scanned
            && r.scanned >= t.scanned && r.hits >= t.hits
            && r.log == t.log + pages
            && forall i | 0 <= i < SKIP_LIST_SIZE :: t.skip[i] ==> r.skip[i]
    decreases |pages|
  {
    if |pages| > 0 { SweepCounts(w, t, pages[..|pages| - 1]); }
  }

  // A page whose compression failed is not attempted again, nor is any page that
  // shares its index, until the list decays: a later visit only counts a hit.
  lemma FailedIsSkipped(w: World, t: Tally, a: seq<Page>, p: Page, b: seq<Page>, q: Page)
    requires |t.skip| == SKIP_LIST_SIZE && !w.compresses(p) && q.addr % 16384 == p.addr % 16384
    ensures var r := SweepAll(w, t, a + [p] + b);
            r.skip[q.addr % 16384] && SweepOne(w, r, q) ==
                r.(skipped := r.skipped + 1, hits := r.hits + 1, log := r.log + [q])
  {
    hide SweepAll;
    SweepConcat(w, t, a + [p], b);
    FailureNoted(w, t, a, p);
    SweepCounts(w, SweepAll(w, t, a + [p]), b);
  }

  lemma FailureNoted(w: World, t: Tally, a: seq<Page>, p: Page)
    requires |t.skip| == SKIP_LIST_SIZE && !w.compresses(p)
    ensures SweepAll(w, t, a + [p]).skip[SkipIndex(p)]
  {
    hide SkipIndex, SweepAll, SweepOne;
    SweepLast(w, t, a, p);
    var u := SweepAll(w, t, a);
    SweepOneIs(w, u, p, u.skip[SkipIndex(p)], false);
  }

  // The budget, the counters and the visits of a pass over some pages: a mark pass spends
  // one page of its budget on each page it marks, a sweep pass one on each attempt and
  // each hit, and each of them is visited.
  ghost predicate Accounted(w: World, isSweep: bool, walked: seq<Page>, was: Tally, now: Tally,
                            count: nat, budget: nat, left: nat)
    requires |was.skip| == SKIP_LIST_SIZE
  {
    var visits := Select(w, isSweep, walked);
    && |visits| + left == budget && now.log == was.log + visits
    && (if isSweep then
          && now == SweepAll(w, was, visits)
          && count == now.scanned - was.scanned
          && count + (now.hits - was.hits) + left == budget
        else now == MarkAll(was, visits) && count + left == budget)
  }

  lemma AccountedThen(w: World, isSweep: bool, a: seq<Page>, b: seq<Page>, was: Tally, mid: Tally, now: Tally,
                      m: nat, n: nat, budget: nat, between: nat, left: nat)
    requires |was.skip| == SKIP_LIST_SIZE && |mid.skip| == SKIP_LIST_SIZE
    requires Accounted(w, isSweep, a, was, mid, m, budget, between)
    requires Accounted(w, isSweep, b, mid, now, n, between, left)
    ensures Accounted(w, isSweep, a + b, was, now, m + n, budget, left)
  {
    hide Select, SweepAll;
    SelectConcat(w, isSweep, a, b);
    if isSweep { SweepConcat(w, was, Select(w, true, a), Select(w, true, b)); }
  }

  lemma AccountedIdle(w: World, isSweep: bool, walked: seq<Page>, was: Tally, now: Tally, count: nat, budget: nat,
            left: nat)
    requires |was.skip| == SKIP_LIST_SIZE && was.idle == was.scanned
    requires Accounted(w, isSweep, walked, was, now, count, budget, left)
    ensures now.idle == now.scanned
  {
    SweepCounts(w, was, Select(w, isSweep, walked));
  }

  lemma AccountedLog(w: World, isSweep: bool, walked: seq<Page>, was: Tally, now: Tally, count: nat, budget: nat,
            left: nat)
    requires |was.skip| == SKIP_LIST_SIZE
    requires Accounted(w, isSweep, walked, was, now, count, budget, left)
    ensures now.log == was.log + Select(w, isSweep, walked)
  {
  }

  lemma AccountedNothing(w: World, isSweep: bool, was: Tally, budget: nat)
    requires |was.skip| == SKIP_LIST_SIZE
    ensures Accounted(w, isSweep, [], was, was, 0, budget, budget)
  {
  }
}
