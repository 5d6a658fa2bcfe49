/**
  Stopping a pass and resuming it from a cursor: which stops lose nothing, and what
  becomes of a pass once one of them does.  The cursor compares process numbers, the walk
  follows the process list, and the two agree only where the list is sorted.
*/
module ScanResume {
  import opened Buffers
  import opened ScanSpec

  // A process with something to walk.
  predicate Busy(p: Process) {
    |ProcWalk(p, START)| > 0
  }

  // Resuming from a cursor continues where the walk stopped: the busy processes before
  // that of the cursor have smaller numbers, so they are skipped, and those behind it have
  // larger ones, so they are not.
  ghost predicate Keeps(procs: seq<Process>, c: Cursor) {
    forall i, k | 0 <= i < |procs| && 0 <= k < |procs| && k != i && procs[i].pid == c.pid && Busy(procs[k]) ::
      k < i <==> procs[k].pid < c.pid
  }

  ghost predicate Kept(procs: seq<Process>, cycles: seq<Cycle>) {
    forall c | c in cycles :: Keeps(procs, c.stop)
  }

  // In a sorted list every stop keeps.
  lemma SortedKeeps(procs: seq<Process>, c: Cursor)
    requires SortedPids(procs)
    ensures Keeps(procs, c)
  {
    hide Busy;
  }

  // What is left of the walk at a position in process i.
  function Rest(procs: seq<Process>, i: nat, c: Cursor): seq<Page>
    requires i < |procs| && procs[i].mm.Some?
  {
    MmWalk(procs[i].pid, procs[i].mm.value, c.addr) + WalkFrom(procs[i + 1..], START)
  }

  // A walk from c0 that stopped in process i, behind the page it walked last.
  ghost predicate StopsAt(procs: seq<Process>, i: nat, c0: Cursor, c: Cursor, walked: seq<Page>) {
    && i < |procs| && procs[i].pid == c.pid && c.valid && procs[i].mm.Some?
    && !Passed(c0, c.pid) && StartOf(c0, c.pid) < c.addr
    && |walked| > 0 && walked[|walked| - 1] == Page(c.pid, c.addr - 1)
    && walked + (MmWalk(c.pid, procs[i].mm.value, c.addr) + WalkFrom(procs[i + 1..], c0)) == WalkFrom(procs, c0)
  }

  ghost predicate Stops(procs: seq<Process>, c0: Cursor, c: Cursor, walked: seq<Page>) {
    exists i: nat :: StopsAt(procs, i, c0, c, walked)
  }

  lemma IdleWalk(p: Process, c: Cursor)
    requires !Busy(p) && (p.mm.Some? ==> SortedVmas(p.mm.value))
    ensures ProcWalk(p, c) == []
  {
    hide ProcWalk, SortedVmas, InAreas, Ahead;
    ProcWalkIs(p, c);
    ProcWalkIs(p, START);
    assert forall q :: Ahead(START, q) by { AllAhead(); }
    HeadIn(ProcWalk(p, c));
  }

  lemma HeadIn(s: seq<Page>)
    ensures |s| > 0 ==> s[0] in s
  {
  }

  lemma AllAhead()
    ensures forall q :: Ahead(START, q)
  {
  }

  // Resuming from a stop that keeps.
  lemma Resumes(procs: seq<Process>, i: nat, c: Cursor)
    requires ValidProcs(procs) && i < |procs| && procs[i].mm.Some? && procs[i].pid == c.pid && c.valid
    requires Keeps(procs, c)
    ensures WalkFrom(procs, c) == Rest(procs, i, c)
  {
    hide MmWalk, SortedVmas, Busy;
    forall k | 0 <= k < i ensures ProcWalk(procs[k], c) == [] {
      if !Busy(procs[k]) { IdleWalk(procs[k], c); }
    }
    ProcsPassed(procs, c, i);
    var rest := procs[i + 1..];
    assert procs[i..][1..] == rest;
    forall k | 0 <= k < |rest| ensures ProcWalk(rest[k], c) == ProcWalk(rest[k], START) {
      assert rest[k] == procs[i + 1 + k];
      if !Busy(rest[k]) { IdleWalk(rest[k], c); IdleWalk(rest[k], START); }
    }
    ProcsSame(rest, c, START);
  }

  // The process a page belongs to has something to walk.
  lemma BusyWith(procs: seq<Process>, i: nat, p: Page)
    requires ValidProcs(procs) && i < |procs| && InProcs(p, procs) && procs[i].pid == p.pid
    ensures Busy(procs[i])
  {
    hide InAreas, SortedVmas, ProcWalk, Ahead;
    ProcWalkIs(procs[i], START);
    AllAhead();
    assert p in ProcWalk(procs[i], START);
  }

  // Behind a stop, a pass that had kept its earlier stops walks as if it had begun there.
  lemma RestKept(procs: seq<Process>, i: nat, c0: Cursor, c: Cursor, walked: seq<Page>)
    requires ValidProcs(procs) && StopsAt(procs, i, c0, c, walked)
    requires c0.valid ==> Keeps(procs, c0) && exists k | 0 <= k < |procs| :: procs[k].pid == c0.pid
    ensures WalkFrom(procs[i + 1..], c0) == WalkFrom(procs[i + 1..], START)
  {
    hide MmWalk, SortedVmas, Busy, WalkFrom, InProcs;
    var rest := procs[i + 1..];
    if c0.valid {
      var i0 :| 0 <= i0 < |procs| && procs[i0].pid == c0.pid;
      WalkIs(procs, c0);
      assert walked[|walked| - 1] in WalkFrom(procs, c0);
      BusyWith(procs, i, walked[|walked| - 1]);
      assert i0 <= i;
      forall k | 0 <= k < |rest| ensures ProcWalk(rest[k], c0) == ProcWalk(rest[k], START) {
        assert rest[k] == procs[i + 1 + k];
        if !Busy(rest[k]) { IdleWalk(rest[k], c0); IdleWalk(rest[k], START); }
      }
    }
    ProcsSame(rest, c0, START);
  }

  // ---- Stops that do not keep ----

  function First(s: seq<Page>): seq<Page> {
    if |s| == 0 then [] else s[..1]
  }

  // A pass that can no longer walk everything once: a page is left out that the cursor
  // has gone past, or what was walked, or comes next, is out of turn.
  ghost predicate Spoiled(procs: seq<Process>, done: seq<Page>, c: Cursor) {
    || (exists p :: InProcs(p, procs) && p !in done && !Ahead(c, p))
    || !(done + First(WalkFrom(procs, c)) <= Everything(procs))
  }

  // What lies behind a position belongs to its process or to later ones.
  lemma RestIs(procs: seq<Process>, i: nat, c: Cursor, p: Page)
    requires ValidProcs(procs) && i < |procs| && procs[i].mm.Some? && p in Rest(procs, i, c)
    ensures exists b :: i <= b < |procs| && procs[b].pid == p.pid
  {
    hide SortedVmas, InAreas, MmWalk;
    var rest := procs[i + 1..];
    MmWalkIs(procs[i].pid, procs[i].mm.value, c.addr);
    WalkIs(rest, START);
    if p in WalkFrom(rest, START) {
      var b :| 0 <= b < |rest| && rest[b].pid == p.pid;
      assert procs[i + 1 + b].pid == p.pid;
    } else {
      assert procs[i].pid == p.pid;
    }
  }

  lemma InRest(procs: seq<Process>, i: nat, c: Cursor, k: nat, p: Page)
    requires ValidProcs(procs) && i < k < |procs| && procs[i].mm.Some?
    requires p in ProcWalk(procs[k], START)
    ensures p in Rest(procs, i, c) && InProcs(p, procs)
  {
    hide SortedVmas, InAreas, MmWalk, ProcWalk;
    var rest := procs[i + 1..];
    ProcWalkIs(procs[k], START);
    WalkIs(rest, START);
    AllAhead();
    assert rest[k - i - 1] == procs[k];
    assert InProcs(p, rest);
  }

  // A busy process behind the stop with a smaller number is left out.
  lemma LeavesOut(procs: seq<Process>, done: seq<Page>, i: nat, c: Cursor, k: nat)
    requires ValidProcs(procs) && i < k < |procs| && procs[i].mm.Some? && procs[i].pid == c.pid && c.valid
    requires Busy(procs[k]) && procs[k].pid < c.pid && Everything(procs) == done + Rest(procs, i, c)
    ensures Spoiled(procs, done, c)
  {
    hide InProcs, Rest, ValidProcs, WalkFrom, ProcWalk, SortedVmas;
    var p := ProcWalk(procs[k], START)[0];
    InRest(procs, i, c, k, p);
    WalkIs(procs, START);
    NoRepeats(procs, done, Rest(procs, i, c), p);
    PidOf(procs, k, p);
  }

  lemma PidOf(procs: seq<Process>, k: nat, p: Page)
    requires ValidProcs(procs) && k < |procs| && p in ProcWalk(procs[k], START)
    ensures p.pid == procs[k].pid
  {
    hide ProcWalk, SortedVmas, InAreas, Ahead;
    ProcWalkIs(procs[k], START);
  }

  // A busy process before the stop with a larger number comes next, a second time.
  lemma ComesAgain(procs: seq<Process>, done: seq<Page>, i: nat, c: Cursor, k: nat)
    requires ValidProcs(procs) && k < i < |procs| && procs[i].mm.Some? && procs[i].pid == c.pid && c.valid
    requires Busy(procs[k]) && procs[k].pid > c.pid && Everything(procs) == done + Rest(procs, i, c)
    ensures Spoiled(procs, done, c)
  {
    hide InProcs, Rest, WalkFrom, ProcWalk, SortedVmas, InAreas;
    var p := ProcWalk(procs[k], START)[0];
    ProcWalkIs(procs[k], START);
    WalkIs(procs, c);
    var walk := WalkFrom(procs, c);
    assert p in walk by { InProcsAt(procs, k, p); }
    var q := walk[0];
    if done + First(walk) <= Everything(procs) {
      assert (done + First(walk))[|done|] == q;
      assert Rest(procs, i, c)[0] == q;
      RestIs(procs, i, c, q);
      LaterFirst(procs, walk, p, k, i);
    }
  }

  lemma InProcsAt(procs: seq<Process>, k: nat, p: Page)
    requires k < |procs| && procs[k].pid == p.pid && procs[k].mm.Some? && InAreas(p, procs[k].mm.value, 0)
    ensures InProcs(p, procs)
  {
    hide InAreas;
  }

  // No walk begins behind a page that it meets.
  lemma LaterFirst(procs: seq<Process>, walk: seq<Page>, p: Page, k: nat, i: nat)
    requires ValidProcs(procs) && Ordered(procs, walk) && p in walk
    requires k < i <= |procs| && procs[k].pid == p.pid
    ensures !exists b :: i <= b < |procs| && procs[b].pid == walk[0].pid
  {
    hide SortedVmas;
    var j :| 0 <= j < |walk| && walk[j] == p;
    if j > 0 { assert Precedes(procs, walk[0], walk[j]); }
  }

  lemma Strays(procs: seq<Process>, done: seq<Page>, i: nat, c: Cursor)
    requires ValidProcs(procs) && i < |procs| && procs[i].mm.Some? && procs[i].pid == c.pid && c.valid
    requires !Keeps(procs, c) && Everything(procs) == done + Rest(procs, i, c)
    ensures Spoiled(procs, done, c)
  {
    hide Busy, Rest, Spoiled, Everything, SortedVmas;
    var j, k :| 0 <= j < |procs| && 0 <= k < |procs| && k != j && procs[j].pid == c.pid && Busy(procs[k])
        && !(k < j <==> procs[k].pid < c.pid);
    assert j == i;
    if k > i { LeavesOut(procs, done, i, c, k); } else { ComesAgain(procs, done, i, c, k); }
  }

  // A spoiled pass stays spoiled ...
  lemma StaysSpoiled(procs: seq<Process>, done: seq<Page>, i: nat, c0: Cursor, c: Cursor, walked: seq<Page>)
    requires ValidProcs(procs) && Spoiled(procs, done, c0) && StopsAt(procs, i, c0, c, walked)
    ensures Spoiled(procs, done + walked, c)
  {
    hide InProcs, WalkFrom, Everything, MmWalk, SortedVmas;
    WalkIs(procs, c0);
    var walk := WalkFrom(procs, c0);
    assert walked <= walk;
    if p :| InProcs(p, procs) && p !in done && !Ahead(c0, p) {
      assert p !in walked;
      assert !Ahead(c, p);
    } else {
      assert done + First(walk) <= done + walked;
    }
  }

  // ... and ends without having walked everything once.
  lemma SpoiledEnds(procs: seq<Process>, done: seq<Page>, c: Cursor)
    requires ValidProcs(procs) && Spoiled(procs, done, c)
    ensures done + WalkFrom(procs, c) != Everything(procs)
  {
    hide InProcs, WalkFrom, Ahead;
    WalkIs(procs, c);
    WalkIs(procs, START);
    AllAhead();
    if p :| InProcs(p, procs) && p !in done && !Ahead(c, p) {
      assert p in Everything(procs) && p !in done + WalkFrom(procs, c);
    } else {
      assert done + First(WalkFrom(procs, c)) <= done + WalkFrom(procs, c);
    }
  }

  // Two processes of one page each, the newer one with the smaller number.
  const AREA := Vma(1, 2, true, false, false, false)
  const WRAPPED := [Process(2, Some([AREA])), Process(1, Some([AREA]))]

  // Stopped behind its first page, the pass is at its end: process 1 is never walked.
  // Stopped behind its second page, it goes on to walk process 2 again.
  lemma WrappedNumbers()
    ensures ValidProcs(WRAPPED) && Everything(WRAPPED) == [Page(2, 1), Page(1, 1)]
    ensures var c := Cursor(2, 2, true);
            StopsAt(WRAPPED, 0, START, c, [Page(2, 1)]) && !Keeps(WRAPPED, c) && WalkFrom(WRAPPED, c) == []
    ensures var c := Cursor(1, 2, true);
            && StopsAt(WRAPPED, 1, START, c, [Page(2, 1), Page(1, 1)]) && !Keeps(WRAPPED, c)
            && WalkFrom(WRAPPED, c) == [Page(2, 1)]
  {
    var b := WRAPPED[1..];
    assert b == [Process(1, Some([AREA]))] && b[1..] == [] && WRAPPED[2..] == [];
    forall pid, from: nat ensures MmWalk(pid, [AREA], from) == if from <= 1 then [Page(pid, 1)] else [] {
      assert [AREA][1..] == [];
      assert from <= 1 ==> Walk(pid, 1, 2) == [Page(pid, 1)];
    }
    forall c: Cursor
      ensures WalkFrom(WRAPPED, c) == ProcWalk(WRAPPED[0], c) + ProcWalk(WRAPPED[1], c)
      ensures WalkFrom(b, c) == ProcWalk(WRAPPED[1], c) && WalkFrom(WRAPPED[2..], c) == []
    {
      assert WalkFrom(b, c) == ProcWalk(b[0], c) + WalkFrom(b[1..], c);
    }
    assert Busy(WRAPPED[0]) && Busy(WRAPPED[1]);
  }

  // ---- A pass between its cycles ----

  // One of the two passes: its cursor, the cycles it has been cut short in since it last
  // completed, and how often it has ever been cut short.
  datatype Pass = Pass(cursor: Cursor, cycles: seq<Cycle>, yielded: nat)

  // The pages that are numerically at or behind a cursor.
  ghost function Left(procs: seq<Process>, c: Cursor): set<Page> {
    set p | p in Everything(procs) && Ahead(c, p)
  }

  // If every stop so far kept, what was walked and what is left make up the full walk;
  // if not, the pass is spoiled.  Either way each cycle has come closer to its end.
  ghost predicate Position(procs: seq<Process>, isSweep: bool, p: Pass) {
    && (forall c | c in p.cycles :: Picks(isSweep, c))
    && |p.cycles| + |Left(procs, p.cursor)| <= |Everything(procs)|
    && (p.cursor.valid ==>
          && (exists i | 0 <= i < |procs| :: procs[i].pid == p.cursor.pid)
          && |p.cycles| > 0 && p.cycles[|p.cycles| - 1].stop == p.cursor)
    && (if Kept(procs, p.cycles) then Walks(p.cycles) + WalkFrom(procs, p.cursor) == Everything(procs)
        else Spoiled(procs, Walks(p.cycles), p.cursor))
  }

  // A pass cut short: a new position, and one more cycle.
  ghost function Advanced(p: Pass, c: Cycle): Pass {
    Pass(c.stop, p.cycles + [c], p.yielded + 1)
  }

  lemma {:induction false} SetOfSeq(s: seq<Page>)
    ensures |set p | p in s| <= |s|
  {
    if |s| > 0 {
      var init := s[..|s| - 1];
      SetOfSeq(init);
      assert (set p | p in s) == (set p | p in init) + {s[|s| - 1]};
    }
  }

  lemma NewPosition(procs: seq<Process>, isSweep: bool, c: Cursor, yielded: nat)
    requires !c.valid
    ensures Position(procs, isSweep, Pass(c, [], yielded))
  {
    hide ProcWalk, Busy;
    forall k | 0 <= k < |procs| ensures ProcWalk(procs[k], c) == ProcWalk(procs[k], START) { InvalidProc(procs[k], c); }
    ProcsSame(procs, c, START);
    SetOfSeq(Everything(procs));
    assert Left(procs, c) == set p | p in Everything(procs);
    assert [] + WalkFrom(procs, c) == WalkFrom(procs, c);
  }

  lemma InvalidProc(p: Process, c: Cursor)
    requires !c.valid
    ensures ProcWalk(p, c) == ProcWalk(p, START)
  {
    hide MmWalk;
  }

  // Every stop comes closer to the end.
  lemma LeftShrinks(procs: seq<Process>, i: nat, c0: Cursor, c: Cursor, walked: seq<Page>)
    requires ValidProcs(procs) && StopsAt(procs, i, c0, c, walked)
    ensures |Left(procs, c)| < |Left(procs, c0)|
  {
    hide InProcs, WalkFrom, MmWalk, ValidProcs;
    WalkIs(procs, c0);
    WalkIs(procs, START);
    var last := walked[|walked| - 1];
    assert last in WalkFrom(procs, c0) && Ahead(c0, last) && !Ahead(c, last);
    assert last in Left(procs, c0);
    assert Left(procs, c) <= Left(procs, c0) - {last};
    Fewer(Left(procs, c), Left(procs, c0) - {last});
  }

  lemma Fewer(a: set<Page>, b: set<Page>)
    requires a <= b
    ensures |a| <= |b|
  {
    assert |b - a| == |b| - |a|;
  }

  lemma KeptOne(procs: seq<Process>, cycles: seq<Cycle>, c: Cycle)
    ensures Kept(procs, cycles + [c]) <==> Kept(procs, cycles) && Keeps(procs, c.stop)
  {
    hide Keeps;
    var longer := cycles + [c];
    assert c in longer && forall d | d in cycles :: d in longer;
  }

  lemma Cut(procs: seq<Process>, isSweep: bool, p: Pass, c: Cycle)
    requires ValidProcs(procs) && Position(procs, isSweep, p) && Picks(isSweep, c)
    requires Stops(procs, p.cursor, c.stop, c.walked)
    ensures Position(procs, isSweep, Advanced(p, c))
  {
    hide WalkFrom, ValidProcs, Keeps, Spoiled, Kept, Picks, Walks, Left, MmWalk;
    var i: nat :| StopsAt(procs, i, p.cursor, c.stop, c.walked);
    LeftShrinks(procs, i, p.cursor, c.stop, c.walked);
    KeptOne(procs, p.cycles, c);
    OneCycle(p.cycles, c);
    if Kept(procs, p.cycles) {
      LastKept(procs, p);
      RestKept(procs, i, p.cursor, c.stop, c.walked);
      var done := Walks(p.cycles) + c.walked;
      assert Walks(p.cycles) + (c.walked + Rest(procs, i, c.stop)) == done + Rest(procs, i, c.stop);
      if Keeps(procs, c.stop) { Resumes(procs, i, c.stop); } else { Strays(procs, done, i, c.stop); }
    } else {
      StaysSpoiled(procs, Walks(p.cycles), i, p.cursor, c.stop, c.walked);
    }
  }

  lemma LastKept(procs: seq<Process>, p: Pass)
    requires Kept(procs, p.cycles) && (p.cursor.valid ==> |p.cycles| > 0 && p.cycles[|p.cycles| - 1].stop == p.cursor)
    ensures p.cursor.valid ==> Keeps(procs, p.cursor)
  {
    hide Keeps;
  }

  // A pass that completes has visited all it was after exactly if each of its stops kept.
  lemma Ended(procs: seq<Process>, isSweep: bool, p: Pass, c: Cycle)
    requires ValidProcs(procs) && Position(procs, isSweep, p) && Picks(isSweep, c)
    requires c.walked == WalkFrom(procs, p.cursor)
    ensures VisitsAll(procs, isSweep, p.cycles + [c]) <==> Kept(procs, p.cycles)
  {
    hide WalkFrom, ValidProcs, Keeps, Spoiled, Kept, Picks, Walks, Left, Ordered, Fate, InProcs, Everything;
    OneCycle(p.cycles, c);
    if Kept(procs, p.cycles) {
      PiecesVisit(procs, isSweep, p.cycles + [c]);
    } else {
      SpoiledEnds(procs, Walks(p.cycles), p.cursor);
    }
  }
}
