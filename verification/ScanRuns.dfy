/**
  Runs of the scanner: which pass each of its cycles belonged to, and what the cycles of
  a pass come to when it completes.
*/
module ScanRuns {
  import opened ScanSpec
  import opened ScanResume

  // What the environment decides in one cycle: what the page tables hold; how many clock
  // readings still find time left before one, and with it every later one, finds the CPU
  // budget used up; and whether the kernel handles markers.
  datatype CycleLuck = CycleLuck(w: World, ticks: nat, markerReady: bool)

  // The pass that runs after a cycle.
  function NextPhase(c: Cycle): bool {
    if c.outcome.CutShort? then c.isSweep else !c.isSweep
  }

  // The cycles of one pass since that pass last completed, `before` being those from
  // before the run.
  function Since(trace: seq<Cycle>, isSweep: bool, before: seq<Cycle>): seq<Cycle> {
    if |trace| == 0 then before else
      var c, rest := trace[|trace| - 1], Since(trace[..|trace| - 1], isSweep, before);
      if c.isSweep != isSweep || c.outcome.HandedOver? then rest
      else if c.outcome.Complete? then [] else rest + [c]
  }

  // The cycles of the two passes that have not completed.
  datatype Unfinished = Unfinished(mark: seq<Cycle>, sweep: seq<Cycle>)

  function Of(b: Unfinished, isSweep: bool): seq<Cycle> {
    if isSweep then b.sweep else b.mark
  }

  // The phases follow each other as the outcomes say, a handover is a sweep that was not
  // ready, and each cycle finds what its luck says.
  ghost predicate Chained(start: bool, lucks: seq<CycleLuck>, trace: seq<Cycle>)
    requires |trace| == |lucks|
  {
    && (|trace| > 0 ==> trace[0].isSweep == start)
    && (forall i | 0 < i < |trace| :: trace[i].isSweep == NextPhase(trace[i - 1]))
    && (forall i | 0 <= i < |trace| :: trace[i].w == lucks[i].w)
    && (forall i | 0 <= i < |trace| :: trace[i].outcome.HandedOver? <==> trace[i].isSweep && !lucks[i].markerReady)
  }

  // Whenever a pass completes, its cycles together have visited what it was after, each
  // page once, in order, exactly if each of its stops kept.
  ghost predicate CompletesAll(procs: seq<Process>, b: Unfinished, trace: seq<Cycle>) {
    forall i | 0 <= i < |trace| && trace[i].outcome.Complete? ::
      var p := trace[i].isSweep;
      var cycles := Since(trace[..i], p, Of(b, p));
      VisitsAll(procs, p, cycles + [trace[i]]) <==> Kept(procs, cycles)
  }

  // No pass ever takes more cycles without completing than there are pages to walk.
  ghost predicate Bounded(procs: seq<Process>, b: Unfinished, trace: seq<Cycle>) {
    forall k, p | 0 <= k <= |trace| :: |Since(trace[..k], p, Of(b, p))| <= |Everything(procs)|
  }

  ghost predicate RunOf(procs: seq<Process>, start: bool, lucks: seq<CycleLuck>, b: Unfinished, trace: seq<Cycle>) {
    && |trace| == |lucks| && Chained(start, lucks, trace)
    && (forall c | c in trace :: Picks(c.isSweep, c))
    && CompletesAll(procs, b, trace) && Bounded(procs, b, trace)
  }

  lemma NoRun(procs: seq<Process>, start: bool, b: Unfinished)
    requires forall p :: |Of(b, p)| <= |Everything(procs)|
    ensures RunOf(procs, start, [], b, [])
  {
    hide Everything, Of;
    var none: seq<Cycle> := [];
    forall k, p | 0 <= k <= 0 ensures |Since(none[..k], p, Of(b, p))| <= |Everything(procs)| {
      assert none[..k] == none;
    }
  }

  lemma ChainedOn(start: bool, lucks: seq<CycleLuck>, trace: seq<Cycle>, c: Cycle, l: CycleLuck)
    requires |trace| == |lucks| && Chained(start, lucks, trace) && c.w == l.w
    requires c.isSweep == if |trace| == 0 then start else NextPhase(trace[|trace| - 1])
    requires c.outcome.HandedOver? <==> c.isSweep && !l.markerReady
    ensures Chained(start, lucks + [l], trace + [c])
  {
    hide NextPhase;
  }

  lemma CompletesOn(procs: seq<Process>, b: Unfinished, trace: seq<Cycle>, c: Cycle)
    requires CompletesAll(procs, b, trace)
    requires c.outcome.Complete? ==>
               var cycles := Since(trace, c.isSweep, Of(b, c.isSweep));
               VisitsAll(procs, c.isSweep, cycles + [c]) <==> Kept(procs, cycles)
    ensures CompletesAll(procs, b, trace + [c])
  {
    hide Of, Since, VisitsAll, Kept;
    var longer := trace + [c];
    forall i | 0 <= i < |longer| && longer[i].outcome.Complete?
      ensures var p := longer[i].isSweep;
              var cycles := Since(longer[..i], p, Of(b, p));
              VisitsAll(procs, p, cycles + [longer[i]]) <==> Kept(procs, cycles)
    {
      if i < |trace| { assert longer[..i] == trace[..i]; } else { assert longer[..i] == trace; }
    }
  }

  lemma BoundedOn(procs: seq<Process>, b: Unfinished, trace: seq<Cycle>, c: Cycle)
    requires Bounded(procs, b, trace) && forall p :: |Since(trace + [c], p, Of(b, p))| <= |Everything(procs)|
    ensures Bounded(procs, b, trace + [c])
  {
    hide Everything, Of, Since;
    var longer := trace + [c];
    assert longer[..|longer|] == longer;
    forall k, p | 0 <= k <= |longer| ensures |Since(longer[..k], p, Of(b, p))| <= |Everything(procs)| {
      if k <= |trace| { assert longer[..k] == trace[..k]; }
    }
  }

  lemma SinceOne(trace: seq<Cycle>, c: Cycle, isSweep: bool, before: seq<Cycle>)
    ensures var rest := Since(trace, isSweep, before);
            Since(trace + [c], isSweep, before) ==
            if c.isSweep != isSweep || c.outcome.HandedOver? then rest
            else if c.outcome.Complete? then [] else rest + [c]
  {
    assert (trace + [c])[..|trace|] == trace;
  }

  // What one cycle does to the passes.
  ghost predicate CycleStep(procs: seq<Process>, c: Cycle, was: Unfinished, now: Unfinished) {
    && Picks(c.isSweep, c)
    && Of(now, !c.isSweep) == Of(was, !c.isSweep)
    && (c.outcome.HandedOver? ==> Of(now, c.isSweep) == Of(was, c.isSweep))
    && (c.outcome.CutShort? ==> Of(now, c.isSweep) == Of(was, c.isSweep) + [c])
    && (c.outcome.Complete? ==>
          && Of(now, c.isSweep) == []
          && (VisitsAll(procs, c.isSweep, Of(was, c.isSweep) + [c]) <==> Kept(procs, Of(was, c.isSweep))))
  }

  // The passes stand where the run since `b` has brought them.
  ghost predicate Tracks(b: Unfinished, trace: seq<Cycle>, now: Unfinished) {
    forall p :: Of(now, p) == Since(trace, p, Of(b, p))
  }

  lemma NothingTracked(b: Unfinished)
    ensures Tracks(b, [], b) && Visits([]) == []
  {
  }

  lemma RunOn(procs: seq<Process>, start: bool, lucks: seq<CycleLuck>, b: Unfinished, trace: seq<Cycle>, c: Cycle,
              l: CycleLuck)
    requires RunOf(procs, start, lucks, b, trace) && Picks(c.isSweep, c) && c.w == l.w
    requires c.isSweep == if |trace| == 0 then start else NextPhase(trace[|trace| - 1])
    requires c.outcome.HandedOver? <==> c.isSweep && !l.markerReady
    requires c.outcome.Complete? ==>
               var cycles := Since(trace, c.isSweep, Of(b, c.isSweep));
               VisitsAll(procs, c.isSweep, cycles + [c]) <==> Kept(procs, cycles)
    requires forall p :: |Since(trace + [c], p, Of(b, p))| <= |Everything(procs)|
    ensures RunOf(procs, start, lucks + [l], b, trace + [c])
  {
    hide Everything, Of, Since, VisitsAll, Kept, Picks, NextPhase, CompletesAll, Bounded, Chained;
    ChainedOn(start, lucks, trace, c, l);
    CompletesOn(procs, b, trace, c);
    BoundedOn(procs, b, trace, c);
  }

  // One more cycle.
  lemma CycleOn(procs: seq<Process>, start: bool, lucks: seq<CycleLuck>, b: Unfinished, trace: seq<Cycle>,
                c: Cycle, l: CycleLuck, was: Unfinished, now: Unfinished)
    requires RunOf(procs, start, lucks, b, trace) && Tracks(b, trace, was) && c.w == l.w
    requires c.isSweep == if |trace| == 0 then start else NextPhase(trace[|trace| - 1])
    requires (c.outcome.HandedOver? <==> c.isSweep && !l.markerReady) && CycleStep(procs, c, was, now)
    requires forall p :: |Of(now, p)| <= |Everything(procs)|
    ensures RunOf(procs, start, lucks + [l], b, trace + [c]) && Tracks(b, trace + [c], now)
    ensures Visits(trace + [c]) == Visits(trace) + c.visited
  {
    hide Everything, Of, Since, VisitsAll, Kept, Picks, NextPhase, RunOf, Visits;
    assert Of(was, c.isSweep) == Since(trace, c.isSweep, Of(b, c.isSweep));
    forall p ensures Of(now, p) == Since(trace + [c], p, Of(b, p)) {
      SinceOne(trace, c, p, Of(b, p));
      assert p == c.isSweep || p == !c.isSweep;
    }
    RunOn(procs, start, lucks, b, trace, c, l);
    OneCycle(trace, c);
  }

  // As long as process numbers have not wrapped around, every completed pass has visited
  // all it was after.
  lemma SortedCompletes(procs: seq<Process>, start: bool, lucks: seq<CycleLuck>, b: Unfinished, trace: seq<Cycle>,
                        i: nat)
    requires RunOf(procs, start, lucks, b, trace) && SortedPids(procs)
    requires i < |trace| && trace[i].outcome.Complete?
    ensures var p := trace[i].isSweep; VisitsAll(procs, p, Since(trace[..i], p, Of(b, p)) + [trace[i]])
  {
    hide Of, Since, VisitsAll, Chained, Bounded, Picks, SortedPids, Keeps;
    forall c: Cycle ensures Keeps(procs, c.stop) { SortedKeeps(procs, c.stop); }
  }

  lemma {:induction false} SinceGrows(trace: seq<Cycle>, i: nat, n: nat, isSweep: bool, before: seq<Cycle>)
    requires i + n <= |trace|
    requires forall k | i <= k < i + n :: trace[k].isSweep == isSweep && trace[k].outcome.CutShort?
    ensures |Since(trace[..i + n], isSweep, before)| >= n
    decreases n
  {
    if n > 0 {
      var t := trace[..i + n];
      assert t[..|t| - 1] == trace[..i + n - 1] && t[|t| - 1] == trace[i + n - 1];
      SinceGrows(trace, i, n - 1, isSweep, before);
    }
  }

  lemma {:induction false} SamePhase(start: bool, lucks: seq<CycleLuck>, trace: seq<Cycle>, i: nat, n: nat)
    requires |trace| == |lucks| && Chained(start, lucks, trace) && i + n < |trace|
    requires forall k | i <= k < i + n :: trace[k].outcome.CutShort?
    ensures trace[i + n].isSweep == trace[i].isSweep
    decreases n
  {
    if n > 0 { SamePhase(start, lucks, trace, i, n - 1); }
  }

  lemma CutShortBound(procs: seq<Process>, b: Unfinished, trace: seq<Cycle>, i: nat, n: nat, isSweep: bool)
    requires Bounded(procs, b, trace) && i + n <= |trace|
    requires forall k | i <= k < i + n :: trace[k].isSweep == isSweep && trace[k].outcome.CutShort?
    ensures n <= |Everything(procs)|
  {
    hide Everything, Since;
    SinceGrows(trace, i, n, isSweep, Of(b, isSweep));
  }

  // A mark phase ends, complete, within as many cycles as there are pages to walk and
  // one more; so does a sweep phase, unless it is handed over on the way.
  lemma PhaseEnds(procs: seq<Process>, start: bool, lucks: seq<CycleLuck>, b: Unfinished, trace: seq<Cycle>, i: nat)
    requires RunOf(procs, start, lucks, b, trace) && i + |Everything(procs)| < |trace|
    requires trace[i].isSweep ==> forall k | i <= k <= i + |Everything(procs)| :: lucks[k].markerReady
    ensures exists k | i <= k <= i + |Everything(procs)| :: trace[k].isSweep == trace[i].isSweep
              && trace[k].outcome.Complete?
  {
    hide Everything, Since, Of, CompletesAll, Bounded, Picks;
    var e, p := |Everything(procs)|, trace[i].isSweep;
    var n: nat := 0;
    while n <= e && trace[i + n].outcome.CutShort?
      invariant n <= e + 1 && forall k | i <= k < i + n :: trace[k].isSweep == p && trace[k].outcome.CutShort?
    {
      SamePhase(start, lucks, trace, i, n);
      n := n + 1;
    }
    CutShortBound(procs, b, trace, i, n, p);
    SamePhase(start, lucks, trace, i, n);
    assert trace[i + n].isSweep == p && trace[i + n].outcome.Complete?;
  }
}
