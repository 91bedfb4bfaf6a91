/**
 No operation of the bloom access method gets stuck (contrib/bloom/blinsert.c, blvacuum.c,
 blscan.c): from every state that can be reached, an operation under way can be finished by its
 own steps, unless another backend holds the lock of the metapage. So the runs that the other
 theorems speak of exist.
 */
module BloomProgress {
  import opened Wrappers
  import opened BloomPage
  import opened BloomSignature
  import opened BloomIndex
  import opened BloomRuns
  import opened BloomSolo

  /** The metapage is free, or locked by this backend. */
  predicate MayLock(s: State, p: Pid) {
    s.owner.None? || s.owner == Some(p)
  }

  predicate IsInsertion(proc: Proc) {
    proc.InsertBegin? || proc.InsertTry? || proc.InsertWait? || HoldsMeta(proc)
  }

  /** How far an operation is from its end. */
  function Stage(proc: Proc): nat {
    match proc
    case InsertBegin(_) => 7
    case InsertTry(_, _) => 6
    case InsertWait(_, _) => 5
    case InsertLoop(_, _) => 4
    case InsertCandidate(_, _) => 3
    case InsertAlloc(_) => 2
    case InsertExtended(_, _) => 1
    case _ => 0
  }

  /** The rounds that its loop still has to make. */
  function Rounds(s: State, proc: Proc): nat {
    match proc
    case InsertLoop(_, cur) => if cur < s.meta.nEnd then s.meta.nEnd - cur else 0
    case Vacuum(_, npages, blk, _) => if blk < npages then npages - blk else 0
    case Cleanup(npages, blk) => if blk < npages then npages - blk else 0
    case Scan(_, npages, blk, _) => if blk < npages then npages - blk else 0
    case _ => 0
  }

  /** The operation is over, or nearer to its end. */
  ghost predicate Nearer(s: State, s': State, p: Pid)
    requires p in s.procs
  {
    && MayLock(s', p)
    && (p in s'.procs ==>
          && (s'.procs[p].Vacuum? <==> s.procs[p].Vacuum?) && (s'.procs[p].Cleanup? <==> s.procs[p].Cleanup?)
          && (s'.procs[p].Scan? <==> s.procs[p].Scan?)
          && (|| Stage(s'.procs[p]) < Stage(s.procs[p])
              || (Stage(s'.procs[p]) == Stage(s.procs[p]) && Rounds(s', s'.procs[p]) < Rounds(s, s.procs[p]))))
    && (IsInsertion(s.procs[p]) ==>
          if p in s'.procs then IsInsertion(s'.procs[p]) && s'.procs[p].t == s.procs[p].t && s'.inserted == s.inserted
          else s'.inserted == s.inserted + multiset{s.procs[p].t})
  }

  /** An insertion before it has the lock. */
  lemma {:induction false} UnlockedStep(s: State, p: Pid) returns (s': State, step: Step)
    requires Inv(s) && p in s.procs && MayLock(s, p)
    requires s.procs[p].InsertBegin? || s.procs[p].InsertTry? || s.procs[p].InsertWait?
    ensures Takes(s, s', p, step) && Nearer(s, s', p)
  {
    hide Fits, Appended, Prepared, Conserved, PagesOk, FsmOk;
    var proc := s.procs[p];
    assert ProcOk(s, proc) && s.owner != Some(p);
    match proc
    case InsertBegin(t) =>
      step := SReadHint;
      s' := s.(procs := s.procs[p := if s.meta.nEnd > s.meta.nStart
                                    then InsertTry(t, s.meta.notFullPage[s.meta.nStart]) else InsertWait(t, None)]);
    case InsertTry(t, blk) =>
      step := STryHint;
      s' := if Fits(s.size, |Prepared(s.pages[blk]).items|)
            then s.(pages := s.pages[blk := Appended(s.pages[blk], t)], procs := s.procs - {p},
                    inserted := s.inserted + multiset{t})
            else s.(procs := s.procs[p := InsertWait(t, Some(blk))]);
    case InsertWait(t, tried) =>
      step := SLockMeta;
      var m := s.meta;
      var skip := m.nStart < m.nEnd && m.nStart < |m.notFullPage| && tried == Some(m.notFullPage[m.nStart]);
      s' := s.(owner := Some(p), procs := s.procs[p := InsertLoop(t, if skip then m.nStart + 1 else m.nStart)]);
  }

  /** An insertion in the loop over the hints. */
  lemma {:induction false} LoopStep(s: State, p: Pid) returns (s': State, step: Step)
    requires Inv(s) && p in s.procs && MayLock(s, p) && s.procs[p].InsertLoop?
    ensures Takes(s, s', p, step) && Nearer(s, s', p)
  {
    hide Fits, Appended, Prepared, Conserved, PagesOk, FsmOk, Reusable;
    assert ProcOk(s, s.procs[p]) && s.owner == Some(p);
    var InsertLoop(t, cur) := s.procs[p];
    step := SLoopHint;
    if cur >= s.meta.nEnd {
      s' := s.(procs := s.procs[p := InsertAlloc(t)]);
    } else {
      var blk := s.meta.notFullPage[cur];
      assert IsData(s.pages, blk);
      s' := if Fits(s.size, |Prepared(s.pages[blk]).items|)
            then s.(pages := s.pages[blk := Appended(s.pages[blk], t)], meta := s.meta.(nStart := cur),
                    owner := None, procs := s.procs - {p}, inserted := s.inserted + multiset{t})
            else s.(procs := s.procs[p := InsertLoop(t, cur + 1)]);
    }
  }

  /** An insertion that looks for a page. */
  lemma {:induction false} AllocStep(s: State, p: Pid) returns (s': State, step: Step)
    requires Inv(s) && p in s.procs && MayLock(s, p)
    requires s.procs[p].InsertAlloc? || s.procs[p].InsertCandidate? || s.procs[p].InsertExtended?
    ensures Takes(s, s', p, step) && Nearer(s, s', p)
  {
    hide Fits, Appended, Prepared, Conserved, PagesOk, FsmOk, Reusable;
    assert ProcOk(s, s.procs[p]) && s.owner == Some(p);
    match s.procs[p]
    case InsertAlloc(t) =>
      step := SExtendFile;
      s' := s.(pages := s.pages + [NewPage], procs := s.procs[p := InsertExtended(t, |s.pages|)]);
    case InsertCandidate(t, blk) =>
      step := SCheckCandidate(true);
      s' := if Reusable(s.pages[blk]) then Published(s, p, t, blk) else s.(procs := s.procs[p := InsertAlloc(t)]);
    case InsertExtended(t, blk) =>
      step := SUseExtended;
      s' := Published(s, p, t, blk);
  }

  ghost function Published(s: State, p: Pid, t: Tuple, blk: Block): State
    requires blk < |s.pages| && 0 < |s.meta.notFullPage|
  {
    s.(pages := s.pages[blk := DataPage(false, [t])], meta := Meta(0, 1, s.meta.notFullPage[0 := blk]),
       owner := if s.owner == Some(p) then None else s.owner, procs := s.procs - {p}, inserted := s.inserted + multiset{t})
  }

  lemma {:induction false} VacuumStep(s: State, p: Pid) returns (s': State, step: Step)
    requires Inv(s) && p in s.procs && MayLock(s, p) && s.procs[p].Vacuum?
    ensures Takes(s, s', p, step) && Nearer(s, s', p)
  {
    hide Conserved, PagesOk, FsmOk, Reusable, Vacuumed, Listed, Removed, Matches;
    var Vacuum(dead, npages, blk, l) := s.procs[p];
    assert ProcOk(s, s.procs[p]) && s.owner != Some(p);
    if blk < npages {
      step := SVacuumPage;
      var page := Vacuumed(s.pages[blk], dead);
      s' := s.(pages := s.pages[blk := page],
               procs := s.procs[p := Vacuum(dead, npages, blk + 1, Listed(s.size, l, blk, page))],
               removed := s.removed + Removed(s.pages[blk], dead));
    } else {
      step := SEndVacuum;
      s' := s.(meta := Meta(0, |l|, l + s.meta.notFullPage[|l|..]), procs := s.procs - {p});
    }
  }

  lemma {:induction false} CleanupStep(s: State, p: Pid) returns (s': State, step: Step)
    requires Inv(s) && p in s.procs && MayLock(s, p) && s.procs[p].Cleanup?
    ensures Takes(s, s', p, step) && Nearer(s, s', p)
  {
    hide Conserved, PagesOk, FsmOk, Reusable, Matches;
    assert ProcOk(s, s.procs[p]) && s.owner != Some(p);
    var Cleanup(npages, blk) := s.procs[p];
    if blk < npages {
      step := SCleanupPage;
      s' := s.(fsm := if Reusable(s.pages[blk]) then s.fsm + {blk} else s.fsm,
               procs := s.procs[p := Cleanup(npages, blk + 1)]);
    } else {
      step := SEndCleanup;
      s' := s.(procs := s.procs - {p});
    }
  }

  lemma {:induction false} ScanStep(s: State, p: Pid) returns (s': State, step: Step)
    requires Inv(s) && p in s.procs && MayLock(s, p) && s.procs[p].Scan?
    ensures Takes(s, s', p, step) && Nearer(s, s', p)
  {
    hide Conserved, PagesOk, FsmOk, Reusable, Matches;
    assert ProcOk(s, s.procs[p]) && s.owner != Some(p);
    var Scan(sign, npages, blk, found) := s.procs[p];
    if blk < npages {
      step := SScanPage;
      s' := s.(procs := s.procs[p := Scan(sign, npages, blk + 1, found + Matches(s.pages[blk], sign))]);
    } else {
      step := SEndScan;
      s' := s.(procs := s.procs - {p});
    }
  }

  lemma {:induction false} NextStep(s: State, p: Pid) returns (s': State, step: Step)
    requires Inv(s) && p in s.procs && MayLock(s, p)
    ensures Takes(s, s', p, step) && Nearer(s, s', p)
  {
    hide Inv, Takes, Nearer;
    var proc := s.procs[p];
    if proc.InsertBegin? || proc.InsertTry? || proc.InsertWait? {
      s', step := UnlockedStep(s, p);
    } else if proc.InsertLoop? {
      s', step := LoopStep(s, p);
    } else if HoldsMeta(proc) {
      s', step := AllocStep(s, p);
    } else if proc.Vacuum? {
      s', step := VacuumStep(s, p);
    } else if proc.Cleanup? {
      s', step := CleanupStep(s, p);
    } else {
      s', step := ScanStep(s, p);
    }
  }

  lemma {:induction false} RunGrows(run: seq<State>, s': State, p: Pid, step: Step)
    requires IsRun(run) && Takes(run[|run| - 1], s', p, step)
    ensures IsRun(run + [s']) && MovesAt(run + [s'], |run| - 1, p)
  {
    hide Takes;
    var longer := run + [s'];
    assert Next(run[|run| - 1], s') && Moves(run[|run| - 1], s', p);
    forall i | 0 <= i < |longer| - 1
      ensures Next(longer[i], longer[i + 1])
    {
      assert i < |run| - 1 ==> Next(run[i], run[i + 1]);
    }
  }

  /** From every reachable state, an operation can be finished by its own steps when no other
      backend holds the metapage lock; an insertion then has stored its tuple. */
  lemma {:induction false} CanFinish(run: seq<State>, p: Pid) returns (done: seq<State>)
    requires IsRun(run) && p in run[|run| - 1].procs && MayLock(run[|run| - 1], p)
    ensures IsRun(done) && run <= done && Alone(done, |run| - 1, |done| - 1, p)
    ensures p !in done[|done| - 1].procs
    ensures var s := run[|run| - 1];
            IsInsertion(s.procs[p]) ==> done[|done| - 1].inserted == s.inserted + multiset{s.procs[p].t}
    decreases Stage(run[|run| - 1].procs[p]), Rounds(run[|run| - 1], run[|run| - 1].procs[p])
  {
    hide Inv, Takes, Next, Init, Stage, Rounds;
    var n := |run| - 1;
    var s := run[n];
    InvariantAt(run, n);
    var s', step := NextStep(s, p);
    RunGrows(run, s', p, step);
    var longer := run + [s'];
    done := longer;
    if p in s'.procs {
      done := CanFinish(longer, p);
      AloneJoins(run, longer, done, p);
    } else {
      assert Alone(longer, n, n + 1, p);
    }
  }

  lemma {:induction false} AloneJoins(run: seq<State>, longer: seq<State>, done: seq<State>, p: Pid)
    requires |run| >= 1 && |longer| == |run| + 1 && longer <= done && MovesAt(longer, |run| - 1, p)
    requires Alone(done, |longer| - 1, |done| - 1, p)
    ensures Alone(done, |run| - 1, |done| - 1, p)
  {
    hide Moves;
    assert MovesAt(done, |run| - 1, p);
  }

  /** After any run that has left no operation under way, a tuple can be inserted. */
  lemma {:induction false} CanInsert(run: seq<State>, p: Pid, t: Tuple) returns (done: seq<State>)
    requires IsRun(run) && p !in run[|run| - 1].procs && run[|run| - 1].owner.None?
    ensures IsRun(done) && run <= done && p !in done[|done| - 1].procs
    ensures done[|done| - 1].inserted == run[|run| - 1].inserted + multiset{t}
  {
    hide Inv, Next, Init;
    var s := run[|run| - 1];
    var s' := s.(procs := s.procs[p := InsertBegin(t)]);
    assert Takes(s, s', p, SBeginInsert(t));
    hide Takes;
    RunGrows(run, s', p, SBeginInsert(t));
    done := CanFinish(run + [s'], p);
  }
}
