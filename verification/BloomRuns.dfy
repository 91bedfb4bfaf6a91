/**
 What holds over whole runs of the bloom access method: no tuple is lost or stored
 twice, a scan that overlaps anything else still returns every matching row, and a
 bulk deletion leaves none of its victims behind.
 */
module BloomRuns {
  import opened BloomPage
  import opened BloomSignature
  import opened BloomIndex

  /** Any interleaving of any number of backends, from a freshly built index. */
  ghost predicate IsRun(run: seq<State>) {
    && |run| > 0 && Init(run[0])
    && forall i | 0 <= i < |run| - 1 :: Next(run[i], run[i + 1])
  }

  lemma {:induction false} InvariantAt(run: seq<State>, i: nat)
    requires IsRun(run) && i < |run|
    ensures Inv(run[i])
  {
    if i == 0 {
      assert Stored(run[0].pages) + multiset{} == Stored(run[0].pages);
    } else {
      InvariantAt(run, i - 1);
      assert Next(run[i - 1], run[i - 1 + 1]);
      NextPreserves(run[i - 1], run[i]);
    }
  }

  /** At every moment of every run the pages hold exactly what was inserted and not
      bulk-deleted, the hint window is inside the metapage, a deleted page is empty,
      and the page that an extension added is still new when it is initialised. */
  lemma {:induction false} RunSafety(run: seq<State>, i: nat)
    requires IsRun(run) && i < |run|
    ensures var s := run[i];
      && s.removed <= s.inserted && Stored(s.pages) == s.inserted - s.removed
      && s.meta.nStart <= s.meta.nEnd <= META_BLOCKS
      && (forall b | 0 <= b < |s.pages| && s.pages[b].DataPage? && s.pages[b].deleted :: s.pages[b].items == [])
      && (forall p | p in s.procs && s.procs[p].InsertExtended? ::
            s.procs[p].blk < |s.pages| && s.pages[s.procs[p].blk].NewPage?)
  {
    InvariantAt(run, i);
    var s := run[i];
    assert (Stored(s.pages) + s.removed) - s.removed == Stored(s.pages);
    forall p | p in s.procs && s.procs[p].InsertExtended?
      ensures s.procs[p].blk < |s.pages| && s.pages[s.procs[p].blk].NewPage?
    {
      assert ProcOk(s, s.procs[p]);
    }
    forall b | 0 <= b < |s.pages| && s.pages[b].DataPage? && s.pages[b].deleted
      ensures s.pages[b].items == []
    {
      assert PageOk(s.size, s.pages[b]);
    }
  }

  /** A step of one backend leaves every other backend where it is. */
  lemma {:induction false} OthersStay(s: State, s': State, q: Pid, step: Step, p: Pid)
    requires Takes(s, s', q, step) && p != q
    ensures p in s.procs <==> p in s'.procs
    ensures p in s.procs ==> s'.procs[p] == s.procs[p]
  {
    hide Fits, Prepared, Appended, Vacuumed, Listed, Removed, Matches, Reusable;
  }

  // ----- what one step does to one page -----

  predicate Inserting(proc: Proc) {
    proc.InsertTry? || proc.InsertLoop? || proc.InsertCandidate? || proc.InsertExtended?
  }

  ghost predicate Gains(s: State, s': State, b: Block)
    requires b < |s.pages| && b < |s'.pages|
  {
    exists p | p in s.procs && Inserting(s.procs[p]) ::
      Items(s'.pages[b]) == Items(s.pages[b]) + [s.procs[p].t]
  }

  ghost predicate Loses(s: State, s': State, b: Block)
    requires b < |s.pages| && b < |s'.pages|
  {
    exists p | p in s.procs && s.procs[p].Vacuum? ::
      Items(s'.pages[b]) == Survivors(Items(s.pages[b]), s.procs[p].dead)
  }

  ghost predicate PageStep(s: State, s': State, b: Block)
    requires b < |s.pages| && b < |s'.pages|
  {
    Items(s'.pages[b]) == Items(s.pages[b]) || Gains(s, s', b) || Loses(s, s', b)
  }

  /** Tuples never move between pages: a page stays, gains one tuple of a running
      insertion, or loses the victims of a running bulk deletion. */
  lemma {:induction false} PagesStep(s: State, s': State, b: Block)
    requires Inv(s) && Next(s, s') && b < |s.pages|
    ensures |s.pages| <= |s'.pages|
    ensures PageStep(s, s', b)
  {
    var p, step :| Takes(s, s', p, step);
    if step.STryHint? || step.SLoopHint? || step.SCheckCandidate? || step.SUseExtended? {
      assert ProcOk(s, s.procs[p]);
      InsertStep(s, s', p, step, b);
    } else if step.SVacuumPage? {
      VacuumStep(s, s', p, b);
    }
  }

  lemma {:induction false} InsertStep(s: State, s': State, p: Pid, step: Step, b: Block)
    requires Inv(s) && Takes(s, s', p, step) && b < |s.pages|
    requires step.STryHint? || step.SLoopHint? || step.SCheckCandidate? || step.SUseExtended?
    ensures |s.pages| <= |s'.pages|
    ensures PageStep(s, s', b)
  {
    assert ProcOk(s, s.procs[p]);
    if s'.pages != s.pages {
      var blk := if step.SLoopHint? then s.meta.notFullPage[s.procs[p].cur] else s.procs[p].blk;
      assert PageOk(s.size, s.pages[blk]);
      if b == blk {
        assert Items(s'.pages[b]) == Items(s.pages[b]) + [s.procs[p].t];
      }
    }
  }

  lemma {:induction false} VacuumStep(s: State, s': State, p: Pid, b: Block)
    requires Inv(s) && VacuumPage(s, s', p) && b < |s.pages|
    ensures |s.pages| <= |s'.pages|
    ensures PageStep(s, s', b)
  {
    if b == s.procs[p].blk && !Reusable(s.pages[b]) {
      assert Items(s'.pages[b]) == Survivors(Items(s.pages[b]), s.procs[p].dead);
    }
  }

  // ----- scans -----

  /** No running bulk deletion targets the heap pointer. */
  ghost predicate Spared(s: State, tid: Tid) {
    forall p | p in s.procs && s.procs[p].Vacuum? :: tid !in s.procs[p].dead
  }

  lemma {:induction false} TupleStays(s: State, s': State, b: Block, t: Tuple)
    requires Inv(s) && Next(s, s') && b < |s.pages|
    requires t in Items(s.pages[b]) && Spared(s, t.heapPtr)
    ensures |s.pages| <= |s'.pages| && t in Items(s'.pages[b])
  {
    PagesStep(s, s', b);
    if Loses(s, s', b) {
      var p :| p in s.procs && s.procs[p].Vacuum?
        && Items(s'.pages[b]) == Survivors(Items(s.pages[b]), s.procs[p].dead);
      SurvivorOrVictim(Items(s.pages[b]), s.procs[p].dead, t);
    }
  }

  /** The tuple is already reported, or still ahead of the scan on its page. */
  ghost predicate Pending(s: State, p: Pid, sign: seq<Word>, b: Block, t: Tuple) {
    && p in s.procs && s.procs[p].Scan? && s.procs[p].sign == sign
    && 1 <= b < s.procs[p].npages && b < |s.pages|
    && (t.heapPtr in s.procs[p].found || (s.procs[p].blk <= b && t in Items(s.pages[b])))
  }

  /** A running scan stays where it is or reads one page. */
  lemma {:induction false} ScanMoves(s: State, s': State, p: Pid)
    requires Next(s, s') && p in s.procs && s.procs[p].Scan? && p in s'.procs
    ensures s'.procs[p] == s.procs[p] || ScanPage(s, s', p)
  {
    hide Takes;
    var q, step :| Takes(s, s', q, step);
    if q != p {
      OthersStay(s, s', q, step, p);
    } else {
      ScanMovesOwn(s, s', p, step);
    }
  }

  lemma {:induction false} ScanMovesOwn(s: State, s': State, p: Pid, step: Step)
    requires Takes(s, s', p, step) && p in s.procs && s.procs[p].Scan? && p in s'.procs
    ensures s'.procs[p] == s.procs[p] || ScanPage(s, s', p)
  {
    hide Fits, Prepared, Appended, Vacuumed, Listed, Removed, Matches, Reusable;
  }

  lemma {:induction false} PendingStep(s: State, s': State, p: Pid, sign: seq<Word>, b: Block, t: Tuple)
    requires Inv(s) && Next(s, s') && Spared(s, t.heapPtr)
    requires Covers(t.sign, sign)
    requires Pending(s, p, sign, b, t)
    requires p in s'.procs
    ensures Pending(s', p, sign, b, t)
  {
    hide Next;
    ScanMoves(s, s', p);
    PagesStep(s, s', b);
    if t.heapPtr !in s.procs[p].found {
      TupleStays(s, s', b, t);
      if ScanPage(s, s', p) && s.procs[p].blk == b {
        assert PageOk(s.size, s.pages[b]);
        assert t.heapPtr in Matches(s.pages[b], sign);
      }
    }
  }

  /** The scan p starts in the step after `i` and is still the same scan at j. */
  ghost predicate Scanning(run: seq<State>, i: nat, j: nat, p: Pid, sign: seq<Word>) {
    && i < j < |run|
    && BeginScan(run[i], run[i + 1], p, sign)
    && forall k | i < k <= j :: p in run[k].procs
  }

  lemma {:induction false} PendingThroughout(run: seq<State>, i: nat, j: nat, p: Pid, sign: seq<Word>, b: Block, t: Tuple)
    requires IsRun(run) && Scanning(run, i, j, p, sign)
    requires 1 <= b < |run[i].pages| && t in Items(run[i].pages[b])
    requires forall k | i <= k < j :: Spared(run[k], t.heapPtr)
    requires Covers(t.sign, sign)
    ensures Pending(run[j], p, sign, b, t)
  {
    hide Next, Inv;
    if j > i + 1 {
      PendingThroughout(run, i, j - 1, p, sign, b, t);
      InvariantAt(run, j - 1);
      assert Next(run[j - 1], run[j - 1 + 1]);
      PendingStep(run[j - 1], run[j], p, sign, b, t);
    }
  }

  lemma {:induction false} StoredSomewhere(pages: seq<Page>, t: Tuple)
    requires t in Stored(pages)
    ensures exists b | 0 <= b < |pages| :: t in Items(pages[b])
  {
    var n := |pages| - 1;
    if t in Items(pages[n]) {
      assert t in Items(pages[n]);
    } else {
      StoredSomewhere(pages[..n], t);
      var b :| 0 <= b < n && t in Items(pages[..n][b]);
      assert t in Items(pages[b]);
    }
  }

  /** A scan that has read all its pages reports every row that satisfies its keys and
      was stored when it began, however it interleaved with insertions, page recycling,
      cleanups, and bulk deletions of other rows. */
  lemma {:induction false} ScanIsComplete(run: seq<State>, i: nat, j: nat, p: Pid, sign: seq<Word>, t: Tuple,
                       o: Options, h: HashFn, row: Row, keys: seq<ScanKey>)
    requires IsRun(run) && Scanning(run, i, j, p, sign)
    requires t in Stored(run[i].pages)
    requires forall k | i <= k < j :: Spared(run[k], t.heapPtr)
    requires ValidOptions(o) && |row| == |o.bitSize| <= 32 && ValidKeys(o, keys)
    requires FormedFrom(o, h, t, row) && ScansFor(o, h, sign, keys) && RowMatches(row, keys)
    ensures var proc := run[j].procs[p];
            proc.Scan? && (proc.blk >= proc.npages ==> t.heapPtr in proc.found)
  {
    hide Next, Stored, Covers, ScansFor, FormedFrom, ValidOptions, ValidKeys, RowMatches;
    MatchingRowIsCovered(o, h, t, row, sign, keys);
    StoredSomewhere(run[i].pages, t);
    var b :| 0 <= b < |run[i].pages| && t in Items(run[i].pages[b]);
    InvariantAt(run, i);
    PendingThroughout(run, i, j, p, sign, b, t);
  }

  /** The heap pointer belongs to an inserted tuple whose signature covers the scan's. */
  ghost predicate Accounted(s: State, sign: seq<Word>, tid: Tid) {
    exists t :: t in s.inserted && t.heapPtr == tid && Covers(t.sign, sign)
  }

  lemma {:induction false} StoredContains(pages: seq<Page>, b: nat, t: Tuple)
    requires b < |pages| && t in Items(pages[b])
    ensures t in Stored(pages)
  {
    if b < |pages| - 1 {
      StoredContains(pages[..|pages| - 1], b, t);
    }
  }

  lemma {:induction false} MatchesAccounted(s: State, b: nat, sign: seq<Word>, tid: Tid)
    requires Inv(s) && b < |s.pages| && tid in Matches(s.pages[b], sign)
    ensures Accounted(s, sign, tid)
  {
    var t :| t in s.pages[b].items && Covers(t.sign, sign) && t.heapPtr == tid;
    StoredContains(s.pages, b, t);
  }

  lemma {:induction false} InsertedGrows(s: State, s': State)
    requires Next(s, s')
    ensures s.inserted <= s'.inserted
  {
    hide Fits, Prepared, Appended, Vacuumed, Listed, Removed, Matches, Reusable;
    var q, step :| Takes(s, s', q, step);
  }

  lemma {:induction false} AccountedStays(s: State, s': State, sign: seq<Word>, tid: Tid)
    requires Next(s, s') && Accounted(s, sign, tid)
    ensures Accounted(s', sign, tid)
  {
    hide Next;
    InsertedGrows(s, s');
    var t :| t in s.inserted && t.heapPtr == tid && Covers(t.sign, sign);
    assert t in s'.inserted;
  }

  lemma {:induction false} ScanStartsEmpty(s: State, s': State, p: Pid)
    requires Next(s, s') && p in s'.procs && s'.procs[p].Scan?
    requires !(p in s.procs && s.procs[p].Scan?)
    ensures s'.procs[p].found == {}
  {
    hide Takes;
    var q, step :| Takes(s, s', q, step);
    if q != p {
      OthersStay(s, s', q, step, p);
    } else {
      ScanStartsEmptyOwn(s, s', p, step);
    }
  }

  lemma {:induction false} ScanStartsEmptyOwn(s: State, s': State, p: Pid, step: Step)
    requires Takes(s, s', p, step) && p in s'.procs && s'.procs[p].Scan?
    requires !(p in s.procs && s.procs[p].Scan?)
    ensures s'.procs[p].found == {}
  {
    hide Fits, Prepared, Appended, Vacuumed, Listed, Removed, Matches, Reusable;
  }

  /** A reported heap pointer was reported before, or comes from the page just read. */
  lemma {:induction false} FoundStep(s: State, s': State, p: Pid, tid: Tid)
    requires Inv(s) && Next(s, s')
    requires p in s'.procs && s'.procs[p].Scan? && tid in s'.procs[p].found
    ensures || (p in s.procs && s.procs[p].Scan? && s.procs[p].sign == s'.procs[p].sign && tid in s.procs[p].found)
            || Accounted(s, s'.procs[p].sign, tid)
  {
    if p in s.procs && s.procs[p].Scan? {
      hide Next;
      ScanMoves(s, s', p);
      if tid !in s.procs[p].found {
        MatchesAccounted(s, s.procs[p].blk, s'.procs[p].sign, tid);
      }
    } else {
      ScanStartsEmpty(s, s', p);
    }
  }

  /** A scan reports nothing that was never inserted or does not cover its signature. */
  lemma {:induction false} ScanIsSound(run: seq<State>, i: nat, p: Pid, tid: Tid)
    requires IsRun(run) && i < |run|
    requires p in run[i].procs && run[i].procs[p].Scan? && tid in run[i].procs[p].found
    ensures Accounted(run[i], run[i].procs[p].sign, tid)
  {
    hide Next, Inv;
    assert i > 0;
    InvariantAt(run, i - 1);
    assert Next(run[i - 1], run[i - 1 + 1]);
    FoundStep(run[i - 1], run[i], p, tid);
    if p in run[i - 1].procs && run[i - 1].procs[p].Scan? && tid in run[i - 1].procs[p].found {
      ScanIsSound(run, i - 1, p, tid);
    }
    AccountedStays(run[i - 1], run[i], run[i].procs[p].sign, tid);
  }

  // ----- bulk deletion -----

  ghost predicate NoneDead(page: Page, dead: set<Tid>) {
    forall t | t in Items(page) :: t.heapPtr !in dead
  }

  /** No insertion under way uses one of the heap pointers being deleted: VACUUM frees
      them for reuse only after it is done. */
  ghost predicate NoReuse(s: State, dead: set<Tid>) {
    forall p | p in s.procs && Inserting(s.procs[p]) :: s.procs[p].t.heapPtr !in dead
  }

  /** Pages behind the deletion, and pages added after it began, hold no dead tuple. */
  ghost predicate Swept(s: State, p: Pid, dead: set<Tid>) {
    && p in s.procs && s.procs[p].Vacuum? && s.procs[p].dead == dead
    && forall b | 0 <= b < |s.pages| && (b < s.procs[p].blk || b >= s.procs[p].npages) ::
         NoneDead(s.pages[b], dead)
  }

  lemma {:induction false} NoneDeadStays(s: State, s': State, b: Block, dead: set<Tid>)
    requires Inv(s) && Next(s, s') && NoReuse(s, dead) && b < |s.pages|
    requires NoneDead(s.pages[b], dead)
    ensures |s.pages| <= |s'.pages| && NoneDead(s'.pages[b], dead)
  {
    PagesStep(s, s', b);
    if Loses(s, s', b) {
      var p :| p in s.procs && s.procs[p].Vacuum?
        && Items(s'.pages[b]) == Survivors(Items(s.pages[b]), s.procs[p].dead);
      forall t | t in Items(s'.pages[b])
        ensures t.heapPtr !in dead
      {
        SurvivorOrVictim(Items(s.pages[b]), s.procs[p].dead, t);
      }
    }
  }

  lemma {:induction false} VacuumedNoneDead(size: nat, page: Page, dead: set<Tid>)
    requires size > 0 && PageOk(size, page)
    ensures NoneDead(Vacuumed(page, dead), dead)
  {
    forall t | t in Items(Vacuumed(page, dead))
      ensures t.heapPtr !in dead
    {
      SurvivorOrVictim(Items(page), dead, t);
    }
  }

  lemma {:induction false} NewPagesEmpty(s: State, s': State)
    requires Next(s, s')
    ensures forall b | |s.pages| <= b < |s'.pages| :: Items(s'.pages[b]) == []
  {
    var q, step :| Takes(s, s', q, step);
    PagesAdded(s, s', q, step);
    hide Next;
  }

  /** Only extending the file adds a page, and the page is new. */
  lemma {:induction false} PagesAdded(s: State, s': State, q: Pid, step: Step)
    requires Takes(s, s', q, step)
    ensures if step.SExtendFile? then s'.pages == s.pages + [NewPage] else |s'.pages| == |s.pages|
  {
    hide Fits, Prepared, Appended, Vacuumed, Listed, Removed, Matches, Reusable;
  }

  /** A running deletion stays where it is or moves on by one page. */
  lemma {:induction false} VacuumMoves(s: State, s': State, p: Pid)
    requires Next(s, s') && p in s.procs && s.procs[p].Vacuum? && p in s'.procs
    ensures s'.procs[p].Vacuum?
    ensures s'.procs[p].dead == s.procs[p].dead && s'.procs[p].npages == s.procs[p].npages
    ensures s'.procs[p].blk == s.procs[p].blk || (s'.procs[p].blk == s.procs[p].blk + 1 && VacuumPage(s, s', p))
  {
    hide Takes;
    var q, step :| Takes(s, s', q, step);
    if q != p {
      OthersStay(s, s', q, step, p);
    } else {
      VacuumMovesOwn(s, s', p, step);
    }
  }

  lemma {:induction false} VacuumMovesOwn(s: State, s': State, p: Pid, step: Step)
    requires Takes(s, s', p, step) && p in s.procs && s.procs[p].Vacuum? && p in s'.procs
    ensures s'.procs[p].Vacuum?
    ensures s'.procs[p].dead == s.procs[p].dead && s'.procs[p].npages == s.procs[p].npages
    ensures s'.procs[p].blk == s.procs[p].blk || (s'.procs[p].blk == s.procs[p].blk + 1 && VacuumPage(s, s', p))
  {
    hide Fits, Prepared, Appended, Vacuumed, Listed, Removed, Matches, Reusable;
  }

  lemma {:induction false} SweptPage(s: State, s': State, p: Pid, dead: set<Tid>, b: Block)
    requires Inv(s) && Next(s, s') && NoReuse(s, dead)
    requires Swept(s, p, dead) && p in s'.procs && s'.procs[p].Vacuum?
    requires b < |s'.pages| && (b < s'.procs[p].blk || b >= s'.procs[p].npages)
    ensures NoneDead(s'.pages[b], dead)
  {
    hide Next;
    VacuumMoves(s, s', p);
    NewPagesEmpty(s, s');
    if b < |s.pages| {
      if b < s.procs[p].blk || b >= s.procs[p].npages {
        NoneDeadStays(s, s', b, dead);
      } else {
        VacuumedNoneDead(s.size, s.pages[b], dead);
      }
    }
  }

  lemma {:induction false} SweptStep(s: State, s': State, p: Pid, dead: set<Tid>)
    requires Inv(s) && Next(s, s') && NoReuse(s, dead)
    requires Swept(s, p, dead) && p in s'.procs
    ensures Swept(s', p, dead)
  {
    hide Next, Inv;
    VacuumMoves(s, s', p);
    forall b | 0 <= b < |s'.pages| && (b < s'.procs[p].blk || b >= s'.procs[p].npages)
      ensures NoneDead(s'.pages[b], dead)
    {
      SweptPage(s, s', p, dead, b);
    }
  }

  ghost predicate Vacuuming(run: seq<State>, i: nat, j: nat, p: Pid, dead: set<Tid>) {
    && i < j < |run|
    && BeginVacuum(run[i], run[i + 1], p, dead)
    && forall k | i < k <= j :: p in run[k].procs
  }

  lemma {:induction false} SweptThroughout(run: seq<State>, i: nat, j: nat, p: Pid, dead: set<Tid>)
    requires IsRun(run) && Vacuuming(run, i, j, p, dead)
    requires forall k | i <= k < j :: NoReuse(run[k], dead)
    ensures Swept(run[j], p, dead)
  {
    hide Next;
    if j == i + 1 {
      InvariantAt(run, j);
    } else {
      SweptThroughout(run, i, j - 1, p, dead);
      InvariantAt(run, j - 1);
      assert Next(run[j - 1], run[j - 1 + 1]);
      SweptStep(run[j - 1], run[j], p, dead);
    }
  }

  /** When a bulk deletion has passed all its pages, no page of the index holds a tuple
      it was asked to delete, although insertions ran all along and the file may have grown. */
  lemma {:induction false} BulkDeleteIsComplete(run: seq<State>, i: nat, j: nat, p: Pid, dead: set<Tid>, b: Block)
    requires IsRun(run) && Vacuuming(run, i, j, p, dead)
    requires forall k | i <= k < j :: NoReuse(run[k], dead)
    requires b < |run[j].pages|
    ensures var proc := run[j].procs[p];
            proc.Vacuum? && (proc.blk >= proc.npages ==> NoneDead(run[j].pages[b], dead))
  {
    SweptThroughout(run, i, j, p, dead);
  }
}
