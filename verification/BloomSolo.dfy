/**
 What one operation of the bloom access method does when no other backend moves meanwhile
 (contrib/bloom/blinsert.c, blvacuum.c, blscan.c): where an insertion puts its tuple and which
 hint it leaves, how a sequence of insertions fills the index, and what a bulk deletion, a
 cleanup and a scan leave behind.
 */
module BloomSolo {
  import opened Wrappers
  import opened BloomPage
  import opened BloomSignature
  import opened BloomIndex
  import opened BloomRuns

  /** From state i to state j only backend p moves. */
  ghost predicate Alone(run: seq<State>, i: nat, j: nat, p: Pid) {
    i <= j < |run| && forall k | i <= k < j :: MovesAt(run, k, p)
  }

  ghost predicate MovesAt(run: seq<State>, k: nat, p: Pid) {
    k + 1 < |run| && Moves(run[k], run[k + 1], p)
  }

  ghost predicate Moves(s: State, s': State, p: Pid) {
    exists step :: Takes(s, s', p, step)
  }

  // ----- one insertion -----

  /** The page takes one more tuple: it is new, deleted or below its capacity. */
  predicate HasRoom(size: nat, page: Page)
    requires size > 0
  {
    page.NewPage? || page.deleted || |page.items| < Capacity(size)
  }

  /** The k-th hint names a page with room. */
  ghost predicate RoomAt(s: State, k: nat) {
    s.size > 0 && k < |s.meta.notFullPage| && s.meta.notFullPage[k] < |s.pages| &&
    HasRoom(s.size, s.pages[s.meta.notFullPage[k]])
  }

  /** The first hint of the window with room. */
  ghost predicate FirstRoom(s: State, k: nat) {
    s.meta.nStart <= k < s.meta.nEnd && RoomAt(s, k) && forall m | s.meta.nStart <= m < k :: !RoomAt(s, m)
  }

  ghost predicate NoRoom(s: State) {
    forall k | s.meta.nStart <= k < s.meta.nEnd :: !RoomAt(s, k)
  }

  /** The tuples that stay on a page when one is added: none of a new or deleted page. */
  function Live(page: Page): seq<Tuple> {
    if page.NewPage? || page.deleted then [] else page.items
  }

  /** The tuple joined the page of the k-th hint, where the window of hints now begins. */
  ghost predicate JoinedAt(s: State, s': State, t: Tuple, k: nat) {
    && k < |s.meta.notFullPage|
    && var b := s.meta.notFullPage[k];
       && b < |s.pages| && s'.pages == s.pages[b := DataPage(false, Live(s.pages[b]) + [t])]
       && s'.meta == s.meta.(nStart := k) && s'.fsm == s.fsm
  }

  /** The tuple is alone on block b, a free one or a new one at the end, and b is the only hint. */
  ghost predicate SettledAt(s: State, s': State, t: Tuple, b: Block) {
    && 0 < |s.meta.notFullPage| && s'.meta == Meta(0, 1, s.meta.notFullPage[0 := b]) && s'.fsm <= s.fsm
    && (|| (b == |s.pages| && s'.pages == s.pages + [DataPage(false, [t])])
        || (&& b in s.fsm && b < |s.pages| && (s.pages[b].NewPage? || s.pages[b].deleted)
            && s'.pages == s.pages[b := DataPage(false, [t])]))
  }

  /** The outcome of an insertion that ran alone. */
  ghost predicate Placed(s: State, s': State, p: Pid, t: Tuple) {
    && s'.size == s.size && s'.procs == s.procs - {p}
    && s'.inserted == s.inserted + multiset{t} && s'.removed == s.removed
    && (forall k | FirstRoom(s, k) :: JoinedAt(s, s', t, k))
    && (NoRoom(s) ==> exists b :: SettledAt(s, s', t, b))
  }

  /** The state of an insertion that began in s. */
  ghost predicate Inserting1(s: State, c: State, p: Pid, t: Tuple) {
    if p !in c.procs then Placed(s, c, p, t)
    else
      match c.procs[p]
      case InsertBegin(u) => u == t && c == s.(procs := s.procs[p := InsertBegin(t)])
      case InsertTry(u, b) =>
        && u == t && s.meta.nStart < s.meta.nEnd && s.meta.nStart < |s.meta.notFullPage|
        && b == s.meta.notFullPage[s.meta.nStart] && c == s.(procs := s.procs[p := InsertTry(t, b)])
      case InsertWait(u, tried) =>
        && u == t && c == s.(procs := s.procs[p := InsertWait(t, tried)])
        && if tried.None? then s.meta.nStart >= s.meta.nEnd
           else
             && s.meta.nStart < s.meta.nEnd && s.meta.nStart < |s.meta.notFullPage|
             && tried.value == s.meta.notFullPage[s.meta.nStart] && !RoomAt(s, s.meta.nStart)
      case InsertLoop(u, cur) =>
        && u == t && c == s.(owner := Some(p), procs := s.procs[p := InsertLoop(t, cur)])
        && s.meta.nStart <= cur && forall m | s.meta.nStart <= m < cur :: !RoomAt(s, m)
      case InsertAlloc(u) =>
        && u == t && NoRoom(s) && c.fsm <= s.fsm
        && c == s.(owner := Some(p), fsm := c.fsm, procs := s.procs[p := InsertAlloc(t)])
      case InsertCandidate(u, b) =>
        && u == t && NoRoom(s) && c.fsm <= s.fsm && b in s.fsm
        && c == s.(owner := Some(p), fsm := c.fsm, procs := s.procs[p := InsertCandidate(t, b)])
      case InsertExtended(u, b) =>
        && u == t && NoRoom(s) && c.fsm <= s.fsm && b == |s.pages|
        && c == s.(owner := Some(p), fsm := c.fsm, pages := s.pages + [NewPage],
                   procs := s.procs[p := InsertExtended(t, b)])
      case _ => false
  }

  lemma {:induction false} RoomIsFits(size: nat, page: Page, t: Tuple)
    requires 8 <= size <= 518
    ensures Fits(size, |Prepared(page).items|) <==> HasRoom(size, page)
    ensures Appended(page, t) == DataPage(false, Live(page) + [t])
  {
    FitsIffBelowCapacity(size, |Prepared(page).items|);
    EmptyPageFits(size);
  }

  /** The hint read without the lock is tried. */
  lemma {:induction false} TryAlone(s: State, c: State, c': State, p: Pid, t: Tuple)
    requires PagesOk(s) && MetaOk(s) && p !in s.procs && Inserting1(s, c, p, t) && TryHint(c, c', p)
    ensures Inserting1(s, c', p, t)
  {
    hide Fits, Capacity, HasRoom, Appended, Prepared;
    var k := s.meta.nStart;
    var b := s.meta.notFullPage[k];
    assert IsData(s.pages, b);
    RoomIsFits(s.size, s.pages[b], t);
    if HasRoom(s.size, s.pages[b]) {
      assert FirstRoom(s, k) && JoinedAt(s, c', t, k);
      OneFirst(s, k);
      assert c'.procs == s.procs - {p};
    }
  }

  /** No other hint is the first one with room. */
  lemma {:induction false} OneFirst(s: State, k: nat)
    requires FirstRoom(s, k)
    ensures !NoRoom(s) && forall m | FirstRoom(s, m) :: m == k
  {
    hide RoomAt;
  }

  lemma {:induction false} LoopAlone(s: State, c: State, c': State, p: Pid, t: Tuple)
    requires PagesOk(s) && MetaOk(s) && p !in s.procs && Inserting1(s, c, p, t) && LoopHint(c, c', p)
    ensures Inserting1(s, c', p, t)
  {
    hide Fits, Capacity, HasRoom, Appended, Prepared;
    var k := c.procs[p].cur;
    if k < s.meta.nEnd {
      var b := s.meta.notFullPage[k];
      assert IsData(s.pages, b);
      RoomIsFits(s.size, s.pages[b], t);
      if HasRoom(s.size, s.pages[b]) {
        assert FirstRoom(s, k) && JoinedAt(s, c', t, k);
        OneFirst(s, k);
        assert c'.procs == s.procs - {p};
      }
    }
  }

  /** A page is taken over or added. */
  lemma {:induction false} AllocAlone(s: State, c: State, c': State, p: Pid, t: Tuple, step: Step)
    requires PagesOk(s) && MetaOk(s) && p !in s.procs && Inserting1(s, c, p, t)
    requires Takes(c, c', p, step) && (step.SCheckCandidate? || step.SUseExtended?)
    ensures Inserting1(s, c', p, t)
  {
    hide RoomAt, Fits, Prepared, Appended;
    var b := c.procs[p].blk;
    if p !in c'.procs {
      assert SettledAt(s, c', t, b);
      assert c'.procs == s.procs - {p};
      assert forall k | FirstRoom(s, k) :: RoomAt(s, k);
    }
  }

  /** Every step of an insertion that runs alone leads to its outcome. */
  lemma {:induction false} InsertStepAlone(s: State, c: State, c': State, p: Pid, t: Tuple, step: Step)
    requires PagesOk(s) && MetaOk(s) && p !in s.procs && p in c.procs
    requires Inserting1(s, c, p, t) && Takes(c, c', p, step)
    ensures Inserting1(s, c', p, t)
  {
    hide RoomAt, Fits, Prepared, Appended, Reusable, Placed, PagesOk, MetaOk;
    match step
    case STryHint => TryAlone(s, c, c', p, t);
    case SLoopHint => LoopAlone(s, c, c', p, t);
    case SCheckCandidate(_) => AllocAlone(s, c, c', p, t, step);
    case SUseExtended => AllocAlone(s, c, c', p, t, step);
    case _ => OtherAlone(s, c, c', p, t, step);
  }

  lemma {:induction false} OtherAlone(s: State, c: State, c': State, p: Pid, t: Tuple, step: Step)
    requires p !in s.procs && p in c.procs && Inserting1(s, c, p, t) && Takes(c, c', p, step)
    requires !step.STryHint? && !step.SLoopHint? && !step.SCheckCandidate? && !step.SUseExtended?
    ensures Inserting1(s, c', p, t)
  {
    hide RoomAt, Reusable, Placed, Listed, Vacuumed, Removed, Matches;
    assert step.SReadHint? || step.SLockMeta? || step.STakeFree? || step.SExtendFile?;
  }

  lemma {:induction false} InsertThrough(run: seq<State>, i: nat, j: nat, p: Pid, t: Tuple)
    requires IsRun(run) && i < j && Alone(run, i, j, p) && p !in run[i].procs
    requires BeginInsert(run[i], run[i + 1], p, t) && forall k | i < k < j :: p in run[k].procs
    ensures Inserting1(run[i], run[j], p, t)
  {
    hide Takes, Placed, PagesOk, MetaOk;
    if j == i + 1 {
      assert run[j].procs[p] == InsertBegin(t);
    } else {
      InsertThrough(run, i, j - 1, p, t);
      InvariantAt(run, i);
      assert MovesAt(run, j - 1, p);
      var step :| Takes(run[j - 1], run[j], p, step);
      InsertStepAlone(run[i], run[j - 1], run[j], p, t, step);
    }
  }

  /** An insertion that runs alone adds its tuple to the first listed page with room, and the
      window of hints then begins there; only without such a page it takes a free page or adds
      one, which becomes the only hint. */
  lemma {:induction false} InsertAlone(run: seq<State>, i: nat, j: nat, p: Pid, t: Tuple)
    requires IsRun(run) && i < j && Alone(run, i, j, p) && p !in run[i].procs
    requires BeginInsert(run[i], run[i + 1], p, t)
    requires p !in run[j].procs && forall k | i < k < j :: p in run[k].procs
    ensures Placed(run[i], run[j], p, t)
  {
    hide Takes, Placed;
    InsertThrough(run, i, j, p, t);
  }

  // ----- insertions one after another -----

  /** A block with as many tuples as fit. */
  ghost predicate Full(s: State, b: Block) {
    s.size > 0 && b < |s.pages| && s.pages[b].DataPage? && !s.pages[b].deleted &&
    |s.pages[b].items| == Capacity(s.size)
  }

  /** Full pages and a last one that holds the rest and is the only hint. */
  ghost predicate Packed(s: State, n: nat) {
    && s.fsm == {} && |s.pages| >= 1 && 8 <= s.size <= 518 && |s.inserted| == n
    && s.meta.nStart == 0 && |s.meta.notFullPage| == META_BLOCKS
    && var d := |s.pages| - 1;
       if d == 0 then n == 0 && s.meta.nEnd == 0
       else
         && s.meta.nEnd == 1 && s.meta.notFullPage[0] == d
         && (forall b | 1 <= b < d :: Full(s, b))
         && s.pages[d].DataPage? && !s.pages[d].deleted && 1 <= |s.pages[d].items| <= Capacity(s.size)
         && n == (d - 1) * Capacity(s.size) + |s.pages[d].items|
  }

  lemma {:induction false} PackedGrows(s: State, s': State, p: Pid, t: Tuple, n: nat)
    requires Packed(s, n) && Placed(s, s', p, t)
    ensures Packed(s', n + 1)
  {
    hide Capacity;
    EmptyPageFits(s.size);
    var d, cap := |s.pages| - 1, Capacity(s.size);
    assert |s'.inserted| == n + 1;
    if d > 0 && |s.pages[d].items| < cap {
      assert FirstRoom(s, 0);
      assert JoinedAt(s, s', t, 0);
      forall b | 1 <= b < d
        ensures Full(s', b)
      {
        assert Full(s, b);
      }
    } else {
      assert NoRoom(s);
      var b :| SettledAt(s, s', t, b);
      assert b == d + 1 && |s'.pages| == d + 2;
      forall c | 1 <= c <= d
        ensures Full(s', c)
      {
        assert Full(s, c);
      }
      assert d > 0 ==> d * cap == (d - 1) * cap + cap;
    }
  }

  ghost predicate InsertionStep(step: Step) {
    || step.SBeginInsert? || step.SReadHint? || step.STryHint? || step.SLockMeta? || step.SLoopHint?
    || step.STakeFree? || step.SCheckCandidate? || step.SExtendFile? || step.SUseExtended?
  }

  ghost predicate Inserts(s: State, s': State, p: Pid) {
    exists step :: InsertionStep(step) && Takes(s, s', p, step)
  }

  /** One backend inserts tuples one after another into an index without data pages. */
  ghost predicate Filling(run: seq<State>, p: Pid) {
    && IsRun(run) && |run[0].pages| == 1
    && forall i | 0 <= i < |run| - 1 :: Inserts(run[i], run[i + 1], p)
  }

  /** Between insertions the index is packed, and during one it was when it began. */
  ghost predicate FillingAt(s: State, p: Pid) {
    if p !in s.procs then s.procs == map[] && exists n :: Packed(s, n)
    else exists s0, t, n :: BegunFrom(s0, s, p, t, n)
  }

  ghost predicate BegunFrom(s0: State, s: State, p: Pid, t: Tuple, n: nat) {
    Packed(s0, n) && s0.procs == map[] && PagesOk(s0) && MetaOk(s0) && Inserting1(s0, s, p, t)
  }

  lemma {:induction false} FillingStep(s: State, s': State, p: Pid)
    requires FillingAt(s, p) && PagesOk(s) && MetaOk(s) && Inserts(s, s', p)
    ensures FillingAt(s', p)
  {
    hide Packed, PagesOk, MetaOk, Inserting1, Placed;
    var step :| InsertionStep(step) && Takes(s, s', p, step);
    if p in s.procs {
      var s0, t, n :| BegunFrom(s0, s, p, t, n);
      InsertStepAlone(s0, s, s', p, t, step);
      if p in s'.procs {
        assert BegunFrom(s0, s', p, t, n);
      } else {
        Done(s0, s', p, t);
        PackedGrows(s0, s', p, t, n);
      }
    } else {
      var n :| Packed(s, n);
      NoneInside(s, s', p, step);
      Begun(s, s', p, step.t);
      assert BegunFrom(s, s', p, step.t, n);
    }
  }

  lemma {:induction false} NoneInside(s: State, s': State, p: Pid, step: Step)
    requires p !in s.procs && InsertionStep(step) && Takes(s, s', p, step)
    ensures step.SBeginInsert?
  {
    hide Fits, Prepared, Appended;
  }

  lemma {:induction false} Done(s: State, s': State, p: Pid, t: Tuple)
    requires Inserting1(s, s', p, t) && p !in s'.procs && s.procs == map[]
    ensures Placed(s, s', p, t) && s'.procs == map[]
  {
    hide JoinedAt, SettledAt;
  }

  lemma {:induction false} Begun(s: State, s': State, p: Pid, t: Tuple)
    requires BeginInsert(s, s', p, t)
    ensures Inserting1(s, s', p, t) && p in s'.procs
  {
  }

  lemma {:induction false} FillingHolds(run: seq<State>, p: Pid, i: nat)
    requires Filling(run, p) && i < |run|
    ensures FillingAt(run[i], p)
  {
    hide Inserts, Next;
    if i == 0 {
      StartsPacked(run[0]);
    } else {
      FillingHolds(run, p, i - 1);
      InvariantAt(run, i - 1);
      assert Inserts(run[i - 1], run[i - 1 + 1], p);
      FillingStep(run[i - 1], run[i], p);
    }
  }

  lemma {:induction false} StartsPacked(s: State)
    requires Init(s) && |s.pages| == 1
    ensures s.procs == map[] && Packed(s, 0)
  {
    assert s.pages[..0] == [];
    assert Stored(s.pages) == multiset{};
  }

  /** Whenever none of them is under way, n insertions one after another have made exactly as many
      data pages as n tuples need. */
  lemma {:induction false} FillsPages(run: seq<State>, p: Pid, i: nat)
    requires Filling(run, p) && i < |run| && p !in run[i].procs
    ensures run[i].size > 0 && Capacity(run[i].size) > 0
    ensures var n, cap := |run[i].inserted|, Capacity(run[i].size);
            && |run[i].pages| - 1 == (n + cap - 1) / cap
            && forall b | 1 <= b < |run[i].pages| :: run[i].pages[b].DataPage? && !run[i].pages[b].deleted
  {
    FillingHolds(run, p, i);
    var s := run[i];
    var n :| Packed(s, n);
    PackedPages(s, n);
  }

  lemma {:induction false} PackedPages(s: State, n: nat)
    requires Packed(s, n)
    ensures s.size > 0 && Capacity(s.size) > 0 && n == |s.inserted|
    ensures |s.pages| - 1 == (n + Capacity(s.size) - 1) / Capacity(s.size)
    ensures forall b | 1 <= b < |s.pages| :: s.pages[b].DataPage? && !s.pages[b].deleted
  {
    hide Capacity;
    EmptyPageFits(s.size);
    var d, cap := |s.pages| - 1, Capacity(s.size);
    forall b | 1 <= b < |s.pages|
      ensures s.pages[b].DataPage? && !s.pages[b].deleted
    {
      assert b < d ==> Full(s, b);
    }
    if d > 0 {
      Quotient(n + cap - 1, cap, d, |s.pages[d].items| - 1);
      assert d * cap == (d - 1) * cap + cap;
    } else {
      Quotient(cap - 1, cap, 0, cap - 1);
    }
  }

  lemma {:induction false} Quotient(a: nat, cap: nat, q: nat, r: nat)
    requires cap > 0 && r < cap && a == q * cap + r
    ensures a / cap == q
  {
    var x := a / cap;
    assert a == x * cap + a % cap;
    assert x < q ==> (x + 1) * cap <= q * cap;
    assert x > q ==> (q + 1) * cap <= x * cap;
  }

  // ----- a bulk deletion, a cleanup and a scan -----

  /** A page after bulk deletion: new and deleted pages are as before; of the others just the
      dead tuples are gone, and a page that lost its last tuple is flagged deleted. */
  ghost predicate Swept1(page: Page, page': Page, dead: set<Tid>) {
    if page.NewPage? || page.deleted then page' == page
    else
      && page'.DataPage? && (page'.deleted <==> page'.items == [] && page.items != [])
      && (forall t :: t in page'.items <==> t in page.items && t.heapPtr !in dead)
      && exists picks :: PicksFrom(picks, page'.items, page.items) && TakesAll(picks, page.items, dead)
  }

  /** Every tuple that is not dead is among the picks. */
  ghost predicate TakesAll(picks: seq<nat>, items: seq<Tuple>, dead: set<Tid>) {
    forall k: nat | k < |items| && items[k].heapPtr !in dead :: k in picks
  }

  /** The block is on a page that keeps tuples and has room for more. */
  ghost predicate Partial(s: State, b: Block) {
    s.size > 0 && 1 <= b < |s.pages| && s.pages[b].DataPage? && !s.pages[b].deleted &&
    0 < |s.pages[b].items| < Capacity(s.size)
  }

  /** The first META_BLOCKS partially filled blocks below n, in order. */
  ghost predicate FirstPartial(s: State, l: seq<Block>, n: nat) {
    && |l| <= META_BLOCKS
    && (forall k | 0 <= k < |l| :: l[k] < n && Partial(s, l[k]))
    && (forall k, m | 0 <= k < m < |l| :: l[k] < l[m])
    && forall b: Block | b < n && Partial(s, b) && b !in l :: |l| == META_BLOCKS && forall k | 0 <= k < |l| :: l[k] < b
  }

  ghost predicate SweptTo(s: State, c: State, dead: set<Tid>, n: nat) {
    && |c.pages| == |s.pages| && n <= |s.pages|
    && (forall b | 1 <= b < n :: Swept1(s.pages[b], c.pages[b], dead))
    && forall b | 0 <= b < |s.pages| && (b == 0 || n <= b) :: c.pages[b] == s.pages[b]
  }

  /** Where a bulk deletion that began in s and runs alone is. */
  ghost predicate Sweeping1(s: State, c: State, p: Pid, dead: set<Tid>) {
    if p !in c.procs then SweptAll(s, c, p, dead)
    else
      && c.procs[p].Vacuum?
      && var Vacuum(d, n, b, l) := c.procs[p];
         && d == dead && n == |s.pages| && 1 <= b <= n && SweptTo(s, c, dead, b) && FirstPartial(c, l, b)
         && c == s.(pages := c.pages, removed := c.removed, procs := s.procs[p := c.procs[p]])
  }

  /** What a bulk deletion that ran alone leaves: every page swept, and as hints the first
      partially filled pages. */
  ghost predicate SweptAll(s: State, c: State, p: Pid, dead: set<Tid>) {
    && SweptTo(s, c, dead, |s.pages|)
    && c.meta.nStart == 0 && c.meta.nEnd <= |c.meta.notFullPage|
    && FirstPartial(c, c.meta.notFullPage[..c.meta.nEnd], |c.pages|)
    && c == s.(pages := c.pages, meta := c.meta, removed := c.removed, procs := s.procs - {p})
  }

  lemma {:induction false} VacuumedIsSwept(page: Page, dead: set<Tid>)
    ensures Swept1(page, Vacuumed(page, dead), dead)
  {
    if !Reusable(page) {
      var picks := SurvivorsPicks(page.items, dead);
      forall t: Tuple
        ensures t in Survivors(page.items, dead) <==> t in page.items && t.heapPtr !in dead
      {
        SurvivorOrVictim(page.items, dead, t);
      }
    }
  }

  lemma {:induction false} SurvivorsPicks(items: seq<Tuple>, dead: set<Tid>) returns (picks: seq<nat>)
    ensures PicksFrom(picks, Survivors(items, dead), items) && TakesAll(picks, items, dead)
  {
    picks := [];
    if items != [] {
      var n := |items| - 1;
      var front := SurvivorsPicks(items[..n], dead);
      picks := if items[n].heapPtr in dead then front else front + [n];
      PicksGrow(front, Survivors(items[..n], dead), items, dead);
    }
  }

  /** One more tuple is picked unless it is dead. */
  lemma {:induction false} PicksGrow(front: seq<nat>, part: seq<Tuple>, items: seq<Tuple>, dead: set<Tid>)
    requires items != [] && PicksFrom(front, part, items[..|items| - 1])
    requires TakesAll(front, items[..|items| - 1], dead)
    ensures var n := |items| - 1;
            if items[n].heapPtr in dead then PicksFrom(front, part, items) && TakesAll(front, items, dead)
            else PicksFrom(front + [n], part + [items[n]], items) && TakesAll(front + [n], items, dead)
  {
    var n := |items| - 1;
    forall k: nat | k < n && items[k].heapPtr !in dead
      ensures k in front
    {
      assert items[..n][k] == items[k];
    }
    forall k | 0 <= k < |front|
      ensures front[k] < n && items[front[k]] == part[k]
    {
      assert items[..n][front[k]] == part[k];
    }
  }

  lemma {:induction false} PartialGrows(c: State, c': State, l: seq<Block>, b: Block)
    requires 1 <= b < |c.pages| && FirstPartial(c, l, b) && c'.size == c.size
    requires |c'.pages| == |c.pages| && forall k | 0 <= k < |c.pages| && k != b :: c'.pages[k] == c.pages[k]
    ensures FirstPartial(c', Listed(c.size, l, b, c'.pages[b]), b + 1)
  {
    hide Capacity;
    var l' := Listed(c.size, l, b, c'.pages[b]);
    assert Partial(c', b) <==> Offered(c.size, c'.pages[b]);
    forall k | 0 <= k < |l'|
      ensures l'[k] < b + 1 && Partial(c', l'[k])
    {
      assert k < |l| ==> Partial(c, l[k]);
    }
    forall d: Block | d < b + 1 && Partial(c', d) && d !in l'
      ensures |l'| == META_BLOCKS && forall k | 0 <= k < |l'| :: l'[k] < d
    {
      assert d < b ==> Partial(c, d) && d !in l;
      assert d == b ==> l' == l;
    }
  }

  lemma {:induction false} VacuumPageAlone(s: State, c: State, c': State, p: Pid, dead: set<Tid>)
    requires p in c.procs && Sweeping1(s, c, p, dead) && VacuumPage(c, c', p)
    ensures Sweeping1(s, c', p, dead)
  {
    hide Swept1, FirstPartial, Listed, Vacuumed, Removed;
    var Vacuum(_, n, b, l) := c.procs[p];
    VacuumedIsSwept(c.pages[b], dead);
    PartialGrows(c, c', l, b);
    assert SweptTo(s, c', dead, b + 1);
  }

  lemma {:induction false} EndVacuumAlone(s: State, c: State, c': State, p: Pid, dead: set<Tid>)
    requires p !in s.procs && p in c.procs && Sweeping1(s, c, p, dead) && EndVacuum(c, c', p)
    ensures Sweeping1(s, c', p, dead)
  {
    hide Swept1;
    var Vacuum(_, n, b, l) := c.procs[p];
    assert c'.meta.notFullPage[..c'.meta.nEnd] == l;
    assert c'.procs == s.procs - {p};
    forall k: Block
      ensures Partial(c', k) == Partial(c, k)
    {
    }
  }

  lemma {:induction false} SweepBegins(s: State, c: State, p: Pid, dead: set<Tid>)
    requires |s.pages| >= 1 && BeginVacuum(s, c, p, dead)
    ensures Sweeping1(s, c, p, dead)
  {
    hide Swept1;
  }

  lemma {:induction false} SweepThrough(run: seq<State>, i: nat, j: nat, p: Pid, dead: set<Tid>)
    requires IsRun(run) && i < j && Alone(run, i, j, p) && p !in run[i].procs
    requires BeginVacuum(run[i], run[i + 1], p, dead) && forall k | i < k < j :: p in run[k].procs
    ensures Sweeping1(run[i], run[j], p, dead)
  {
    hide Takes, Sweeping1, BeginVacuum, BeginCleanup, BeginScan;
    InvariantAt(run, i);
    if j == i + 1 {
      SweepBegins(run[i], run[j], p, dead);
    } else {
      SweepThrough(run, i, j - 1, p, dead);
      assert MovesAt(run, j - 1, p);
      var step :| Takes(run[j - 1], run[j], p, step);
      SweepStepAlone(run[i], run[j - 1], run[j], p, dead, step);
    }
  }

  lemma {:induction false} SweepStepAlone(s: State, c: State, c': State, p: Pid, dead: set<Tid>, step: Step)
    requires p !in s.procs && p in c.procs && Sweeping1(s, c, p, dead) && Takes(c, c', p, step)
    ensures Sweeping1(s, c', p, dead)
  {
    hide SweptTo, FirstPartial, SweptAll;
    assert step.SVacuumPage? || step.SEndVacuum?;
    if step.SVacuumPage? {
      VacuumPageAlone(s, c, c', p, dead);
    } else {
      EndVacuumAlone(s, c, c', p, dead);
    }
  }

  /** A bulk deletion that runs alone takes just the dead tuples off every page, flags the pages
      it emptied, and leaves as hints the first partially filled pages in order. */
  lemma {:induction false} VacuumAlone(run: seq<State>, i: nat, j: nat, p: Pid, dead: set<Tid>)
    requires IsRun(run) && i < j && Alone(run, i, j, p)
    requires BeginVacuum(run[i], run[i + 1], p, dead)
    requires p !in run[j].procs && forall k | i < k < j :: p in run[k].procs
    ensures SweptAll(run[i], run[j], p, dead)
  {
    hide SweptAll;
    SweepThrough(run, i, j, p, dead);
  }

  /** The blocks below n of new and deleted pages. */
  function Spare(pages: seq<Page>, n: nat): set<Block>
    requires n <= |pages|
  {
    set b | 1 <= b < n && (pages[b].NewPage? || pages[b].deleted)
  }

  ghost predicate Cleaning1(s: State, c: State, p: Pid) {
    if p !in c.procs then c == s.(fsm := s.fsm + Spare(s.pages, |s.pages|), procs := s.procs - {p})
    else
      && c.procs[p].Cleanup?
      && var Cleanup(n, b) := c.procs[p];
         && n == |s.pages| && 1 <= b <= n
         && c == s.(fsm := s.fsm + Spare(s.pages, b), procs := s.procs[p := c.procs[p]])
  }

  lemma {:induction false} CleanStepAlone(s: State, c: State, c': State, p: Pid, step: Step)
    requires p !in s.procs && p in c.procs && Cleaning1(s, c, p) && Takes(c, c', p, step)
    ensures Cleaning1(s, c', p)
  {
    assert step.SCleanupPage? || step.SEndCleanup?;
    if step.SCleanupPage? {
      var b := c.procs[p].blk;
      assert Spare(s.pages, b + 1) == Spare(s.pages, b) + if Reusable(s.pages[b]) then {b} else {};
    } else {
      assert c'.procs == s.procs - {p};
    }
  }

  /** A cleanup that runs alone adds to the free space map just the new and the deleted pages. */
  lemma {:induction false} CleanupAlone(run: seq<State>, i: nat, j: nat, p: Pid)
    requires IsRun(run) && i < j && Alone(run, i, j, p)
    requires BeginCleanup(run[i], run[i + 1], p)
    requires p !in run[j].procs && forall k | i < k < j :: p in run[k].procs
    ensures var s := run[i];
            run[j] == s.(fsm := s.fsm + Spare(s.pages, |s.pages|), procs := s.procs - {p})
  {
    CleanThrough(run, i, j, p);
  }

  lemma {:induction false} CleanBegins(s: State, c: State, p: Pid)
    requires |s.pages| >= 1 && BeginCleanup(s, c, p)
    ensures Cleaning1(s, c, p)
  {
    assert s.fsm + Spare(s.pages, 1) == s.fsm;
  }

  lemma {:induction false} CleanThrough(run: seq<State>, i: nat, j: nat, p: Pid)
    requires IsRun(run) && i < j && Alone(run, i, j, p) && p !in run[i].procs
    requires BeginCleanup(run[i], run[i + 1], p) && forall k | i < k < j :: p in run[k].procs
    ensures Cleaning1(run[i], run[j], p)
  {
    hide Takes, Cleaning1, BeginVacuum, BeginCleanup, BeginScan;
    InvariantAt(run, i);
    if j == i + 1 {
      CleanBegins(run[i], run[j], p);
    } else {
      CleanThrough(run, i, j - 1, p);
      assert MovesAt(run, j - 1, p);
      var step :| Takes(run[j - 1], run[j], p, step);
      CleanStepAlone(run[i], run[j - 1], run[j], p, step);
    }
  }

  /** The heap pointer of some tuple on the pages below n has all the bits of the signature. */
  ghost predicate Answers(pages: seq<Page>, n: nat, sign: seq<Word>, tid: Tid) {
    exists b, t :: 1 <= b < n && b < |pages| && AnswersAt(pages[b], sign, t) && t.heapPtr == tid
  }

  ghost predicate AnswersAt(page: Page, sign: seq<Word>, t: Tuple) {
    page.DataPage? && t in page.items && Covers(t.sign, sign)
  }

  ghost predicate Scanning1(s: State, c: State, p: Pid, sign: seq<Word>) {
    && p in c.procs && c.procs[p].Scan?
    && var Scan(g, n, b, found) := c.procs[p];
       && g == sign && n == |s.pages| && 1 <= b <= n && c == s.(procs := s.procs[p := c.procs[p]])
       && forall tid :: tid in found <==> Answers(s.pages, b, sign, tid)
  }

  lemma {:induction false} ScanStepAlone(s: State, c: State, c': State, p: Pid, sign: seq<Word>, step: Step)
    requires PagesOk(s) && Scanning1(s, c, p, sign) && Takes(c, c', p, step) && p in c'.procs
    ensures Scanning1(s, c', p, sign)
  {
    hide Covers;
    assert step.SScanPage?;
    var Scan(_, n, b, found) := c.procs[p];
    assert PageOk(s.size, s.pages[b]);
    forall tid
      ensures tid in found + Matches(s.pages[b], sign) <==> Answers(s.pages, b + 1, sign, tid)
    {
      AnswersGrow(s.pages, b, sign, tid);
      assert tid in Matches(s.pages[b], sign) <==> exists t :: AnswersAt(s.pages[b], sign, t) && t.heapPtr == tid;
    }
  }

  lemma {:induction false} AnswersGrow(pages: seq<Page>, b: Block, sign: seq<Word>, tid: Tid)
    requires 1 <= b < |pages|
    ensures Answers(pages, b + 1, sign, tid) <==>
            Answers(pages, b, sign, tid) || exists t :: AnswersAt(pages[b], sign, t) && t.heapPtr == tid
  {
    hide AnswersAt;
  }

  /** A scan that runs alone and has passed all its pages has found just the heap pointers of
      the stored tuples with all the bits of the searched signature. */
  lemma {:induction false} ScanAlone(run: seq<State>, i: nat, j: nat, p: Pid, sign: seq<Word>)
    requires IsRun(run) && i < j && Alone(run, i, j, p)
    requires BeginScan(run[i], run[i + 1], p, sign) && forall k | i < k <= j :: p in run[k].procs
    ensures var proc := run[j].procs[p];
            && proc.Scan? && run[j] == run[i].(procs := run[i].procs[p := proc])
            && (proc.blk >= proc.npages ==>
                  forall tid :: tid in proc.found <==> Answers(run[i].pages, |run[i].pages|, sign, tid))
  {
    ScanThrough(run, i, j, p, sign);
  }

  lemma {:induction false} ScanBegins(s: State, c: State, p: Pid, sign: seq<Word>)
    requires |s.pages| >= 1 && BeginScan(s, c, p, sign)
    ensures Scanning1(s, c, p, sign)
  {
    hide AnswersAt;
  }

  lemma {:induction false} ScanThrough(run: seq<State>, i: nat, j: nat, p: Pid, sign: seq<Word>)
    requires IsRun(run) && i < j && Alone(run, i, j, p)
    requires BeginScan(run[i], run[i + 1], p, sign) && forall k | i < k <= j :: p in run[k].procs
    ensures Scanning1(run[i], run[j], p, sign)
  {
    hide Takes, Scanning1, BeginVacuum, BeginCleanup, BeginScan;
    InvariantAt(run, i);
    if j == i + 1 {
      ScanBegins(run[i], run[j], p, sign);
    } else {
      ScanThrough(run, i, j - 1, p, sign);
      assert MovesAt(run, j - 1, p);
      var step :| Takes(run[j - 1], run[j], p, step);
      ScanStepAlone(run[i], run[j - 1], run[j], p, sign, step);
    }
  }
}
