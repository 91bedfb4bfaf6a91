/**
 The bloom access method as a transition system (contrib/bloom/blinsert.c,
 blvacuum.c, blutils.c, blscan.c). Each step is what one backend does while it holds
 one set of buffer locks; between two steps any other backend may run. The metapage's
 exclusive lock is held across several steps of an insertion and is modelled by `owner`.
 */
module BloomIndex {
  import opened Wrappers
  import opened BloomPage
  import opened BloomSignature

  type Pid = nat
  type Block = nat

  /** BloomMetaBlockN: the block numbers that fit in the metapage. */
  const META_BLOCKS: nat := 2004

  datatype Meta = Meta(nStart: nat, nEnd: nat, notFullPage: seq<Block>)

  /** Where a backend is inside blinsert, blbulkdelete, blvacuumcleanup or blgetbitmap. */
  datatype Proc =
    | InsertBegin(t: Tuple)                            // tuple formed
    | InsertTry(t: Tuple, blk: Block)                  // hint read, metapage unlocked
    | InsertWait(t: Tuple, tried: Option<Block>)       // about to lock the metapage exclusively
    | InsertLoop(t: Tuple, cur: nat)                   // metapage locked, trying notFullPage[cur]
    | InsertAlloc(t: Tuple)                            // metapage locked, in BloomNewBuffer
    | InsertCandidate(t: Tuple, blk: Block)            // free space map proposed blk
    | InsertExtended(t: Tuple, blk: Block)             // file extended by blk, blk not locked yet
    | Vacuum(dead: set<Tid>, npages: nat, blk: Block, notFull: seq<Block>)
    | Cleanup(npages: nat, blk: Block)
    | Scan(sign: seq<Word>, npages: nat, blk: Block, found: set<Tid>)

  /** The index, the free space map, the backends, and what insertions and bulk
      deletions have completed so far. Block 0 is the metapage, kept in `meta`. */
  datatype State = State(
    size: nat,
    pages: seq<Page>,
    meta: Meta,
    owner: Option<Pid>,
    fsm: set<Block>,
    procs: map<Pid, Proc>,
    inserted: multiset<Tuple>,
    removed: multiset<Tuple>)

  /** The tuples on the first pages of the index. */
  ghost function Stored(pages: seq<Page>): multiset<Tuple> {
    if pages == [] then multiset{}
    else Stored(pages[..|pages| - 1]) + multiset(Items(pages[|pages| - 1]))
  }

  predicate HoldsMeta(proc: Proc) {
    proc.InsertLoop? || proc.InsertAlloc? || proc.InsertCandidate? || proc.InsertExtended?
  }

  // ----- steps of blinsert -----

  ghost predicate Move(s: State, s': State, p: Pid, proc: Proc) {
    s' == s.(procs := s.procs[p := proc])
  }

  /** A successful insertion writes the page, counts the tuple and ends. */
  ghost predicate Store(s: State, s': State, p: Pid, t: Tuple, blk: Block, page: Page, meta: Meta) {
    && blk < |s.pages|
    && s' == s.(pages := s.pages[blk := page], meta := meta,
                owner := if s.owner == Some(p) then None else s.owner,
                procs := s.procs - {p}, inserted := s.inserted + multiset{t})
  }

  ghost predicate BeginInsert(s: State, s': State, p: Pid, t: Tuple) {
    p !in s.procs && Move(s, s', p, InsertBegin(t))
  }

  /** Read the first hint under the shared metapage lock. */
  ghost predicate ReadHint(s: State, s': State, p: Pid) {
    && p in s.procs && s.procs[p].InsertBegin? && s.owner.None?
    && var t := s.procs[p].t;
       if s.meta.nEnd > s.meta.nStart then
         && s.meta.nStart < |s.meta.notFullPage|
         && Move(s, s', p, InsertTry(t, s.meta.notFullPage[s.meta.nStart]))
       else Move(s, s', p, InsertWait(t, None))
  }

  /** Try the hinted page, reinitialising it when it is new or deleted. */
  ghost predicate TryHint(s: State, s': State, p: Pid) {
    && p in s.procs && s.procs[p].InsertTry? && s.procs[p].blk < |s.pages|
    && var InsertTry(t, blk) := s.procs[p];
       if Fits(s.size, |Prepared(s.pages[blk]).items|)
       then Store(s, s', p, t, blk, Appended(s.pages[blk], t), s.meta)
       else Move(s, s', p, InsertWait(t, Some(blk)))
  }

  /** Lock the metapage; skip the first hint when it is the page already tried. */
  ghost predicate LockMeta(s: State, s': State, p: Pid) {
    && p in s.procs && s.procs[p].InsertWait? && s.owner.None?
    && var InsertWait(t, tried) := s.procs[p];
       var m := s.meta;
       var skip := m.nStart < m.nEnd && m.nStart < |m.notFullPage| && tried == Some(m.notFullPage[m.nStart]);
       s' == s.(owner := Some(p),
                procs := s.procs[p := InsertLoop(t, if skip then m.nStart + 1 else m.nStart)])
  }

  /** One round of the loop over the remaining hints. */
  ghost predicate LoopHint(s: State, s': State, p: Pid) {
    && p in s.procs && s.procs[p].InsertLoop?
    && var InsertLoop(t, cur) := s.procs[p];
       if cur >= s.meta.nEnd then Move(s, s', p, InsertAlloc(t))
       else
         && cur < |s.meta.notFullPage| && s.meta.notFullPage[cur] < |s.pages|
         && var blk := s.meta.notFullPage[cur];
            if Fits(s.size, |Prepared(s.pages[blk]).items|)
            then Store(s, s', p, t, blk, Appended(s.pages[blk], t), s.meta.(nStart := cur))
            else Move(s, s', p, InsertLoop(t, cur + 1))
  }

  /** The free space map hands out a block and forgets it. */
  ghost predicate TakeFree(s: State, s': State, p: Pid, blk: Block) {
    && p in s.procs && s.procs[p].InsertAlloc? && blk in s.fsm
    && s' == s.(fsm := s.fsm - {blk}, procs := s.procs[p := InsertCandidate(s.procs[p].t, blk)])
  }

  /** The new page holds just the new tuple and becomes the only hint. */
  ghost predicate Publish(s: State, s': State, p: Pid, t: Tuple, blk: Block) {
    && 0 < |s.meta.notFullPage|
    && Store(s, s', p, t, blk, DataPage(false, [t]), Meta(0, 1, s.meta.notFullPage[0 := blk]))
  }

  /** The proposed block is used when its buffer could be locked and the page is new
      or deleted; otherwise the allocation goes around again. */
  ghost predicate CheckCandidate(s: State, s': State, p: Pid, locked: bool) {
    && p in s.procs && s.procs[p].InsertCandidate? && s.procs[p].blk < |s.pages|
    && var InsertCandidate(t, blk) := s.procs[p];
       if locked && Reusable(s.pages[blk]) then Publish(s, s', p, t, blk)
       else Move(s, s', p, InsertAlloc(t))
  }

  /** The file grows by a page that is visible before it is locked. */
  ghost predicate ExtendFile(s: State, s': State, p: Pid) {
    && p in s.procs && s.procs[p].InsertAlloc?
    && s' == s.(pages := s.pages + [NewPage],
                procs := s.procs[p := InsertExtended(s.procs[p].t, |s.pages|)])
  }

  /** Lock the added page and initialise it, without looking at what it holds. */
  ghost predicate UseExtended(s: State, s': State, p: Pid) {
    && p in s.procs && s.procs[p].InsertExtended?
    && Publish(s, s', p, s.procs[p].t, s.procs[p].blk)
  }

  // ----- steps of VACUUM -----

  ghost predicate BeginVacuum(s: State, s': State, p: Pid, dead: set<Tid>) {
    p !in s.procs && Move(s, s', p, Vacuum(dead, |s.pages|, 1, []))
  }

  /** The not-full list after one page: pages kept and with room, as long as the list has room. */
  function Listed(size: nat, notFull: seq<Block>, blk: Block, page: Page): seq<Block> {
    if Offered(size, page) && |notFull| < META_BLOCKS then notFull + [blk] else notFull
  }

  function Removed(page: Page, dead: set<Tid>): multiset<Tuple> {
    if Reusable(page) then multiset{} else multiset(Victims(page.items, dead))
  }

  ghost predicate VacuumPage(s: State, s': State, p: Pid) {
    && p in s.procs && s.procs[p].Vacuum?
    && var Vacuum(dead, npages, blk, notFull) := s.procs[p];
       && blk < npages && blk < |s.pages|
       && var page := Vacuumed(s.pages[blk], dead);
          s' == s.(pages := s.pages[blk := page],
                   procs := s.procs[p := Vacuum(dead, npages, blk + 1, Listed(s.size, notFull, blk, page))],
                   removed := s.removed + Removed(s.pages[blk], dead))
  }

  /** Install the collected hints under the exclusive metapage lock. */
  ghost predicate EndVacuum(s: State, s': State, p: Pid) {
    && p in s.procs && s.procs[p].Vacuum? && s.owner.None?
    && var Vacuum(_, npages, blk, notFull) := s.procs[p];
       && blk >= npages && |notFull| <= |s.meta.notFullPage|
       && s' == s.(meta := Meta(0, |notFull|, notFull + s.meta.notFullPage[|notFull|..]),
                   procs := s.procs - {p})
  }

  ghost predicate BeginCleanup(s: State, s': State, p: Pid) {
    p !in s.procs && Move(s, s', p, Cleanup(|s.pages|, 1))
  }

  ghost predicate CleanupPage(s: State, s': State, p: Pid) {
    && p in s.procs && s.procs[p].Cleanup?
    && var Cleanup(npages, blk) := s.procs[p];
       && blk < npages && blk < |s.pages|
       && s' == s.(fsm := if Reusable(s.pages[blk]) then s.fsm + {blk} else s.fsm,
                   procs := s.procs[p := Cleanup(npages, blk + 1)])
  }

  ghost predicate EndCleanup(s: State, s': State, p: Pid) {
    && p in s.procs && s.procs[p].Cleanup? && s.procs[p].blk >= s.procs[p].npages
    && s' == s.(procs := s.procs - {p})
  }

  // ----- steps of a scan -----

  /** The heap pointers a scan collects from one page. */
  function Matches(page: Page, sign: seq<Word>): set<Tid> {
    if Reusable(page) then {} else set t | t in page.items && Covers(t.sign, sign) :: t.heapPtr
  }

  ghost predicate BeginScan(s: State, s': State, p: Pid, sign: seq<Word>) {
    p !in s.procs && Move(s, s', p, Scan(sign, |s.pages|, 1, {}))
  }

  ghost predicate ScanPage(s: State, s': State, p: Pid) {
    && p in s.procs && s.procs[p].Scan?
    && var Scan(sign, npages, blk, found) := s.procs[p];
       && blk < npages && blk < |s.pages|
       && Move(s, s', p, Scan(sign, npages, blk + 1, found + Matches(s.pages[blk], sign)))
  }

  ghost predicate EndScan(s: State, s': State, p: Pid) {
    && p in s.procs && s.procs[p].Scan? && s.procs[p].blk >= s.procs[p].npages
    && s' == s.(procs := s.procs - {p})
  }

  datatype Step =
    | SBeginInsert(t: Tuple) | SReadHint | STryHint | SLockMeta | SLoopHint
    | STakeFree(blk: Block) | SCheckCandidate(locked: bool) | SExtendFile | SUseExtended
    | SBeginVacuum(dead: set<Tid>) | SVacuumPage | SEndVacuum
    | SBeginCleanup | SCleanupPage | SEndCleanup
    | SBeginScan(sign: seq<Word>) | SScanPage | SEndScan

  ghost predicate Takes(s: State, s': State, p: Pid, step: Step) {
    match step
    case SBeginInsert(t) => BeginInsert(s, s', p, t)
    case SReadHint => ReadHint(s, s', p)
    case STryHint => TryHint(s, s', p)
    case SLockMeta => LockMeta(s, s', p)
    case SLoopHint => LoopHint(s, s', p)
    case STakeFree(blk) => TakeFree(s, s', p, blk)
    case SCheckCandidate(locked) => CheckCandidate(s, s', p, locked)
    case SExtendFile => ExtendFile(s, s', p)
    case SUseExtended => UseExtended(s, s', p)
    case SBeginVacuum(dead) => BeginVacuum(s, s', p, dead)
    case SVacuumPage => VacuumPage(s, s', p)
    case SEndVacuum => EndVacuum(s, s', p)
    case SBeginCleanup => BeginCleanup(s, s', p)
    case SCleanupPage => CleanupPage(s, s', p)
    case SEndCleanup => EndCleanup(s, s', p)
    case SBeginScan(sign) => BeginScan(s, s', p, sign)
    case SScanPage => ScanPage(s, s', p)
    case SEndScan => EndScan(s, s', p)
  }

  ghost predicate Next(s: State, s': State) {
    exists p, step :: Takes(s, s', p, step)
  }

  // ----- the invariant -----

  ghost predicate IsData(pages: seq<Page>, blk: Block) {
    1 <= blk < |pages| && pages[blk].DataPage?
  }

  ghost predicate PageOk(size: nat, page: Page)
    requires size > 0
  {
    page.DataPage? ==> |page.items| <= Capacity(size) && (page.deleted ==> page.items == [])
  }

  ghost predicate PagesOk(s: State) {
    // six bytes of heap pointer and 1 to 256 signature words
    && 8 <= s.size <= 518
    && |s.pages| >= 1 && s.pages[0] == NewPage
    && forall i | 0 <= i < |s.pages| :: PageOk(s.size, s.pages[i])
  }

  ghost predicate MetaOk(s: State) {
    && |s.meta.notFullPage| == META_BLOCKS
    && s.meta.nStart <= s.meta.nEnd <= META_BLOCKS
    && forall i | 0 <= i < s.meta.nEnd :: IsData(s.pages, s.meta.notFullPage[i])
  }

  ghost predicate ProcOk(s: State, proc: Proc) {
    match proc
    case InsertBegin(_) => true
    case InsertTry(_, blk) => IsData(s.pages, blk)
    case InsertWait(_, _) => true
    case InsertLoop(_, cur) => cur <= s.meta.nEnd
    case InsertAlloc(_) => true
    case InsertCandidate(_, blk) => 1 <= blk < |s.pages|
    case InsertExtended(_, blk) => 1 <= blk < |s.pages| && s.pages[blk].NewPage?
    case Vacuum(_, npages, blk, notFull) =>
      && 1 <= npages <= |s.pages| && 1 <= blk && |notFull| <= META_BLOCKS
      && forall i | 0 <= i < |notFull| :: IsData(s.pages, notFull[i])
    case Cleanup(npages, blk) => 1 <= npages <= |s.pages| && 1 <= blk
    case Scan(_, npages, blk, _) => 1 <= npages <= |s.pages| && 1 <= blk
  }

  ghost predicate ProcsOk(s: State) {
    && (forall p | p in s.procs :: ProcOk(s, s.procs[p]))
    && (forall p | p in s.procs :: HoldsMeta(s.procs[p]) <==> s.owner == Some(p))
    && (s.owner.Some? ==> s.owner.value in s.procs)
  }

  ghost predicate FsmOk(s: State) {
    forall b | b in s.fsm :: 1 <= b < |s.pages|
  }

  /** Nothing is lost and nothing is stored twice. */
  ghost predicate Conserved(s: State) {
    s.inserted == Stored(s.pages) + s.removed
  }

  ghost predicate Inv(s: State) {
    PagesOk(s) && MetaOk(s) && ProcsOk(s) && FsmOk(s) && Conserved(s)
  }

  /** What a build leaves: data pages, no hints, no free pages, nobody running. */
  ghost predicate Init(s: State) {
    && PagesOk(s)
    && s.meta.nStart == s.meta.nEnd == 0 && |s.meta.notFullPage| == META_BLOCKS
    && s.owner == None && s.fsm == {} && s.procs == map[]
    && s.inserted == Stored(s.pages) && s.removed == multiset{}
  }

  // ----- preservation -----

  lemma {:induction false} Shuffle(a: multiset<Tuple>, x: multiset<Tuple>, b: multiset<Tuple>, y: multiset<Tuple>, z: multiset<Tuple>)
    requires a + x == b + y
    ensures (a + z) + x == (b + z) + y
  {
    assert (a + z) + x == (a + x) + z;
    assert (b + z) + y == (b + y) + z;
  }

  lemma {:induction false} StoredUnfold(pages: seq<Page>)
    requires pages != []
    ensures Stored(pages) == Stored(pages[..|pages| - 1]) + multiset(Items(pages[|pages| - 1]))
  {
  }

  lemma {:induction false} StoredUpdate(pages: seq<Page>, i: nat, page: Page)
    requires i < |pages|
    ensures Stored(pages[i := page]) + multiset(Items(pages[i])) == Stored(pages) + multiset(Items(page))
  {
    hide Stored, Items;
    var n := |pages| - 1;
    var front, now := pages[..n], pages[i := page];
    StoredUnfold(pages);
    StoredUnfold(now);
    if i == n {
      assert now[..n] == front;
      Shuffle(multiset(Items(page)), multiset(Items(pages[i])), multiset(Items(pages[i])), multiset(Items(page)),
              Stored(front));
    } else {
      assert now[..n] == front[i := page];
      StoredUpdate(front, i, page);
      Shuffle(Stored(front[i := page]), multiset(Items(pages[i])), Stored(front), multiset(Items(page)),
              multiset(Items(pages[n])));
    }
  }

  /** A page rewritten with one more tuple, or with some tuples removed. */
  lemma {:induction false} ConservedUpdate(s: State, s': State, blk: Block, page: Page, gain: multiset<Tuple>, loss: multiset<Tuple>)
    requires Conserved(s) && blk < |s.pages|
    requires s'.pages == s.pages[blk := page]
    requires s'.inserted == s.inserted + gain && s'.removed == s.removed + loss
    requires multiset(Items(page)) + loss == multiset(Items(s.pages[blk])) + gain
    ensures Conserved(s')
  {
    StoredUpdate(s.pages, blk, page);
    var was, now := multiset(Items(s.pages[blk])), multiset(Items(page));
    var before, after := Stored(s.pages), Stored(s'.pages);
    Cancel(after, was, before, now, gain, loss, s.removed);
  }

  lemma {:induction false} Cancel(after: multiset<Tuple>, was: multiset<Tuple>, before: multiset<Tuple>, now: multiset<Tuple>,
               gain: multiset<Tuple>, loss: multiset<Tuple>, removed: multiset<Tuple>)
    requires after + was == before + now
    requires now + loss == was + gain
    ensures before + removed + gain == after + (removed + loss)
  {
    forall t
      ensures (before + removed + gain)[t] == (after + (removed + loss))[t]
    {
      assert (after + was)[t] == (before + now)[t];
      assert (now + loss)[t] == (was + gain)[t];
    }
  }

  lemma {:induction false} StoredExtend(pages: seq<Page>, page: Page)
    ensures Stored(pages + [page]) == Stored(pages) + multiset(Items(page))
  {
    assert (pages + [page])[..|pages|] == pages;
  }

  /** Rewriting a page keeps what every other backend relies on, unless a backend is
      about to initialise that very page. */
  lemma {:induction false} OthersUnaffected(s: State, s': State, blk: Block, q: Pid)
    requires q in s.procs && ProcOk(s, s.procs[q])
    requires blk < |s.pages| && |s'.pages| == |s.pages|
    requires forall i | 0 <= i < |s.pages| && i != blk :: s'.pages[i] == s.pages[i]
    requires s.pages[blk].DataPage? ==> s'.pages[blk].DataPage?
    requires s.procs[q].InsertExtended? ==> s'.pages[s.procs[q].blk] == s.pages[s.procs[q].blk]
    requires s.procs[q].InsertLoop? ==> s'.meta == s.meta
    ensures ProcOk(s', s.procs[q])
  {
  }

  /** Page contents change only at blk, which is or becomes a data page. */
  lemma {:induction false} StorePreserves(s: State, s': State, p: Pid, t: Tuple, blk: Block, page: Page, meta: Meta)
    requires Inv(s) && p in s.procs
    requires Store(s, s', p, t, blk, page, meta) && blk >= 1
    requires page.DataPage? && PageOk(s.size, page)
    requires multiset(Items(page)) == multiset(Items(s.pages[blk])) + multiset{t}
    requires meta.nStart <= meta.nEnd <= META_BLOCKS == |meta.notFullPage|
    requires forall i | 0 <= i < meta.nEnd :: IsData(s.pages, meta.notFullPage[i]) || meta.notFullPage[i] == blk
    requires s.owner == Some(p) || (meta == s.meta && IsData(s.pages, blk))
    ensures Inv(s')
  {
    hide Stored, Items;
    ConservedUpdate(s, s', blk, page, multiset{t}, multiset{});
    assert PagesOk(s');
    assert MetaOk(s');
    assert FsmOk(s');
    forall q | q in s'.procs
      ensures ProcOk(s', s'.procs[q])
    {
      OthersUnaffected(s, s', blk, q);
    }
  }

  /** A step that only moves one backend, without touching the metapage lock. */
  lemma {:induction false} MovePreserves(s: State, s': State, p: Pid, proc: Proc)
    requires Inv(s) && Move(s, s', p, proc)
    requires ProcOk(s, proc)
    requires HoldsMeta(proc) <==> s.owner == Some(p)
    ensures Inv(s')
  {
    forall q | q in s'.procs
      ensures ProcOk(s', s'.procs[q])
    {
      if q != p {
        assert ProcOk(s, s.procs[q]);
      }
    }
  }

  lemma {:induction false} EndPreserves(s: State, s': State, p: Pid)
    requires Inv(s) && p in s.procs && !HoldsMeta(s.procs[p])
    requires s' == s.(procs := s.procs - {p})
    ensures Inv(s')
  {
    forall q | q in s'.procs
      ensures ProcOk(s', s'.procs[q])
    {
      assert ProcOk(s, s.procs[q]);
    }
  }

  lemma {:induction false} InsertPreserves(s: State, s': State, p: Pid, step: Step)
    requires Inv(s) && Takes(s, s', p, step)
    requires step.SBeginInsert? || step.SReadHint? || step.SLockMeta? || step.STakeFree?
    ensures Inv(s')
  {
    hide Stored, PageOk;
    if step.SBeginInsert? || step.SReadHint? {
      MovePreserves(s, s', p, s'.procs[p]);
    } else {
      forall q | q in s'.procs
        ensures ProcOk(s', s'.procs[q])
      {
        if q != p {
          assert ProcOk(s, s.procs[q]);
        }
      }
    }
  }

  lemma {:induction false} AppendFacts(s: State, blk: Block, t: Tuple)
    requires PagesOk(s) && blk < |s.pages|
    requires Fits(s.size, |Prepared(s.pages[blk]).items|)
    ensures PageOk(s.size, Appended(s.pages[blk], t))
    ensures multiset(Items(Appended(s.pages[blk], t))) == multiset(Items(s.pages[blk])) + multiset{t}
  {
    FitsIffBelowCapacity(s.size, |Prepared(s.pages[blk]).items|);
    assert Items(s.pages[blk]) == Prepared(s.pages[blk]).items;
  }

  lemma {:induction false} TryHintPreserves(s: State, s': State, p: Pid)
    requires Inv(s) && TryHint(s, s', p)
    ensures Inv(s')
  {
    var InsertTry(t, blk) := s.procs[p];
    if Fits(s.size, |Prepared(s.pages[blk]).items|) {
      AppendFacts(s, blk, t);
      StorePreserves(s, s', p, t, blk, Appended(s.pages[blk], t), s.meta);
    }
  }

  lemma {:induction false} LoopHintPreserves(s: State, s': State, p: Pid)
    requires Inv(s) && LoopHint(s, s', p)
    ensures Inv(s')
  {
    hide Stored, Fits;
    var InsertLoop(t, cur) := s.procs[p];
    if cur < s.meta.nEnd {
      var blk := s.meta.notFullPage[cur];
      if Fits(s.size, |Prepared(s.pages[blk]).items|) {
        AppendFacts(s, blk, t);
        StorePreserves(s, s', p, t, blk, Appended(s.pages[blk], t), s.meta.(nStart := cur));
      }
    }
  }

  /** An empty page takes a tuple, whatever signature length the options allow. */
  lemma {:induction false} EmptyPageFits(size: nat)
    requires 8 <= size <= 518
    ensures Fits(size, 0) && Capacity(size) >= 1
  {
    FitsIffBelowCapacity(size, 0);
  }

  lemma {:induction false} PublishPreserves(s: State, s': State, p: Pid, t: Tuple, blk: Block)
    requires Inv(s) && p in s.procs && s.owner == Some(p) && 1 <= blk < |s.pages|
    requires Reusable(s.pages[blk])
    requires Publish(s, s', p, t, blk)
    ensures Inv(s')
  {
    EmptyPageFits(s.size);
    assert Items(s.pages[blk]) == [];
    StorePreserves(s, s', p, t, blk, DataPage(false, [t]), Meta(0, 1, s.meta.notFullPage[0 := blk]));
  }

  lemma {:induction false} ExtendPreserves(s: State, s': State, p: Pid)
    requires Inv(s) && ExtendFile(s, s', p)
    ensures Inv(s')
  {
    hide Stored;
    StoredExtend(s.pages, NewPage);
    forall q | q in s'.procs
      ensures ProcOk(s', s'.procs[q])
    {
      if q != p {
        assert ProcOk(s, s.procs[q]);
      }
    }
  }

  lemma {:induction false} AllocPreserves(s: State, s': State, p: Pid, step: Step)
    requires Inv(s) && Takes(s, s', p, step)
    requires step.SCheckCandidate? || step.SUseExtended?
    ensures Inv(s')
  {
    hide Publish, Conserved, Reusable, PagesOk, MetaOk, FsmOk, Stored;
    var blk := s.procs[p].blk;
    assert ProcOk(s, s.procs[p]);
    if step.SUseExtended? || (step.locked && Reusable(s.pages[blk])) {
      ReusableExtended(s, p);
      PublishPreserves(s, s', p, s.procs[p].t, blk);
    } else {
      MovePreserves(s, s', p, InsertAlloc(s.procs[p].t));
    }
  }

  lemma {:induction false} ReusableExtended(s: State, p: Pid)
    requires p in s.procs && ProcOk(s, s.procs[p])
    ensures s.procs[p].InsertExtended? ==> Reusable(s.pages[s.procs[p].blk])
  {
  }

  lemma {:induction false} VacuumedFacts(s: State, blk: Block, dead: set<Tid>)
    requires PagesOk(s) && blk < |s.pages|
    ensures PageOk(s.size, Vacuumed(s.pages[blk], dead))
    ensures Vacuumed(s.pages[blk], dead).NewPage? <==> s.pages[blk].NewPage?
    ensures multiset(Items(s.pages[blk]))
         == multiset(Items(Vacuumed(s.pages[blk], dead))) + Removed(s.pages[blk], dead)
  {
    if !Reusable(s.pages[blk]) {
      SurvivorsAndVictims(s.pages[blk].items, dead);
    }
  }

  lemma {:induction false} VacuumPagePreserves(s: State, s': State, p: Pid)
    requires Inv(s) && VacuumPage(s, s', p)
    ensures Inv(s')
  {
    hide Conserved, PagesOk, MetaOk, ProcsOk, FsmOk, VacuumPage;
    VacuumConserves(s, s', p);
    VacuumKeepsHints(s, s', p);
    VacuumKeepsProcs(s, s', p);
  }

  /** The victims leave the page and are counted as removed. */
  lemma {:induction false} VacuumConserves(s: State, s': State, p: Pid)
    requires PagesOk(s) && Conserved(s) && VacuumPage(s, s', p)
    ensures PagesOk(s') && Conserved(s')
  {
    hide Vacuumed, Removed, Listed, Stored, Items, Conserved;
    var Vacuum(dead, npages, blk, notFull) := s.procs[p];
    VacuumedFacts(s, blk, dead);
    ConservedUpdate(s, s', blk, Vacuumed(s.pages[blk], dead), multiset{}, Removed(s.pages[blk], dead));
    assert PagesOk(s');
  }

  lemma {:induction false} VacuumKeepsHints(s: State, s': State, p: Pid)
    requires PagesOk(s) && MetaOk(s) && FsmOk(s) && VacuumPage(s, s', p)
    ensures MetaOk(s') && FsmOk(s')
  {
    hide Vacuumed, Removed, Listed;
    VacuumedFacts(s, s.procs[p].blk, s.procs[p].dead);
  }

  lemma {:induction false} VacuumKeepsProcs(s: State, s': State, p: Pid)
    requires PagesOk(s) && ProcsOk(s) && VacuumPage(s, s', p)
    ensures ProcsOk(s')
  {
    hide Vacuumed, Removed, PageOk;
    var Vacuum(dead, npages, blk, notFull) := s.procs[p];
    VacuumedFacts(s, blk, dead);
    assert ProcOk(s, s.procs[p]);
    forall q | q in s'.procs
      ensures ProcOk(s', s'.procs[q])
    {
      if q != p {
        OthersUnaffected(s, s', blk, q);
      }
    }
  }

  lemma {:induction false} EndVacuumPreserves(s: State, s': State, p: Pid)
    requires Inv(s) && EndVacuum(s, s', p)
    ensures Inv(s')
  {
    var notFull := s.procs[p].notFull;
    assert ProcOk(s, s.procs[p]);
    forall i | 0 <= i < |notFull|
      ensures IsData(s'.pages, s'.meta.notFullPage[i])
    {
      assert s'.meta.notFullPage[i] == notFull[i];
    }
  }

  lemma {:induction false} CleanupPagePreserves(s: State, s': State, p: Pid)
    requires Inv(s) && CleanupPage(s, s', p)
    ensures Inv(s')
  {
    forall q | q in s'.procs
      ensures ProcOk(s', s'.procs[q])
    {
      assert ProcOk(s, s.procs[q]);
    }
  }

  lemma {:induction false} ReaderPreserves(s: State, s': State, p: Pid, step: Step)
    requires Inv(s) && Takes(s, s', p, step)
    requires step.SBeginVacuum? || step.SBeginCleanup? || step.SBeginScan? || step.SScanPage?
    ensures Inv(s')
  {
    if step.SScanPage? {
      assert ProcOk(s, s.procs[p]);
    }
    MovePreserves(s, s', p, s'.procs[p]);
  }

  /** Every step of every backend keeps the invariant. */
  lemma {:induction false} NextPreserves(s: State, s': State)
    requires Inv(s) && Next(s, s')
    ensures Inv(s')
  {
    var p, step :| Takes(s, s', p, step);
    match step
    case SBeginInsert(_) => InsertPreserves(s, s', p, step);
    case SReadHint => InsertPreserves(s, s', p, step);
    case STryHint => TryHintPreserves(s, s', p);
    case SLockMeta => InsertPreserves(s, s', p, step);
    case SLoopHint => LoopHintPreserves(s, s', p);
    case STakeFree(_) => InsertPreserves(s, s', p, step);
    case SCheckCandidate(_) => AllocPreserves(s, s', p, step);
    case SExtendFile => ExtendPreserves(s, s', p);
    case SUseExtended => AllocPreserves(s, s', p, step);
    case SVacuumPage => VacuumPagePreserves(s, s', p);
    case SEndVacuum => EndVacuumPreserves(s, s', p);
    case SCleanupPage => CleanupPagePreserves(s, s', p);
    case SEndCleanup => EndPreserves(s, s', p);
    case SEndScan => EndPreserves(s, s', p);
    case _ => ReaderPreserves(s, s', p, step);
  }
}
