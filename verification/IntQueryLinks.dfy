/**
 The 16-bit links of stored queries (contrib/intarray/_int_bool.c: findoprnd; the field
 `left` of ITEM in _int.h). A right operand of more than 32767 items does not fit: where the
 link then leads, and the texts that store such a query.
 */
module IntQueryLinks {
  import opened IntQuery
  import opened IntQueryInput
  import opened IntQueryPrint
  import opened IntQueryRoundTrip

  /** The items with unbounded links. */
  function TrueLinked(e: Expr): (s: seq<Item>)
    ensures |s| == Size(e)
  {
    match e
    case Val(v) => [Item(NVal(v), 0)]
    case Not(x) => TrueLinked(x) + [Item(NOpr('!'), -1)]
    case Bin(op, l, r) => TrueLinked(l) + TrueLinked(r) + [Item(NOpr(op.Sign()), -(Size(r) + 1))]
  }

  /** Every stored link is the true distance, if and only if no right operand in the query
      has more than 32767 items. */
  lemma {:induction false} LinksTrueIff(e: Expr)
    ensures Linked(e) == TrueLinked(e) <==> LinksFit(e)
  {
    match e
    case Val(_) =>
    case Not(x) =>
      LinksTrueIff(x);
      var last := Item(NOpr('!'), -1);
      Parted(Linked(x), [], last, TrueLinked(x), [], last);
    case Bin(op, l, r) =>
      LinksTrueIff(l);
      LinksTrueIff(r);
      LinkStoredIff(Size(r));
      Parted(Linked(l), Linked(r), Item(NOpr(op.Sign()), Wrap16(-(Size(r) + 1))),
             TrueLinked(l), TrueLinked(r), Item(NOpr(op.Sign()), -(Size(r) + 1)));
  }

  lemma {:induction false} Parted<T>(a: seq<T>, b: seq<T>, x: T, a': seq<T>, b': seq<T>, x': T)
    requires |a| == |a'| && |b| == |b'|
    ensures a + b + [x] == a' + b' + [x'] <==> a == a' && b == b' && x == x'
    ensures a + [x] == a' + [x'] <==> a == a' && x == x'
  {
    var s, s' := a + b + [x], a' + b' + [x'];
    assert s[..|a|] == a && s[|a|..|a| + |b|] == b && s[|a| + |b|] == x;
    assert s'[..|a|] == a' && s'[|a|..|a| + |b|] == b' && s'[|a| + |b|] == x';
    var t, t' := a + [x], a' + [x'];
    assert t[..|a|] == a && t[|a|] == x;
    assert t'[..|a|] == a' && t'[|a|] == x';
  }

  /** Where the link of a binary operator leads, wherever it stands in a query: to the root
      of its left operand when the right one has at most 32767 items; otherwise to an item
      after the operator, to the operator itself, or to an item inside the right operand. At
      the root of a query, an item after the operator is past the end. */
  lemma {:induction false} LinkTarget(items: seq<Item>, lo: nat, op: BinOp, l: Expr, r: Expr)
    requires HoldsAt(items, lo, Linked(Bin(op, l, r)))
    ensures var at := lo + Size(l) + Size(r);
            var target := at + items[at].left;
            var m := (Size(r) + 1) % 0x1_0000;
            && (target == lo + Size(l) - 1 <==> Size(r) <= 0x7fff)
            && (m > 0x8000 ==> at < target < at + 0x8000)
            && (m == 0 ==> target == at)
            && (Size(r) > 0x7fff && 0 < m <= 0x8000 ==> lo + Size(l) <= target < at)
  {
    hide Linked, HoldsAt;
    LinkedBin(op, l, r);
    HoldsParts(items, lo, Linked(l), Linked(r), Item(NOpr(op.Sign()), Wrap16(-(Size(r) + 1))));
    WrapCases(Size(r) + 1);
  }

  lemma {:induction false} LinkedBin(op: BinOp, l: Expr, r: Expr)
    ensures Linked(Bin(op, l, r)) == Linked(l) + Linked(r) + [Item(NOpr(op.Sign()), Wrap16(-(Size(r) + 1)))]
  {
  }

  lemma {:induction false} WrapCases(n: int)
    ensures var m := n % 0x1_0000;
            Wrap16(-n) == if m > 0x8000 then 0x1_0000 - m else -m
  {
  }

  /** Through an operator that links to itself no expression is read: an evaluation that
      starts there comes back to it without end. */
  lemma {:induction false} SelfLinkReadsNothing(items: seq<Item>, i: nat, e: Expr)
    requires i < |items| && items[i].node.NOpr? && items[i].node.op != '!' && items[i].left == 0
    ensures !Reads(items, i, e)
  {
    if e.Bin? {
      SelfLinkReadsNothing(items, i, e.l);
    }
  }

  // ----- evaluation by the stored links, whatever they are -----

  /** An evaluation gives a value, reads an item outside the query, or is still running. */
  datatype Outcome = Value(b: bool) | Outside | Running

  /** `execute` for at most the given depth of recursion. */
  function Run(items: seq<Item>, i: int, check: nat -> bool, calcnot: bool, depth: nat): Outcome
    decreases depth
  {
    if depth == 0 then Running
    else if i < 0 || i >= |items| then Outside
    else if items[i].node.NVal? then Value(check(i))
    else if items[i].node.op == '!' then
      if !calcnot then Value(true)
      else
        var o := Run(items, i - 1, check, calcnot, depth - 1);
        if o.Value? then Value(!o.b) else o
    else
      var o := Run(items, i + items[i].left, check, calcnot, depth - 1);
      if !o.Value? || o.b != (items[i].node.op == '&') then o
      else Run(items, i - 1, check, calcnot, depth - 1)
  }

  /** Where an expression can be read, its lossy value is computed. */
  lemma {:induction false} RunReads(items: seq<Item>, i: int, e: Expr, check: nat -> bool, has: int32 -> bool,
                                    calcnot: bool, depth: nat)
    requires Reads(items, i, e) && Answers(items, check, has) && depth >= Size(e)
    ensures Run(items, i, check, calcnot, depth) == Value(EvalLossy(e, has, calcnot))
    decreases e
  {
    match e
    case Val(_) =>
    case Not(x) =>
      if calcnot {
        RunReads(items, i - 1, x, check, has, calcnot, depth - 1);
      }
    case Bin(op, l, r) =>
      RunReads(items, i + items[i].left, l, check, has, calcnot, depth - 1);
      RunReads(items, i - 1, r, check, has, calcnot, depth - 1);
  }

  /** The part of an expression whose last item is the j-th. */
  function PartAt(e: Expr, j: nat): Expr
    requires j < Size(e)
  {
    match e
    case Val(_) => e
    case Not(x) => if j < Size(x) then PartAt(x, j) else e
    case Bin(_, l, r) =>
      if j < Size(l) then PartAt(l, j) else if j < Size(l) + Size(r) then PartAt(r, j - Size(l)) else e
  }

  /** Every item of a query with true links is the root of a part of it. */
  lemma {:induction false} PartReads(items: seq<Item>, lo: nat, e: Expr, j: nat)
    requires HoldsAt(items, lo, Linked(e)) && LinksFit(e) && j < Size(e)
    ensures Reads(items, lo + j, PartAt(e, j))
    decreases e
  {
    hide Reads, HoldsAt, Wrap16;
    if j == Size(e) - 1 {
      StoredReads(items, lo, e);
    } else {
      match e
      case Not(x) =>
        assert Linked(e) == Linked(x) + [] + [Item(NOpr('!'), -1)];
        HoldsParts(items, lo, Linked(x), [], Item(NOpr('!'), -1));
        PartReads(items, lo, x, j);
      case Bin(op, l, r) =>
        HoldsParts(items, lo, Linked(l), Linked(r), Item(NOpr(op.Sign()), Wrap16(-(Size(r) + 1))));
        if j < Size(l) {
          PartReads(items, lo, l, j);
        } else {
          PartReads(items, lo + Size(l), r, j - Size(l));
        }
    }
  }

  /** An evaluation that comes to an operator linked to itself never gets further. */
  lemma {:induction false} RunsOn(items: seq<Item>, i: nat, check: nat -> bool, calcnot: bool, depth: nat)
    requires i < |items| && items[i].node.NOpr? && items[i].node.op != '!' && items[i].left == 0
    ensures Run(items, i, check, calcnot, depth) == Running
  {
    if depth > 0 {
      RunsOn(items, i, check, calcnot, depth - 1);
    }
  }

  /** What evaluating a query computes when the right operand of its root does not fit: it
      leaves the query, it never ends, or it takes a part of the right operand for the left
      one. */
  lemma {:induction false} OversizedRoot(op: BinOp, l: Expr, r: Expr, check: nat -> bool, has: int32 -> bool,
                                         calcnot: bool, depth: nat)
    requires Size(r) > 0x7fff && Answers(Linked(Bin(op, l, r)), check, has) && depth > Size(r) + 1
    ensures var items := Linked(Bin(op, l, r));
            var m := (Size(r) + 1) % 0x1_0000;
            var o := Run(items, |items| - 1, check, calcnot, depth);
            && (m > 0x8000 ==> o == Outside)
            && (m == 0 ==> o == Running)
            && (0 < m <= 0x8000 && LinksFit(r) ==>
                  o == Value(EvalLossy(Bin(op, PartAt(r, Size(r) - m), r), has, calcnot)))
  {
    hide Linked, Run, LinksFit, EvalLossy, Reads, HoldsAt, Answers, PartAt;
    var items := Linked(Bin(op, l, r));
    var at := Size(l) + Size(r);
    var m := (Size(r) + 1) % 0x1_0000;
    RootItem(op, l, r, m);
    if m > 0x8000 {
      RunsOutside(items, at, check, calcnot, depth);
    } else if m == 0 {
      RunsOn(items, at, check, calcnot, depth);
    } else if LinksFit(r) {
      PartForLeft(items, Size(l), op, r, m, check, has, calcnot, depth);
    }
  }

  /** The last item of a binary query. */
  lemma {:induction false} RootItem(op: BinOp, l: Expr, r: Expr, m: int)
    requires m == (Size(r) + 1) % 0x1_0000
    ensures var items := Linked(Bin(op, l, r));
            var at := Size(l) + Size(r);
            && |items| == at + 1 && items[at].node == NOpr(op.Sign())
            && items[at].left == (if m > 0x8000 then 0x1_0000 - m else -m)
            && HoldsAt(items, Size(l), Linked(r))
  {
    hide Linked, HoldsAt, Wrap16;
    var items := Linked(Bin(op, l, r));
    WholeHeld(items);
    LinkedBin(op, l, r);
    HoldsParts(items, 0, Linked(l), Linked(r), Item(NOpr(op.Sign()), Wrap16(-(Size(r) + 1))));
    WrapCases(Size(r) + 1);
  }

  /** The link leads back into the right operand. */
  lemma {:induction false} PartForLeft(items: seq<Item>, lo: nat, op: BinOp, r: Expr, m: int, check: nat -> bool,
                                       has: int32 -> bool, calcnot: bool, depth: nat)
    requires HoldsAt(items, lo, Linked(r)) && LinksFit(r) && 0 < m <= Size(r) && lo + Size(r) < |items|
    requires items[lo + Size(r)] == Item(NOpr(op.Sign()), -m)
    requires Answers(items, check, has) && depth > Size(r)
    ensures Run(items, lo + Size(r), check, calcnot, depth) ==
            Value(EvalLossy(Bin(op, PartAt(r, Size(r) - m), r), has, calcnot))
  {
    hide Linked, Run, LinksFit, EvalLossy, Reads, HoldsAt, Answers, PartAt, Size;
    var part := PartAt(r, Size(r) - m);
    PartReads(items, lo, r, Size(r) - m);
    StoredReads(items, lo, r);
    ReadsBin(items, lo + Size(r), op, part, r);
    PartSize(r, Size(r) - m);
    RunBin(items, lo + Size(r), op, part, r, check, has, calcnot, depth);
  }

  lemma {:induction false} WholeHeld<T>(s: seq<T>)
    ensures HoldsAt(s, 0, s)
  {
  }

  lemma {:induction false} RunsOutside(items: seq<Item>, i: nat, check: nat -> bool, calcnot: bool, depth: nat)
    requires i < |items| && items[i].node.NOpr? && items[i].node.op != '!' && i + items[i].left >= |items| && depth >= 2
    ensures Run(items, i, check, calcnot, depth) == Outside
  {
  }

  lemma {:induction false} ReadsBin(items: seq<Item>, i: nat, op: BinOp, l: Expr, r: Expr)
    requires i < |items| && items[i].node == NOpr(op.Sign())
    requires Reads(items, i + items[i].left, l) && Reads(items, i - 1, r)
    ensures Reads(items, i, Bin(op, l, r))
  {
  }

  lemma {:induction false} PartSize(e: Expr, j: nat)
    requires j < Size(e)
    ensures Size(PartAt(e, j)) <= Size(e)
  {
    match e
    case Val(_) =>
    case Not(x) =>
      if j < Size(x) {
        PartSize(x, j);
      }
    case Bin(_, l, r) =>
      if j < Size(l) {
        PartSize(l, j);
      } else if j < Size(l) + Size(r) {
        PartSize(r, j - Size(l));
      }
  }

  /** The depth needed is that of the deeper operand. */
  lemma {:induction false} RunBin(items: seq<Item>, i: nat, op: BinOp, l: Expr, r: Expr, check: nat -> bool,
                                  has: int32 -> bool, calcnot: bool, depth: nat)
    requires Reads(items, i, Bin(op, l, r)) && Answers(items, check, has) && depth > Size(l) && depth > Size(r)
    ensures Run(items, i, check, calcnot, depth) == Value(EvalLossy(Bin(op, l, r), has, calcnot))
  {
    RunReads(items, i + items[i].left, l, check, has, calcnot, depth - 1);
    RunReads(items, i - 1, r, check, has, calcnot, depth - 1);
  }

  // ----- such queries are stored -----

  /** A flat conjunction of n items. */
  function Wide(n: nat): (e: Expr)
    requires n >= 1
    ensures Size(e) == n
  {
    if n == 1 then Val(0) else if n == 2 then Not(Val(0)) else Bin(And, Wide(n - 2), Val(0))
  }

  lemma {:induction false} WideFlat(n: nat)
    requires n >= 1
    ensures Reassoc(Wide(n)) == Wide(n)
  {
    if n > 2 {
      WideFlat(n - 2);
    }
  }

  /** For every size of a right operand, up to the limit on items, some accepted text stores a
      query with it: `0 | 0 & 0 & ...`. */
  method ReadWide(n: nat) returns (text: string, r: Input)
    requires 1 <= n && n + 2 <= MAX_ITEMS
    ensures Accepts(text, r) && r == Query(Linked(Bin(Or, Val(0), Wide(n))))
  {
    hide Linked, Render;
    var e := Bin(Or, Val(0), Wide(n));
    WideFlat(n);
    text := Render(e, true);
    r := ReadRendered(text, e);
  }
}
