/**
 Boolean queries over integer arrays (contrib/intarray/_int_bool.c): the expression a
 query stands for, its postfix storage with left-operand links, and the recursive
 evaluators that follow those links.
 */
module IntQuery {

  type int32 = x: int | -0x8000_0000 <= x < 0x8000_0000

  datatype BinOp = And | Or {
    function Sign(): char {
      if And? then '&' else '|'
    }
  }

  datatype Expr =
    | Val(v: int32)
    | Not(e: Expr)
    | Bin(op: BinOp, l: Expr, r: Expr)

  /** A node of the parser's output: `NVal` is type VAL, `NOpr` is type OPR. */
  datatype Node = NVal(val: int32) | NOpr(op: char)

  /** An item of a stored query: a node with the link to its left operand. */
  datatype Item = Item(node: Node, left: int)

  /** The value of an expression on an array, given by the set of values it contains. */
  predicate Eval(e: Expr, has: int32 -> bool) {
    match e
    case Val(v) => has(v)
    case Not(x) => !Eval(x, has)
    case Bin(op, l, r) =>
      if op.And? then Eval(l, has) && Eval(r, has) else Eval(l, has) || Eval(r, has)
  }

  function Size(e: Expr): (n: nat)
    ensures n >= 1
  {
    match e
    case Val(_) => 1
    case Not(x) => Size(x) + 1
    case Bin(_, l, r) => Size(l) + Size(r) + 1
  }

  /** Reverse Polish notation. */
  function Postfix(e: Expr): (s: seq<Node>)
    ensures |s| == Size(e)
  {
    match e
    case Val(v) => [NVal(v)]
    case Not(x) => Postfix(x) + [NOpr('!')]
    case Bin(op, l, r) => Postfix(l) + Postfix(r) + [NOpr(op.Sign())]
  }

  /** The int16 a link becomes when it is stored. */
  function Wrap16(x: int): int {
    (x + 0x8000) % 0x1_0000 - 0x8000
  }

  /** The items of an expression: the link of a binary operator is the distance to the
      root of its left operand, stored in 16 bits. */
  function Linked(e: Expr): (s: seq<Item>)
    ensures |s| == Size(e)
  {
    match e
    case Val(v) => [Item(NVal(v), 0)]
    case Not(x) => Linked(x) + [Item(NOpr('!'), -1)]
    case Bin(op, l, r) => Linked(l) + Linked(r) + [Item(NOpr(op.Sign()), Wrap16(-(Size(r) + 1)))]
  }

  /** No right operand has more than 32767 items, so every link fits in 16 bits. */
  predicate LinksFit(e: Expr) {
    match e
    case Val(_) => true
    case Not(x) => LinksFit(x)
    case Bin(_, l, r) => LinksFit(l) && LinksFit(r) && Size(r) <= 0x7fff
  }

  /** Following the links from item i reads the expression e. */
  predicate Reads(items: seq<Item>, i: int, e: Expr)
    decreases e
  {
    && 0 <= i < |items|
    && match e
       case Val(v) => items[i].node == NVal(v)
       case Not(x) => items[i].node == NOpr('!') && Reads(items, i - 1, x)
       case Bin(op, l, r) =>
         items[i].node == NOpr(op.Sign()) && Reads(items, i + items[i].left, l) && Reads(items, i - 1, r)
  }

  /** The array holds the sequence s from position lo on. */
  ghost predicate HoldsAt<T>(items: seq<T>, lo: nat, s: seq<T>) {
    lo + |s| <= |items| && forall k {:trigger s[k]} | 0 <= k < |s| :: items[lo + k] == s[k]
  }

  lemma {:induction false} HoldsParts<T>(items: seq<T>, lo: nat, a: seq<T>, b: seq<T>, last: T)
    requires HoldsAt(items, lo, a + b + [last])
    ensures HoldsAt(items, lo, a) && HoldsAt(items, lo + |a|, b) && items[lo + |a| + |b|] == last
  {
    var s := a + b + [last];
    assert forall k | 0 <= k < |a| :: s[k] == a[k];
    assert forall k | 0 <= k < |b| :: s[|a| + k] == b[k];
    assert s[|a| + |b|] == last;
  }

  /** Stored items read back as their expression, wherever they stand, when the links fit. */
  lemma {:induction false} StoredReads(items: seq<Item>, lo: nat, e: Expr)
    requires HoldsAt(items, lo, Linked(e)) && LinksFit(e)
    ensures Reads(items, lo + Size(e) - 1, e)
    decreases e
  {
    match e
    case Val(_) =>
      assert items[lo] == Linked(e)[0];
    case Not(x) =>
      assert Linked(e) == Linked(x) + [] + [Item(NOpr('!'), -1)];
      HoldsParts(items, lo, Linked(x), [], Item(NOpr('!'), -1));
      StoredReads(items, lo, x);
    case Bin(op, l, r) =>
      LinkStoredIff(Size(r));
      HoldsParts(items, lo, Linked(l), Linked(r), Item(NOpr(op.Sign()), Wrap16(-(Size(r) + 1))));
      StoredReads(items, lo, l);
      StoredReads(items, lo + Size(l), r);
  }

  /** A link survives the 16-bit store exactly when the right operand has at most 32767
      items. */
  lemma {:induction false} LinkStoredIff(n: nat)
    ensures Wrap16(-(n + 1)) == -(n + 1) <==> n <= 0x7fff
  {
  }

  // ----- evaluation -----

  /** The value with `calcnot` off: a negation counts as true. */
  predicate EvalLossy(e: Expr, has: int32 -> bool, calcnot: bool) {
    match e
    case Val(v) => has(v)
    case Not(x) => if calcnot then !EvalLossy(x, has, calcnot) else true
    case Bin(op, l, r) =>
      if op.And? then EvalLossy(l, has, calcnot) && EvalLossy(r, has, calcnot)
      else EvalLossy(l, has, calcnot) || EvalLossy(r, has, calcnot)
  }

  /** The primitive test answers for the item at each position what `has` says of its value. */
  ghost predicate Answers(items: seq<Item>, check: nat -> bool, has: int32 -> bool) {
    forall i: nat | i < |items| && items[i].node.NVal? :: check(i) == has(items[i].node.val)
  }

  /** `execute`: evaluation by following the links, with short circuits. */
  function Execute(items: seq<Item>, i: int, ghost e: Expr, check: nat -> bool, calcnot: bool): (r: bool)
    requires Reads(items, i, e)
    ensures forall has: int32 -> bool | Answers(items, check, has) :: r == EvalLossy(e, has, calcnot)
    decreases e
  {
    if items[i].node.NVal? then check(i)
    else if items[i].node.op == '!' then
      if calcnot then (if Execute(items, i - 1, e.e, check, calcnot) then false else true) else true
    else if items[i].node.op == '&' then
      if Execute(items, i + items[i].left, e.l, check, calcnot)
      then Execute(items, i - 1, e.r, check, calcnot) else false
    else
      if Execute(items, i + items[i].left, e.l, check, calcnot)
      then true else Execute(items, i - 1, e.r, check, calcnot)
  }

  /** With `calcnot` on, nothing is lost. */
  lemma {:induction false} EvalExact(e: Expr, has: int32 -> bool)
    ensures EvalLossy(e, has, true) == Eval(e, has)
  {
    match e
    case Val(_) =>
    case Not(x) => EvalExact(x, has);
    case Bin(_, l, r) => EvalExact(l, has); EvalExact(r, has);
  }

  /** The lossy value on a larger set is never false when the exact value is true. */
  lemma {:induction false} EvalLossyCovers(e: Expr, has: int32 -> bool, more: int32 -> bool)
    requires forall v :: has(v) ==> more(v)
    requires Eval(e, has)
    ensures EvalLossy(e, more, false)
  {
    match e
    case Val(_) =>
    case Not(_) =>
    case Bin(op, l, r) =>
      if Eval(l, has) {
        EvalLossyCovers(l, has, more);
      }
      if Eval(r, has) {
        EvalLossyCovers(r, has, more);
      }
  }

  /** Without negations the lossy value is exact. */
  lemma {:induction false} LossyWithoutNot(e: Expr, has: int32 -> bool)
    requires !HasNot(e)
    ensures EvalLossy(e, has, false) == Eval(e, has)
  {
    match e
    case Val(_) =>
    case Bin(_, l, r) =>
      LossyWithoutNot(l, has);
      LossyWithoutNot(r, has);
  }

  /** Values outside the query do not matter. */
  lemma {:induction false} LossyOnValues(e: Expr, has: int32 -> bool, other: int32 -> bool)
    requires forall v | v in Values(e) :: has(v) == other(v)
    ensures EvalLossy(e, has, false) == EvalLossy(e, other, false)
    ensures Eval(e, has) == Eval(e, other)
  {
    match e
    case Val(_) =>
    case Not(x) => LossyOnValues(x, has, other);
    case Bin(_, l, r) =>
      LossyOnValues(l, has, other);
      LossyOnValues(r, has, other);
  }

  /** The lossy value only grows with the set. */
  lemma {:induction false} LossyGrows(e: Expr, has: int32 -> bool, more: int32 -> bool)
    requires forall v :: has(v) ==> more(v)
    requires EvalLossy(e, has, false)
    ensures EvalLossy(e, more, false)
  {
    match e
    case Val(_) =>
    case Not(_) =>
    case Bin(op, l, r) =>
      if EvalLossy(l, has, false) {
        LossyGrows(l, has, more);
      }
      if EvalLossy(r, has, false) {
        LossyGrows(r, has, more);
      }
  }

  /** On a stored query whose links fit, `execute` from the last item is the value of the
      expression: exact with `calcnot`, lossy without. */
  lemma {:induction false} ExecuteStored(e: Expr, check: nat -> bool, has: int32 -> bool)
    requires LinksFit(e) && Answers(Linked(e), check, has)
    ensures Reads(Linked(e), Size(e) - 1, e)
    ensures Execute(Linked(e), Size(e) - 1, e, check, true) == Eval(e, has)
    ensures Execute(Linked(e), Size(e) - 1, e, check, false) == EvalLossy(e, has, false)
  {
    hide Linked, LinksFit, Reads;
    StoredReads(Linked(e), 0, e);
    EvalExact(e, has);
  }

  // ----- required values -----

  function Values(e: Expr): set<int32> {
    match e
    case Val(v) => {v}
    case Not(x) => Values(x)
    case Bin(_, l, r) => Values(l) + Values(r)
  }

  predicate HasNot(e: Expr) {
    match e
    case Val(_) => false
    case Not(_) => true
    case Bin(_, l, r) => HasNot(l) || HasNot(r)
  }

  /** Some value of the query is among those the array has. */
  ghost predicate HasSome(e: Expr, has: int32 -> bool) {
    exists v | v in Values(e) :: has(v)
  }

  function Nothing(v: int32): bool {
    false
  }

  /** `contains_required_value`, by the same link walk: when it holds, an array that
      satisfies the query contains one of its values; it fails exactly when an array without
      any of them passes once negations count as true. */
  function ContainsRequired(items: seq<Item>, i: int, ghost e: Expr): (r: bool)
    requires Reads(items, i, e)
    ensures r ==> forall has: int32 -> bool | Eval(e, has) :: HasSome(e, has)
    ensures !r ==> HasNot(e)
    ensures !r <==> EvalLossy(e, Nothing, false)
    decreases e
  {
    if items[i].node.NVal? then assert e.v in Values(e); true
    else if items[i].node.op == '!' then false
    else if items[i].node.op == '&' then
      if ContainsRequired(items, i + items[i].left, e.l) then true
      else ContainsRequired(items, i - 1, e.r)
    else
      if ContainsRequired(items, i + items[i].left, e.l)
      then ContainsRequired(items, i - 1, e.r) else false
  }

  /** `checkcondition_arr`: binary search in a sorted array. */
  method InSorted(arr: array<int32>, val: int32) returns (found: bool)
    requires forall i, j | 0 <= i < j < arr.Length :: arr[i] <= arr[j]
    ensures found <==> val in arr[..]
  {
    var low, high := 0, arr.Length;
    while low < high
      invariant 0 <= low <= high <= arr.Length
      invariant val !in arr[..low] && val !in arr[high..]
    {
      var middle := low + (high - low) / 2;
      if arr[middle] == val {
        return true;
      } else if arr[middle] < val {
        low := middle + 1;
      } else {
        high := middle;
      }
    }
    return false;
  }
}
