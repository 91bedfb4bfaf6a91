/**
 GIN support for integer arrays (contrib/intarray/_int_gin.c, and gin_bool_consistent
 in _int_bool.c): which entries a query asks for, in which search mode, and what the
 answers to those entries decide.
 */
module IntGin {
  import opened IntQuery
  import opened IntQueryInput
  import opened IntQueryPrint

  datatype SearchMode = DefaultMode | IncludeEmpty | AllMode

  datatype Strategy = Overlap | Contains | ContainedBy | Same

  /** A query: an array with a set operator, or a stored boolean query. */
  datatype Request = ArrayQuery(strategy: Strategy, elems: seq<int32>) | BoolQuery(items: seq<Item>)

  /** The set of values of an array. */
  function Elems(arr: seq<int32>): set<int32> {
    set v | v in arr
  }

  lemma {:induction false} FirstElem(arr: seq<int32>)
    ensures arr != [] ==> arr[0] in Elems(arr)
  {
  }

  /** What the operator means for an indexed array. */
  ghost predicate Matches(arr: seq<int32>, q: Request, e: Expr) {
    match q
    case ArrayQuery(strategy, elems) =>
      (match strategy
       case Overlap => exists v | v in elems :: v in arr
       case Contains => forall v | v in elems :: v in arr
       case ContainedBy => forall v | v in arr :: v in elems
       case Same => Elems(arr) == Elems(elems))
    case BoolQuery(_) => Eval(e, v => v in arr)
  }

  /** GIN visits an indexed array when one of the entries is in it, in every mode; when it
      is empty, if the mode includes empty arrays; and always in the full-scan mode. */
  predicate Visits(mode: SearchMode, entries: seq<int32>, arr: seq<int32>) {
    || mode.AllMode?
    || (mode.IncludeEmpty? && arr == [])
    || exists v | v in entries :: v in arr
  }

  /** The answers GIN collects: which entries the array contains. */
  ghost predicate Checked(check: seq<bool>, entries: seq<int32>, arr: seq<int32>) {
    |check| == |entries| && forall j | 0 <= j < |entries| :: check[j] == (entries[j] in arr)
  }

  /** The values of the VAL items, in order. */
  function ValItems(items: seq<Item>): seq<int32> {
    if items == [] then []
    else
      var rest, last := ValItems(items[..|items| - 1]), items[|items| - 1];
      if last.node.NVal? then rest + [last.node.val] else rest
  }

  lemma {:induction false} ValItemsStep(items: seq<Item>, i: nat)
    requires i < |items|
    ensures ValItems(items[..i + 1])
         == ValItems(items[..i]) + (if items[i].node.NVal? then [items[i].node.val] else [])
  {
    assert items[..i + 1][..i] == items[..i];
  }

  ghost predicate ValidRequest(q: Request, e: Expr) {
    q.BoolQuery? ==> q.items == Linked(e) && LinksFit(e)
  }

  /** The empty array is contained in everything, and everything contains it. */
  function ArrayMode(strategy: Strategy, empty: bool): SearchMode {
    match strategy
    case Overlap => DefaultMode
    case ContainedBy => IncludeEmpty
    case Same => if empty then IncludeEmpty else DefaultMode
    case Contains => if empty then AllMode else DefaultMode
  }

  /** ginint4_queryextract. */
  method QueryExtract(q: Request, ghost e: Expr) returns (entries: seq<int32>, mode: SearchMode)
    requires ValidRequest(q, e)
    ensures entries == if q.BoolQuery? then ValItems(q.items) else q.elems
    ensures q.BoolQuery? && !mode.AllMode? ==>
      mode.DefaultMode? && forall has: int32 -> bool | Eval(e, has) :: HasSome(e, has)
    ensures q.BoolQuery? ==> (mode.AllMode? <==> EvalLossy(e, Nothing, false))
    ensures q.BoolQuery? && mode.AllMode? ==> HasNot(e)
    ensures q.ArrayQuery? ==> mode == ArrayMode(q.strategy, q.elems == [])
  {
    hide Linked, LinksFit, Reads, Eval, HasSome, HasNot;
    match q
    case BoolQuery(items) =>
      StoredReads(items, 0, e);
      mode := if ContainsRequired(items, |items| - 1, e) then DefaultMode else AllMode;
      entries := [];
      var i := 0;
      while i < |items|
        invariant 0 <= i <= |items|
        invariant entries == ValItems(items[..i])
      {
        ValItemsStep(items, i);
        if items[i].node.NVal? {
          entries := entries + [items[i].node.val];
        }
        i := i + 1;
      }
      assert items[..i] == items;
    case ArrayQuery(strategy, elems) =>
      entries := elems;
      match strategy {
        case Overlap => mode := DefaultMode;
        case ContainedBy => mode := IncludeEmpty;
        case Same => mode := if |entries| > 0 then DefaultMode else IncludeEmpty;
        case Contains => mode := if |entries| > 0 then DefaultMode else AllMode;
      }
  }

  /** The loop of gin_bool_consistent: the answers are spread over the VAL positions. */
  method MapChecks(items: seq<Item>, check: seq<bool>) returns (mapped: seq<bool>)
    requires |check| == |ValItems(items)|
    ensures |mapped| == |items|
    ensures forall k | 0 <= k < |items| && items[k].node.NVal? ::
      |ValItems(items[..k])| < |check| && mapped[k] == check[|ValItems(items[..k])|]
  {
    var answers := new bool[|items|];
    var i, j := 0, 0;
    while i < |items|
      invariant 0 <= i <= |items| && j == |ValItems(items[..i])|
      invariant forall k | 0 <= k < i && items[k].node.NVal? ::
        |ValItems(items[..k])| < |check| && answers[k] == check[|ValItems(items[..k])|]
    {
      ValItemsStep(items, i);
      ValItemsPrefix(items, i + 1);
      if items[i].node.NVal? {
        answers[i] := check[j];
        j := j + 1;
      }
      i := i + 1;
    }
    mapped := answers[..];
  }

  lemma {:induction false} MappedAnswers(items: seq<Item>, check: seq<bool>, mapped: seq<bool>, arr: seq<int32>)
    requires |mapped| == |items| && Checked(check, ValItems(items), arr)
    requires forall k | 0 <= k < |items| && items[k].node.NVal? ::
      |ValItems(items[..k])| < |check| && mapped[k] == check[|ValItems(items[..k])|]
    ensures forall k | 0 <= k < |items| && items[k].node.NVal? :: mapped[k] == (items[k].node.val in arr)
  {
    forall k | 0 <= k < |items| && items[k].node.NVal?
      ensures mapped[k] == (items[k].node.val in arr)
    {
      ValItemsStep(items, k);
      ValItemsPrefix(items, k + 1);
      assert ValItems(items)[|ValItems(items[..k])|] == items[k].node.val;
    }
  }

  /** gin_bool_consistent: evaluation with the answers in place of the array. */
  method BoolConsistent(items: seq<Item>, ghost e: Expr, check: seq<bool>) returns (res: bool)
    requires items == Linked(e) && LinksFit(e) && |check| == |ValItems(items)|
    ensures forall arr | Checked(check, ValItems(items), arr) :: res == Eval(e, v => v in arr)
  {
    hide Linked, LinksFit, ValItems, Eval, EvalLossy, Reads;
    var mapped := MapChecks(items, check);
    var test: nat -> bool := (k: nat) => k < |mapped| && mapped[k];
    StoredReads(items, 0, e);
    res := Execute(items, |items| - 1, e, test, true);
    forall arr | Checked(check, ValItems(items), arr)
      ensures res == Eval(e, v => v in arr)
    {
      var has: int32 -> bool := v => v in arr;
      MappedAnswers(items, check, mapped, arr);
      assert Answers(items, test, has);
      EvalExact(e, has);
    }
  }

  lemma {:induction false} ValItemsPrefix(items: seq<Item>, i: nat)
    requires i <= |items|
    ensures ValItems(items[..i]) <= ValItems(items)
    decreases |items| - i
  {
    if i == |items| {
      assert items[..i] == items;
    } else {
      ValItemsStep(items, i);
      ValItemsPrefix(items, i + 1);
    }
  }

  /** ginint4_consistent. */
  method Consistent(q: Request, ghost e: Expr, check: seq<bool>) returns (res: bool, recheck: bool)
    requires ValidRequest(q, e)
    requires q.BoolQuery? ==> |check| == |ValItems(q.items)|
    ensures q.BoolQuery? ==>
      !recheck && forall arr | Checked(check, ValItems(q.items), arr) :: res == Eval(e, v => v in arr)
    ensures q.ArrayQuery? ==> recheck == (q.strategy.ContainedBy? || q.strategy.Same?)
    ensures q.ArrayQuery? ==>
      res == if q.strategy.Overlap? || q.strategy.ContainedBy? then true else forall i | 0 <= i < |check| :: check[i]
  {
    match q
    case BoolQuery(items) =>
      recheck := false;
      res := BoolConsistent(items, e, check);
    case ArrayQuery(strategy, _) =>
      recheck := strategy.ContainedBy? || strategy.Same?;
      res := true;
      if strategy.Same? || strategy.Contains? {
        for i := 0 to |check|
          invariant res && forall k | 0 <= k < i :: check[k]
        {
          if !check[i] {
            return false, recheck;
          }
        }
      }
  }

  lemma {:induction false} ValItemsOf(e: Expr, v: int32)
    requires v in Values(e)
    ensures v in ValItems(Linked(e))
  {
    LinkedNodes(e);
    ValuePosition(e, v);
    var k :| 0 <= k < Size(e) && Postfix(e)[k] == NVal(v);
    assert Linked(e)[0 + k].node == NVal(v);
    ValItemsHas(Linked(e), k);
  }

  lemma {:induction false} ValuePosition(e: Expr, v: int32)
    requires v in Values(e)
    ensures exists k | 0 <= k < Size(e) :: Postfix(e)[k] == NVal(v)
  {
    match e
    case Val(_) =>
      assert Postfix(e)[0] == NVal(v);
    case Not(x) =>
      ValuePosition(x, v);
      var k :| 0 <= k < Size(x) && Postfix(x)[k] == NVal(v);
      assert Postfix(e)[k] == NVal(v);
    case Bin(_, l, r) =>
      if v in Values(l) {
        ValuePosition(l, v);
        var k :| 0 <= k < Size(l) && Postfix(l)[k] == NVal(v);
        assert Postfix(e)[k] == NVal(v);
      } else {
        ValuePosition(r, v);
        var k :| 0 <= k < Size(r) && Postfix(r)[k] == NVal(v);
        assert Postfix(e)[Size(l) + k] == NVal(v);
      }
  }

  lemma {:induction false} ValItemsHas(items: seq<Item>, k: nat)
    requires k < |items| && items[k].node.NVal?
    ensures items[k].node.val in ValItems(items)
  {
    ValItemsStep(items, k);
    ValItemsPrefix(items, k + 1);
    var p := ValItems(items[..k + 1]);
    assert ValItems(items)[|p| - 1] == p[|p| - 1];
  }

  /** A GIN scan as a whole: an array that satisfies the query is visited and accepted;
      and without recheck every visited array that is accepted satisfies it. A recheck is asked
      for `<@` and `=` only. An array without an entry of the query is visited only if it is empty
      or the query could be satisfied without them. */
  method SearchOne(q: Request, ghost e: Expr, arr: seq<int32>) returns (visited: bool, res: bool, recheck: bool)
    requires ValidRequest(q, e)
    ensures Matches(arr, q, e) ==> visited && res
    ensures visited && res && !recheck ==> Matches(arr, q, e)
    ensures recheck <==> q.ArrayQuery? && (q.strategy.ContainedBy? || q.strategy.Same?)
    ensures q.ArrayQuery? ==>
      (visited <==>
         || (exists v | v in q.elems :: v in arr)
         || (arr == [] && (q.strategy.ContainedBy? || (q.strategy.Same? && q.elems == [])))
         || (q.strategy.Contains? && q.elems == []))
    ensures q.BoolQuery? ==>
      (visited <==> EvalLossy(e, Nothing, false) || exists v | v in ValItems(q.items) :: v in arr)
  {
    hide Linked, LinksFit, ValItems, Eval, HasSome, Values, Elems;
    var entries, mode := QueryExtract(q, e);
    visited := Visits(mode, entries, arr);
    var check := seq(|entries|, j requires 0 <= j < |entries| => entries[j] in arr);
    res, recheck := Consistent(q, e, check);
    assert Checked(check, entries, arr);
    if q.BoolQuery? {
      if Matches(arr, q, e) && mode.DefaultMode? {
        BoolVisited(e, arr);
      }
    } else {
      ArrayCases(q, e, arr, mode, check);
    }
  }

  /** An array with a value that the query requires is visited. */
  lemma {:induction false} BoolVisited(e: Expr, arr: seq<int32>)
    requires HasSome(e, v => v in arr)
    ensures Visits(DefaultMode, ValItems(Linked(e)), arr)
  {
    hide Linked, ValItems, Values;
    var has: int32 -> bool := v => v in arr;
    assert HasSome(e, has);
    var v :| v in Values(e) && has(v);
    ValItemsOf(e, v);
  }

  lemma {:induction false} ArrayCases(q: Request, e: Expr, arr: seq<int32>, mode: SearchMode, check: seq<bool>)
    requires q.ArrayQuery? && Checked(check, q.elems, arr)
    requires mode == ArrayMode(q.strategy, q.elems == [])
    ensures Matches(arr, q, e) ==> Visits(mode, q.elems, arr)
    ensures Matches(arr, q, e) && (q.strategy.Same? || q.strategy.Contains?) ==> forall i | 0 <= i < |check| :: check[i]
    ensures q.strategy.Contains? && (forall i | 0 <= i < |check| :: check[i]) ==> Matches(arr, q, e)
    ensures q.strategy.Overlap? && Visits(mode, q.elems, arr) ==> Matches(arr, q, e)
  {
    match q.strategy
    case Overlap =>
    case Contains =>
      if q.elems != [] {
        assert q.elems[0] in q.elems;
      }
    case ContainedBy =>
      if arr != [] {
        assert arr[0] in arr;
      }
    case Same =>
      if Elems(arr) == Elems(q.elems) {
        forall v | v in q.elems
          ensures v in arr
        {
          assert v in Elems(q.elems);
        }
        if q.elems != [] {
          assert q.elems[0] in q.elems;
        } else {
          FirstElem(arr);
        }
      }
  }
}
