/**
 A boolean query that can be read but not printed (contrib/intarray/_int_bool.c: bqarr_out): its
 text is longer than an output buffer can be.
 */
module IntQueryLong {
  import opened Wrappers
  import opened IntQuery
  import opened IntQueryInput
  import opened IntQueryPrint
  import opened IntQueryRoundTrip

  const LEAST: int32 := -0x8000_0000

  /** A conjunction of n times the least int. */
  function Long(n: nat): (e: Expr)
    requires n >= 1
    ensures Size(e) == 2 * n - 1
  {
    if n == 1 then Val(LEAST) else Bin(And, Long(n - 1), Val(LEAST))
  }

  lemma {:induction false} DigitsAtLeast(n: nat, k: nat)
    requires k >= 1 && n >= Pow10(k - 1)
    ensures |DecimalNat(n)| >= k
  {
    if k > 1 {
      PowPositive(k - 2);
      assert n / 10 >= Pow10(k - 2);
      DigitsAtLeast(n / 10, k - 1);
    }
  }

  lemma {:induction false} PowPositive(k: nat)
    ensures Pow10(k) >= 1
  {
    if k > 0 {
      PowPositive(k - 1);
    }
  }

  lemma {:induction false} LeastText()
    ensures |Decimal(LEAST)| == 11
  {
    DecimalWidth(LEAST);
    TenDigits();
    assert Pow10(10) == 10 * Pow10(9);
    hide Pow10;
    DigitsAtLeast(0x8000_0000, 10);
  }

  lemma {:induction false} LongText(n: nat, first: bool)
    requires n >= 1
    ensures |Render(Long(n), first)| == 14 * n - 3 && Reassoc(Long(n)) == Long(n)
  {
    LeastText();
    if n > 1 {
      LongText(n - 1, false);
    }
  }

  /** Forty million values: within the limit on items, and accepted, but not printed. */
  method ReadNotPrinted() returns (r: Input, text: Option<string>)
    ensures r == Query(Linked(Long(40_000_000))) && text.None?
  {
    hide Linked, Render, Long;
    var e := Long(40_000_000);
    LongText(40_000_000, true);
    r := ReadRendered(Render(e, true), e);
    text := PrintQuery(r.items, e);
  }
}
