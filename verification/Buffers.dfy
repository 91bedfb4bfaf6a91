/**
 Buffers that grow by doubling, up to the limit on one allocation.
 */
module Buffers {

  /** MaxAllocSize, the limit on a palloc request. */
  const MAX_ALLOC: nat := 0x3FFF_FFFF

  /** The sizes that a buffer reaches from its first one by doubling. */
  predicate Doubles(n: nat, first: nat) {
    n == first || (n > first && n % 2 == 0 && Doubles(n / 2, first))
  }

  lemma {:induction false} DoubleBelow(n: nat, top: nat, first: nat)
    requires 0 < first && Doubles(n, first) && Doubles(top, first) && n < top
    ensures 2 * n <= top && Doubles(2 * n, first)
  {
    if n == first {
      DoublesAtLeast(top / 2, first);
    } else if top > first {
      DoubleBelow(n / 2, top / 2, first);
    }
  }

  lemma {:induction false} DoublesAtLeast(n: nat, first: nat)
    requires Doubles(n, first)
    ensures n >= first
  {
  }

  /** Four doublings. */
  lemma {:induction false} Sixteenfold(n: nat, first: nat)
    requires 0 < first && Doubles(n, first)
    ensures Doubles(16 * n, first)
  {
    hide Doubles;
    Twice(n, first);
    Twice(2 * n, first);
    Twice(4 * n, first);
    Twice(8 * n, first);
  }

  lemma {:induction false} Twice(n: nat, first: nat)
    requires 0 < first && Doubles(n, first)
    ensures Doubles(2 * n, first)
  {
    DoublesAtLeast(n, first);
  }

  /** Growing by doubling fails exactly at the limit. */
  lemma {:induction false} GrowsIffBelow(n: nat, first: nat, top: nat, each: nat)
    requires 0 < first && Doubles(n, first) && Doubles(top, first) && n <= top
    requires each * top <= MAX_ALLOC < each * (2 * top)
    ensures each * (2 * n) <= MAX_ALLOC <==> n < top
    ensures n < top ==> Doubles(2 * n, first) && 2 * n <= top
  {
    if n < top {
      DoubleBelow(n, top, first);
      Times(each, 2 * n, top);
    }
  }

  lemma {:induction false} Times(k: nat, a: nat, b: nat)
    requires a <= b
    ensures k * a <= k * b
  {
  }
}
