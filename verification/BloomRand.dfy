/**
 The generator behind bloom signatures (contrib/bloom/blutils.c): a 32-bit
 Park-Miller generator evaluated with Schrage's decomposition, and its seeding.
 C's `/` and `%` truncate toward zero, which matters because seeds of 2^31 and
 above become negative when they are stored in the int32 state.
 */
module BloomRand {

  const MODULUS: int := 0x7fff_ffff
  const MULTIPLIER: int := 16807

  /** C division: truncation toward zero. */
  function CDiv(a: int, b: int): (q: int)
    requires b > 0
  {
    if a >= 0 then a / b else -((-a) / b)
  }

  /** C remainder: it takes the sign of the dividend. */
  function CMod(a: int, b: int): (r: int)
    requires b > 0
    ensures if a >= 0 then 0 <= r < b else -b < r <= 0
  {
    if a >= 0 then a % b else -((-a) % b)
  }

  predicate IsInt32(x: int) {
    -0x8000_0000 <= x < 0x8000_0000
  }

  predicate IsUint32(x: int) {
    0 <= x < 0x1_0000_0000
  }

  /** The int32 that a uint32 becomes when it is assigned to the state. */
  function ToInt32(x: int): (r: int)
    requires IsUint32(x)
    ensures IsInt32(r)
  {
    if x < 0x8000_0000 then x else x - 0x1_0000_0000
  }

  /** The mathematical generator: multiplication modulo the Mersenne prime 2^31 - 1. */
  function NextState(s: int): (r: int)
    ensures 0 <= r < MODULUS
  {
    (MULTIPLIER * s) % MODULUS
  }

  /** The state that seeding leaves behind. */
  function SeedState(seed: int): (r: int)
    requires IsUint32(seed)
    ensures -MODULUS < r < MODULUS
  {
    CMod(ToInt32(seed), 0x7fff_fffe) + 1
  }

  /** The two seeds that collapse the generator. */
  predicate BadSeed(seed: int) {
    seed == 0xFFFF_FFFF || seed == 0x8000_0001
  }

  /** The static variable `next` and the two functions that update it. */
  class Generator {
    var next: int

    constructor ()
      ensures next == 0
    {
      next := 0;
    }

    /** Schrage's method computes the product modulo 2^31 - 1; every intermediate
        value fits an int32, also when the state is negative. */
    method Rand() returns (r: int)
      requires -MODULUS < next < MODULUS
      modifies this
      ensures next == NextState(old(next))
      ensures r == next - 1
      ensures next == 0 <==> old(next) == 0
    {
      ghost var s := next;
      var hi := CDiv(next, 127773);
      var lo := CMod(next, 127773);
      assert IsInt32(16807 * lo) && IsInt32(2836 * hi);
      var x := 16807 * lo - 2836 * hi;
      assert IsInt32(x);
      SchrageCongruent(s);
      if x < 0 {
        x := x + 0x7fff_ffff;
      }
      assert IsInt32(x);
      next := x;
      MultiplierInvertible(s);
      r := x - 1;
    }

    method Srand(seed: int)
      requires IsUint32(seed)
      modifies this
      ensures next == SeedState(seed)
    {
      next := ToInt32(seed);
      next := CMod(next, 0x7fff_fffe) + 1;
    }
  }

  /** One Schrage step, before the final correction, is congruent to the product
      and lies within one modulus of zero. */
  lemma {:induction false} SchrageCongruent(s: int)
    requires -MODULUS < s < MODULUS
    ensures var x := 16807 * CMod(s, 127773) - 2836 * CDiv(s, 127773);
            -MODULUS < x < MODULUS && NextState(s) == (if x < 0 then x + MODULUS else x)
  {
    var hi, lo := CDiv(s, 127773), CMod(s, 127773);
    assert s == 127773 * hi + lo && -16808 < hi < 16808 && -127773 < lo < 127773 by {
      if s >= 0 {
        assert s == 127773 * (s / 127773) + s % 127773;
      } else {
        assert -s == 127773 * ((-s) / 127773) + (-s) % 127773;
      }
    }
    var x := 16807 * lo - 2836 * hi;
    assert MULTIPLIER * s == MODULUS * hi + x;
    var c := if x < 0 then x + MODULUS else x;
    var k := if x < 0 then hi - 1 else hi;
    RemainderUnique(MULTIPLIER * s, k, c);
  }

  lemma {:induction false} RemainderUnique(a: int, k: int, c: int)
    requires a == MODULUS * k + c
    requires 0 <= c < MODULUS
    ensures a % MODULUS == c
  {
    var q := a / MODULUS;
    assert a == MODULUS * q + a % MODULUS;
    assert MODULUS * (k - q) == a % MODULUS - c;
  }

  /** 16807 has the inverse 1407677000, so only the zero state leads to the zero state. */
  lemma {:induction false} MultiplierInvertible(s: int)
    requires -MODULUS < s < MODULUS
    ensures NextState(s) == 0 <==> s == 0
  {
    if NextState(s) == 0 {
      var k := (MULTIPLIER * s) / MODULUS;
      assert MULTIPLIER * s == MODULUS * k;
      // 16807 * 1407677000 == 11017 * (2^31 - 1) + 1
      assert s == MODULUS * (1407677000 * k - 11017 * s);
    }
  }

  /** Seeding collapses the state for exactly two seeds. */
  lemma {:induction false} SeedStateZero(seed: int)
    requires IsUint32(seed)
    ensures SeedState(seed) == 0 <==> BadSeed(seed)
  {
  }

  /** The state after n calls. */
  ghost function StateAfter(s: int, n: nat): (r: int)
    requires -MODULUS < s < MODULUS
    ensures -MODULUS < r < MODULUS
  {
    if n == 0 then s else NextState(StateAfter(s, n - 1))
  }

  /** Every state but zero is reached in n calls, from some other such state. */
  lemma {:induction false} StateBefore(x: int, n: nat) returns (s: int)
    requires 0 < x < MODULUS
    ensures 0 < s < MODULUS && StateAfter(s, n) == x
    decreases n
  {
    if n == 0 {
      s := x;
    } else {
      var y := (1407677000 * x) % MODULUS;
      var k := (1407677000 * x) / MODULUS;
      assert 1407677000 * x == MODULUS * k + y;
      // 16807 * 1407677000 == 11017 * (2^31 - 1) + 1
      assert MULTIPLIER * y == MODULUS * (11017 * x - MULTIPLIER * k) + x;
      RemainderUnique(MULTIPLIER * y, 11017 * x - MULTIPLIER * k, x);
      MultiplierInvertible(y);
      s := StateBefore(y, n - 1);
    }
  }

  /** Whole runs: from any seed but the two bad ones every value drawn lies in
      [0, 2^31 - 3], and from a bad seed every value drawn is -1. */
  lemma {:induction false} DrawnValues(seed: int, n: nat)
    requires IsUint32(seed)
    ensures !BadSeed(seed) ==> (n > 0 ==> 0 <= StateAfter(SeedState(seed), n) - 1 <= 0x7fff_fffd)
    ensures !BadSeed(seed) ==> StateAfter(SeedState(seed), n) != 0
    ensures BadSeed(seed) ==> StateAfter(SeedState(seed), n) == 0
  {
    SeedStateZero(seed);
    if n > 0 {
      DrawnValues(seed, n - 1);
      MultiplierInvertible(StateAfter(SeedState(seed), n - 1));
    }
  }
}
