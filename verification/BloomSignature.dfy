/**
 Bloom signatures (contrib/bloom/blutils.c, blscan.c): which bits a column value
 sets, the signature of an index tuple and of a scan, and the covering test.
 */
module BloomSignature {
  import opened Wrappers
  import opened BloomRand
  import opened BloomPage

  const SIGNWORDBITS: nat := 16

  type uint32 = x: int | 0 <= x < 0x1_0000_0000

  /** Index options: signature length in words and bits drawn per column. */
  datatype Options = Options(bloomLength: nat, bitSize: seq<nat>)

  predicate ValidOptions(o: Options) {
    1 <= o.bloomLength <= 256 && forall i | 0 <= i < |o.bitSize| :: 1 <= o.bitSize[i]
  }

  /** GETBIT. */
  predicate HasBit(sign: seq<Word>, n: nat)
    requires n < SIGNWORDBITS * |sign|
  {
    n % SIGNWORDBITS in sign[n / SIGNWORDBITS]
  }

  /** Every word of a signature holds bits 0 to 15 only. */
  predicate IsSignature(sign: seq<Word>) {
    forall i | 0 <= i < |sign| :: forall b | b in sign[i] :: b < SIGNWORDBITS
  }

  /** The scan's word-by-word test: every scan bit is present in the tuple. */
  predicate Covers(sign: seq<Word>, scan: seq<Word>) {
    |sign| == |scan| && forall i | 0 <= i < |scan| :: sign[i] * scan[i] == scan[i]
  }

  /** Bit inclusion of whole signatures is what the scan loop tests. */
  lemma {:induction false} CoversIffBits(sign: seq<Word>, scan: seq<Word>)
    requires |sign| == |scan| && IsSignature(scan)
    ensures Covers(sign, scan)
       <==> forall n | 0 <= n < SIGNWORDBITS * |scan| :: HasBit(scan, n) ==> HasBit(sign, n)
  {
    if forall n | 0 <= n < SIGNWORDBITS * |scan| :: HasBit(scan, n) ==> HasBit(sign, n) {
      forall i | 0 <= i < |scan|
        ensures sign[i] * scan[i] == scan[i]
      {
        forall b | b in scan[i]
          ensures b in sign[i]
        {
          var n := SIGNWORDBITS * i + b;
          assert n / SIGNWORDBITS == i && n % SIGNWORDBITS == b;
          assert HasBit(scan, n) ==> HasBit(sign, n);
        }
      }
    }
    if Covers(sign, scan) {
      forall n | 0 <= n < SIGNWORDBITS * |scan|
        ensures HasBit(scan, n) ==> HasBit(sign, n)
      {
        assert sign[n / SIGNWORDBITS] * scan[n / SIGNWORDBITS] == scan[n / SIGNWORDBITS];
      }
    }
  }

  function Pow2(n: nat): nat {
    if n == 0 then 1 else 2 * Pow2(n - 1)
  }

  /** The exclusive or of the lowest n bits. */
  function XorBits(a: nat, b: nat, n: nat): (r: nat)
    ensures r < Pow2(n)
  {
    if n == 0 then 0 else 2 * XorBits(a / 2, b / 2, n - 1) + (if a % 2 == b % 2 then 0 else 1)
  }

  lemma {:induction false} Pow2Eight(n: nat)
    ensures Pow2(n + 8) == 0x100 * Pow2(n)
  {
    assert Pow2(n + 2) == 4 * Pow2(n);
    assert Pow2(n + 4) == 4 * Pow2(n + 2);
    assert Pow2(n + 6) == 4 * Pow2(n + 4);
    assert Pow2(n + 8) == 4 * Pow2(n + 6);
  }

  lemma {:induction false} Pow2Of32()
    ensures Pow2(32) == 0x1_0000_0000
  {
    assert Pow2(0) == 1;
    hide Pow2;
    Pow2Eight(0);
    Pow2Eight(8);
    Pow2Eight(16);
    Pow2Eight(24);
  }

  /** C's `^` on uint32 values. */
  function Xor32(a: uint32, b: uint32): uint32 {
    Pow2Of32();
    XorBits(a, b, 32)
  }

  /** The seed for one value: its hash mixed with the first draw for its column. */
  function ValueSeed(hash: uint32, attno: nat): uint32
    requires attno < 32
  {
    MultiplierInvertible(SeedState(attno));
    Xor32(hash, NextState(SeedState(attno)) - 1)
  }

  /** The j-th bit number drawn from a seed (j counts from 1); -1 when the generator collapsed. */
  ghost function DrawnBit(o: Options, seed: uint32, j: nat): (n: int)
    requires ValidOptions(o) && j >= 1
  {
    CMod(StateAfter(SeedState(seed), j) - 1, SIGNWORDBITS * o.bloomLength)
  }

  /** Bit n is among the first k bits drawn from the seed. */
  ghost predicate DrawnWithin(o: Options, seed: uint32, k: nat, n: nat)
    requires ValidOptions(o)
  {
    exists j {:trigger DrawnBit(o, seed, j)} :: 1 <= j <= k && DrawnBit(o, seed, j) == n
  }

  /** Bit n is one of the bits a column value sets. */
  ghost predicate ValueSets(o: Options, hash: uint32, attno: nat, n: nat)
    requires ValidOptions(o) && attno < |o.bitSize| <= 32
  {
    DrawnWithin(o, ValueSeed(hash, attno), o.bitSize[attno], n)
  }

  lemma {:induction false} DrawnBitRange(o: Options, seed: uint32, j: nat)
    requires ValidOptions(o) && j >= 1
    ensures if BadSeed(seed) then DrawnBit(o, seed, j) == -1
            else 0 <= DrawnBit(o, seed, j) < SIGNWORDBITS * o.bloomLength
  {
    DrawnValues(seed, j);
    OneModulo(SIGNWORDBITS * o.bloomLength);
  }

  lemma {:induction false} OneModulo(m: int)
    requires m > 1
    ensures 1 % m == 1
  {
  }

  /** Every bit number drawn lies inside the signature if and only if the seed is
      not one of the two that collapse the generator. */
  lemma {:induction false} DrawnBitsInSignature(o: Options, seed: uint32)
    requires ValidOptions(o)
    ensures !BadSeed(seed) <==> forall j {:trigger DrawnBit(o, seed, j)} | j >= 1 ::
              0 <= DrawnBit(o, seed, j) < SIGNWORDBITS * o.bloomLength
  {
    DrawnBitRange(o, seed, 1);
    forall j {:trigger DrawnBit(o, seed, j)} | j >= 1 && !BadSeed(seed)
      ensures 0 <= DrawnBit(o, seed, j) < SIGNWORDBITS * o.bloomLength
    {
      DrawnBitRange(o, seed, j);
    }
  }

  /** Exclusive or undoes itself. */
  lemma {:induction false} XorTwice(a: nat, b: nat, n: nat)
    requires a < Pow2(n)
    ensures XorBits(XorBits(a, b, n), b, n) == a
  {
    if n > 0 {
      XorTwice(a / 2, b / 2, n - 1);
      var r := XorBits(a, b, n);
      assert r / 2 == XorBits(a / 2, b / 2, n - 1);
    }
  }

  lemma {:induction false} Xor32Twice(a: uint32, b: uint32)
    ensures Xor32(Xor32(a, b), b) == a
  {
    hide XorBits, Pow2;
    Pow2Of32();
    XorTwice(a, b, 32);
  }

  /** For each column, every seed comes from exactly one hash value. */
  lemma {:induction false} SeedHash(attno: nat, seed: uint32) returns (hash: uint32)
    requires attno < 32
    ensures forall x: uint32 :: ValueSeed(x, attno) == seed <==> x == hash
  {
    hide Xor32;
    MultiplierInvertible(SeedState(attno));
    var r: uint32 := NextState(SeedState(attno)) - 1;
    hash := Xor32(seed, r);
    forall x: uint32
      ensures ValueSeed(x, attno) == seed <==> x == hash
    {
      Xor32Twice(x, r);
      Xor32Twice(seed, r);
    }
  }

  /** In each column, and for each of its draws, every bit of the signature is drawn for some
      hash value, which thereby sets it. */
  lemma {:induction false} EveryBitDrawn(o: Options, attno: nat, j: nat, n: nat) returns (hash: uint32)
    requires ValidOptions(o) && attno < |o.bitSize| <= 32
    requires 1 <= j <= o.bitSize[attno] && n < SIGNWORDBITS * o.bloomLength
    ensures DrawnBit(o, ValueSeed(hash, attno), j) == n && ValueSets(o, hash, attno, n)
  {
    hide ValueSeed, DrawnBit;
    var seed := SeedDraws(o, j, n);
    hash := SeedHash(attno, seed);
    assert ValueSeed(hash, attno) == seed;
  }

  lemma {:induction false} SeedDraws(o: Options, j: nat, n: nat) returns (seed: uint32)
    requires ValidOptions(o) && j >= 1 && n < SIGNWORDBITS * o.bloomLength
    ensures DrawnBit(o, seed, j) == n
  {
    hide StateAfter;
    var s := StateBefore(n + 1, j);
    seed := s - 1;
    assert SeedState(seed) == s;
    Small(n, SIGNWORDBITS * o.bloomLength);
  }

  lemma {:induction false} Small(n: nat, m: nat)
    requires n < m
    ensures n % m == n
  {
  }

  /** A value sets no more bits than its column draws. */
  lemma {:induction false} FewBits(o: Options, hash: uint32, attno: nat, bits: set<nat>)
    requires ValidOptions(o) && attno < |o.bitSize| <= 32
    requires forall n | n in bits :: ValueSets(o, hash, attno, n)
    ensures |bits| <= o.bitSize[attno]
  {
    DrawnFew(o, ValueSeed(hash, attno), o.bitSize[attno], bits);
  }

  lemma {:induction false} DrawnFew(o: Options, seed: uint32, k: nat, bits: set<nat>)
    requires ValidOptions(o) && forall n | n in bits :: DrawnWithin(o, seed, k, n)
    ensures |bits| <= k
  {
    hide DrawnBit;
    if k == 0 {
      assert bits == {};
    } else {
      var rest := set n | n in bits && n != DrawnBit(o, seed, k);
      DrawnFew(o, seed, k - 1, rest);
      if rest != bits {
        assert bits == rest + {DrawnBit(o, seed, k)};
      }
    }
  }

  lemma {:induction false} XorSame(a: nat, b: nat, n: nat)
    ensures XorBits(a, b, n) == XorBits(b, a, n)
  {
    if n > 0 {
      XorSame(a / 2, b / 2, n - 1);
    }
  }

  /** Two columns turn the same hash value into different seeds. */
  lemma {:induction false} ColumnsDiffer(hash: uint32, a: nat, b: nat)
    requires a < b < 32
    ensures ValueSeed(hash, a) != ValueSeed(hash, b)
  {
    hide XorBits, Pow2;
    var x: uint32 := MULTIPLIER * (a + 1) - 1;
    var y: uint32 := MULTIPLIER * (b + 1) - 1;
    assert ValueSeed(hash, a) == XorBits(hash, x, 32) == XorBits(x, hash, 32) by {
      XorSame(hash, x, 32);
    }
    assert ValueSeed(hash, b) == XorBits(hash, y, 32) == XorBits(y, hash, 32) by {
      XorSame(hash, y, 32);
    }
    Xor32Twice(x, hash);
    Xor32Twice(y, hash);
  }

  /** In each column exactly two hash values collapse the generator, and a row with one of them
      draws bit numbers outside the signature. */
  lemma {:induction false} BadHashes(o: Options, attno: nat) returns (a: uint32, b: uint32)
    requires ValidOptions(o) && attno < 32
    ensures a != b && forall x: uint32 :: BadSeed(ValueSeed(x, attno)) <==> x == a || x == b
    ensures DrawnBit(o, ValueSeed(a, attno), 1) < 0 && DrawnBit(o, ValueSeed(b, attno), 1) < 0
  {
    hide ValueSeed, DrawnBit;
    a := SeedHash(attno, 0xFFFF_FFFF);
    b := SeedHash(attno, 0x8000_0001);
    assert ValueSeed(a, attno) == 0xFFFF_FFFF && ValueSeed(b, attno) == 0x8000_0001;
    DrawnBitRange(o, ValueSeed(a, attno), 1);
    DrawnBitRange(o, ValueSeed(b, attno), 1);
  }

  method PaintBit(sign: array<Word>, n: nat)
    requires n < SIGNWORDBITS * sign.Length
    modifies sign
    ensures sign[..] == SetBit(old(sign[..]), n)
  {
    sign[n / SIGNWORDBITS] := sign[n / SIGNWORDBITS] + {n % SIGNWORDBITS};
  }

  /** The drawing loop of signValue, on a freshly seeded generator. `inRange` reports
      whether every bit number was valid; a negative bit number is undefined behaviour
      in C and sets nothing here. */
  method DrawBits(o: Options, g: Generator, sign: array<Word>, ghost seed: uint32, count: nat)
    returns (inRange: bool)
    requires ValidOptions(o) && sign.Length == o.bloomLength
    requires g.next == SeedState(seed)
    modifies g, sign
    ensures Painted(o, old(sign[..]), sign[..], seed, count)
    ensures inRange <==> count == 0 || !BadSeed(seed)
  {
    inRange := true;
    ghost var before := sign[..];
    var j := 0;
    while j < count
      invariant 0 <= j <= count
      invariant g.next == StateAfter(SeedState(seed), j)
      invariant Painted(o, before, sign[..], seed, j)
      invariant inRange <==> j == 0 || !BadSeed(seed)
    {
      ghost var was := sign[..];
      var r := g.Rand();
      var nBit := CMod(r, SIGNWORDBITS * o.bloomLength);
      assert nBit == DrawnBit(o, seed, j + 1);
      DrawnBitRange(o, seed, j + 1);
      if nBit < 0 {
        inRange := false;
      } else {
        PaintBit(sign, nBit);
      }
      PaintedStep(o, before, was, sign[..], seed, j, nBit);
      j := j + 1;
    }
  }

  /** signValue: seed the generator with the column, reseed it with the mixed hash
      and set the drawn bits. */
  method SignValue(o: Options, g: Generator, sign: array<Word>, hash: uint32, attno: nat)
    returns (inRange: bool)
    requires ValidOptions(o) && attno < |o.bitSize| <= 32
    requires sign.Length == o.bloomLength
    modifies g, sign
    ensures Painted(o, old(sign[..]), sign[..], ValueSeed(hash, attno), o.bitSize[attno])
    ensures inRange <==> !BadSeed(ValueSeed(hash, attno))
  {
    g.Srand(attno);
    var r := g.Rand();
    var seed := Xor32(hash, r);
    g.Srand(seed);
    inRange := DrawBits(o, g, sign, seed, o.bitSize[attno]);
  }

  /** SETBIT. */
  function SetBit(sign: seq<Word>, n: nat): seq<Word>
    requires n < SIGNWORDBITS * |sign|
  {
    sign[n / SIGNWORDBITS := sign[n / SIGNWORDBITS] + {n % SIGNWORDBITS}]
  }

  lemma {:induction false} SetBitIsSet(sign: seq<Word>, n: nat, m: nat)
    requires n < SIGNWORDBITS * |sign| && m < SIGNWORDBITS * |sign|
    ensures HasBit(SetBit(sign, n), m) <==> HasBit(sign, m) || n == m
    ensures IsSignature(sign) ==> IsSignature(SetBit(sign, n))
  {
  }

  /** `after` is `before` plus the first k bits drawn from the seed. */
  ghost predicate Painted(o: Options, before: seq<Word>, after: seq<Word>, seed: uint32, k: nat)
    requires ValidOptions(o)
  {
    && |before| == |after| == o.bloomLength
    && (IsSignature(before) ==> IsSignature(after))
    && forall n | 0 <= n < SIGNWORDBITS * o.bloomLength ::
         HasBit(after, n) <==> HasBit(before, n) || DrawnWithin(o, seed, k, n)
  }

  lemma {:induction false} PaintedStep(o: Options, before: seq<Word>, was: seq<Word>, now: seq<Word>, seed: uint32, k: nat, bit: int)
    requires ValidOptions(o)
    requires Painted(o, before, was, seed, k)
    requires bit == DrawnBit(o, seed, k + 1) < SIGNWORDBITS * o.bloomLength
    requires if bit < 0 then now == was else now == SetBit(was, bit)
    ensures Painted(o, before, now, seed, k + 1)
  {
    forall n | 0 <= n < SIGNWORDBITS * o.bloomLength
      ensures HasBit(now, n) <==> HasBit(before, n) || DrawnWithin(o, seed, k + 1, n)
    {
      if bit >= 0 {
        SetBitIsSet(was, bit, n);
      }
      if DrawnWithin(o, seed, k, n) {
        var j :| 1 <= j <= k && DrawnBit(o, seed, j) == n;
        assert DrawnWithin(o, seed, k + 1, n);
      }
      if DrawnWithin(o, seed, k + 1, n) && bit != n {
        var j :| 1 <= j <= k + 1 && DrawnBit(o, seed, j) == n;
        assert DrawnWithin(o, seed, k, n);
      }
    }
  }

  type Datum = int
  /** The operator class hash function of each column. */
  type HashFn = (nat, Datum) -> uint32
  type Row = seq<Option<Datum>>

  /** A scan key compares one column with a value; None is a NULL key. */
  datatype ScanKey = ScanKey(attno: nat, argument: Option<Datum>)

  /** Bit n is set by one of the first c columns of the row; NULLs set nothing. */
  ghost predicate RowSets(o: Options, h: HashFn, row: Row, c: nat, n: nat)
    requires ValidOptions(o) && c <= |row| == |o.bitSize| <= 32
  {
    exists i | 0 <= i < c :: row[i].Some? && ValueSets(o, h(i, row[i].value), i, n)
  }

  ghost predicate ValidKeys(o: Options, keys: seq<ScanKey>) {
    |o.bitSize| <= 32 && forall i | 0 <= i < |keys| :: keys[i].attno < |o.bitSize|
  }

  /** Bit n is set by one scan key. */
  ghost predicate KeySets(o: Options, h: HashFn, key: ScanKey, n: nat)
    requires ValidOptions(o) && key.attno < |o.bitSize| <= 32
  {
    key.argument.Some? && ValueSets(o, h(key.attno, key.argument.value), key.attno, n)
  }

  /** Bit n is set by one of the first c scan keys. */
  ghost predicate KeysSet(o: Options, h: HashFn, keys: seq<ScanKey>, c: nat, n: nat)
    requires ValidOptions(o) && ValidKeys(o, keys) && c <= |keys|
  {
    exists i | 0 <= i < c :: KeySets(o, h, keys[i], n)
  }

  /** The signature of the first c columns of a row. */
  ghost predicate RowSignature(o: Options, h: HashFn, sign: seq<Word>, row: Row, c: nat)
    requires ValidOptions(o) && c <= |row| == |o.bitSize| <= 32
  {
    && |sign| == o.bloomLength
    && IsSignature(sign)
    && forall n | 0 <= n < SIGNWORDBITS * |sign| :: HasBit(sign, n) <==> RowSets(o, h, row, c, n)
  }

  /** The signature of the first c scan keys. */
  ghost predicate KeySignature(o: Options, h: HashFn, sign: seq<Word>, keys: seq<ScanKey>, c: nat)
    requires ValidOptions(o) && ValidKeys(o, keys) && c <= |keys|
  {
    && |sign| == o.bloomLength
    && IsSignature(sign)
    && forall n | 0 <= n < SIGNWORDBITS * |sign| :: HasBit(sign, n) <==> KeysSet(o, h, keys, c, n)
  }

  /** The tuple is the one BloomFormTuple makes for the row. */
  ghost predicate FormedFrom(o: Options, h: HashFn, t: Tuple, row: Row)
    requires ValidOptions(o) && |row| == |o.bitSize| <= 32
  {
    RowSignature(o, h, t.sign, row, |row|)
  }

  /** The signature is the one a scan computes for its keys. */
  ghost predicate ScansFor(o: Options, h: HashFn, sign: seq<Word>, keys: seq<ScanKey>)
    requires ValidOptions(o) && ValidKeys(o, keys)
  {
    KeySignature(o, h, sign, keys, |keys|)
  }

  /** The row satisfies every scan key; equality operators are strict, so a NULL on
      either side never matches. */
  predicate RowMatches(row: Row, keys: seq<ScanKey>) {
    forall i | 0 <= i < |keys| ::
      keys[i].argument.Some? && keys[i].attno < |row| && row[keys[i].attno] == keys[i].argument
  }

  /** BloomFormTuple. */
  method FormTuple(o: Options, g: Generator, h: HashFn, tid: Tid, row: Row) returns (t: Tuple)
    requires ValidOptions(o) && |row| == |o.bitSize| <= 32
    modifies g
    ensures t.heapPtr == tid
    ensures FormedFrom(o, h, t, row)
  {
    var sign := new Word[o.bloomLength](_ => {});
    var i := 0;
    while i < |row|
      invariant 0 <= i <= |row|
      invariant fresh(sign) && sign.Length == o.bloomLength
      invariant RowSignature(o, h, sign[..], row, i)
    {
      ghost var was := sign[..];
      if row[i].Some? {
        var _ := SignValue(o, g, sign, h(i, row[i].value), i);
      }
      RowSetsStep(o, h, row, i, was, sign[..]);
      i := i + 1;
    }
    t := Tuple(tid, sign[..]);
  }

  lemma {:induction false} RowSetsStep(o: Options, h: HashFn, row: Row, i: nat, was: seq<Word>, now: seq<Word>)
    requires ValidOptions(o) && i < |row| == |o.bitSize| <= 32
    requires RowSignature(o, h, was, row, i)
    requires if row[i].None? then now == was
             else Painted(o, was, now, ValueSeed(h(i, row[i].value), i), o.bitSize[i])
    ensures RowSignature(o, h, now, row, i + 1)
  {
  }

  /** The signature part of blgetbitmap: a NULL key ends the scan before it starts. */
  method ScanSignature(o: Options, g: Generator, h: HashFn, keys: seq<ScanKey>)
    returns (r: Option<seq<Word>>)
    requires ValidOptions(o) && ValidKeys(o, keys)
    modifies g
    ensures r.None? <==> exists i | 0 <= i < |keys| :: keys[i].argument.None?
    ensures r.Some? ==> ScansFor(o, h, r.value, keys)
  {
    var sign := new Word[o.bloomLength](_ => {});
    var i := 0;
    while i < |keys|
      invariant 0 <= i <= |keys|
      invariant fresh(sign) && sign.Length == o.bloomLength
      invariant forall j | 0 <= j < i :: keys[j].argument.Some?
      invariant KeySignature(o, h, sign[..], keys, i)
    {
      if keys[i].argument.None? {
        return None;
      }
      ghost var was := sign[..];
      var key := keys[i];
      var _ := SignValue(o, g, sign, h(key.attno, key.argument.value), key.attno);
      KeysSetStep(o, h, keys, i, was, sign[..]);
      i := i + 1;
    }
    r := Some(sign[..]);
  }

  lemma {:induction false} KeysSetStep(o: Options, h: HashFn, keys: seq<ScanKey>, i: nat, was: seq<Word>, now: seq<Word>)
    requires ValidOptions(o) && ValidKeys(o, keys) && i < |keys| && keys[i].argument.Some?
    requires KeySignature(o, h, was, keys, i)
    requires Painted(o, was, now, ValueSeed(h(keys[i].attno, keys[i].argument.value), keys[i].attno),
                     o.bitSize[keys[i].attno])
    ensures KeySignature(o, h, now, keys, i + 1)
  {
  }

  /** No false negatives: a row that satisfies the keys has a signature that covers
      the scan signature, whatever the hash functions are. */
  lemma {:induction false} MatchingRowIsCovered(o: Options, h: HashFn, t: Tuple, row: Row, sign: seq<Word>, keys: seq<ScanKey>)
    requires ValidOptions(o) && |row| == |o.bitSize| <= 32 && ValidKeys(o, keys)
    requires FormedFrom(o, h, t, row) && ScansFor(o, h, sign, keys)
    requires RowMatches(row, keys)
    ensures Covers(t.sign, sign)
  {
    forall n | 0 <= n < SIGNWORDBITS * |sign| && HasBit(sign, n)
      ensures HasBit(t.sign, n)
    {
      var i :| 0 <= i < |keys| && KeySets(o, h, keys[i], n);
      var c := keys[i].attno;
      assert row[c].Some? && ValueSets(o, h(c, row[c].value), c, n);
      assert RowSets(o, h, row, |row|, n);
    }
    CoversIffBits(t.sign, sign);
  }
}
