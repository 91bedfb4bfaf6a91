/**
 Leaf arrays of the range-key index (g_int_compress and g_int_decompress in
 contrib/intarray/_int_gist.c). A leaf array is stored as it is, with only a notice when it
 is long, and a long key is read as ranges: a leaf of at least twice num_ranges elements may
 come back with more elements than it had.
 */
module IntRangeLeaf {
  import opened IntRange
  import opened IntRangeCompress

  /** The i-th element and the next one are neighbours. */
  ghost predicate PairAt(p: seq<int>, i: nat) {
    i + 1 < |p| && p[i + 1] == p[i] + 1
  }

  /** Read as ranges, every range is two consecutive integers. */
  ghost predicate Consecutive(p: seq<int>) {
    forall i | 0 <= i < |p| && i % 2 == 0 :: PairAt(p, i)
  }

  /** What a stored leaf array reads as. */
  ghost predicate LeafReads(p: seq<int>, ranges: nat, k: seq<int>) {
    if |p| < 2 * ranges then k == p else |p| % 2 == 0 && k == Expansion(p)
  }

  /** An increasing array of even length is a list of ranges. */
  lemma {:induction false} EvenIsRanges(p: seq<int>)
    requires Increasing(p) && |p| % 2 == 0
    ensures Ranges(p)
  {
    forall i | 0 <= i < |p| && i % 2 == 0
      ensures RangeOk(p, i)
    {
      assert p[i] < p[i + 1];
      assert i > 0 ==> p[i - 1] < p[i];
    }
  }

  /** The elements of an array, in order, lie in its expansion. */
  lemma {:induction false} ElementsKept(p: seq<int>, v: int)
    requires Increasing(p) && |p| % 2 == 0 && v in p
    ensures v in Expansion(p)
  {
    EvenIsRanges(p);
    var i :| 0 <= i < |p| && p[i] == v;
    var j := if i % 2 == 0 then i else i - 1;
    assert p[j] < p[j + 1];
    assert InRange(p, j, v);
    ExpansionMembers(p, v);
  }

  /** An array whose pairs are all consecutive expands to itself. */
  lemma {:induction false} ConsecutiveKept(p: seq<int>)
    requires Increasing(p) && |p| % 2 == 0 && Consecutive(p)
    ensures Expansion(p) == p
  {
    if p != [] {
      assert PairAt(p, 0);
      var rest := p[2..];
      forall i | 0 <= i < |rest| && i % 2 == 0
        ensures PairAt(rest, i)
      {
        assert PairAt(p, i + 2);
      }
      ConsecutiveKept(rest);
      assert Run(p[0], p[1]) == [p[0], p[1]];
      assert p == [p[0], p[1]] + rest;
    }
  }

  /** Any other array gains an element, which is an int. */
  lemma {:induction false} ExtraElement(p: seq<int>) returns (v: int)
    requires Increasing(p) && Int32s(p) && |p| % 2 == 0 && !Consecutive(p)
    ensures v in Expansion(p) && v !in p && INT_MIN <= v <= INT_MAX
  {
    var i :| 0 <= i < |p| && i % 2 == 0 && !PairAt(p, i);
    assert p[i] < p[i + 1];
    v := p[i] + 1;
    EvenIsRanges(p);
    assert InRange(p, i, v);
    ExpansionMembers(p, v);
    forall j | 0 <= j < |p|
      ensures p[j] != v
    {
      if j > i + 1 {
        assert p[i + 1] < p[j];
      } else if j < i {
        assert p[j] < p[i];
      }
    }
  }

  /** Nothing is lost; and nothing is gained if and only if the array is short or all its pairs
      are consecutive. */
  lemma {:induction false} LeafKept(p: seq<int>, ranges: nat, k: seq<int>)
    requires Increasing(p) && Int32s(p) && LeafReads(p, ranges, k)
    ensures Increasing(k) && forall v | v in p :: v in k
    ensures k == p <==> |p| < 2 * ranges || Consecutive(p)
  {
    hide Increasing, Int32s, Expansion, Consecutive;
    if |p| >= 2 * ranges {
      EvenIsRanges(p);
      ExpansionFacts(p);
      forall v | v in p
        ensures v in k
      {
        ElementsKept(p, v);
      }
      if Consecutive(p) {
        ConsecutiveKept(p);
      } else {
        var v := ExtraElement(p);
      }
    }
  }

  /** Reading a stored leaf through g_int_decompress: it fails only for sizes above the limit or
      for a last element that is the largest int. */
  method ReadLeaf(p: seq<int>, ranges: nat) returns (r: Expanded)
    requires Increasing(p) && Int32s(p) && 1 <= ranges && (|p| >= 2 * ranges ==> |p| % 2 == 0)
    ensures r.Elements? ==> LeafReads(p, ranges, r.elems)
    ensures |p| < 2 * ranges ==> r.Elements?
    ensures |p| >= 2 * ranges ==> (r.TooBig? <==> RangeSize(p) > MAX_ELEMENTS)
    ensures |p| >= 2 * ranges && !r.TooBig? ==> (r.CounterOverflow? <==> p[|p| - 1] == INT_MAX)
  {
    hide Increasing, Int32s, Expansion, RangeSize;
    if |p| % 2 == 0 {
      EvenIsRanges(p);
    }
    r := Decompress(p, ranges);
  }
}
