/**
 A value that can be printed but not read: hstore_in keeps the pairs of a text in an array that
 cannot grow beyond 2^24 entries (parse_hstore in contrib/hstore/hstore_io.c), while a packed
 value may hold more.
 */
module HstoreMany {
  import opened Wrappers
  import opened ByteOrder
  import opened HstoreFormat
  import opened HstoreMap
  import opened HstoreText
  import opened HstorePrint
  import opened HstoreLanguage
  import opened HstoreRoundTrip

  function Power(n: nat): nat {
    if n == 0 then 1 else 128 * Power(n - 1)
  }

  /** A number as a key of n bytes, none of them zero. */
  function Digits(i: nat, n: nat): (w: bytes)
    ensures |w| == n && forall k | 0 <= k < n :: w[k] != 0
  {
    if n == 0 then [] else Digits(i / 128, n - 1) + [i % 128 + 1]
  }

  lemma {:induction false} LexExtend(s: seq<int>, t: seq<int>, x: int, y: int, k: nat)
    requires |s| == |t| && k <= |s| && LexFrom(s, t, k) < 0
    ensures LexFrom(s + [x], t + [y], k) < 0
    decreases |s| - k
  {
    if k < |s| && s[k] == t[k] {
      LexExtend(s, t, x, y, k + 1);
    }
  }

  lemma {:induction false} LexLast(s: seq<int>, x: int, y: int, k: nat)
    requires k <= |s| && x < y
    ensures LexFrom(s + [x], s + [y], k) < 0
    decreases |s| - k
  {
    if k < |s| {
      LexLast(s, x, y, k + 1);
    }
  }

  lemma {:induction false} DigitsOrdered(i: nat, j: nat, n: nat)
    requires i < j < Power(n)
    ensures Lex(Digits(i, n), Digits(j, n)) < 0
  {
    hide LexFrom;
    if n > 0 {
      var s, t := Digits(i / 128, n - 1), Digits(j / 128, n - 1);
      if i / 128 == j / 128 {
        LexLast(s, i % 128 + 1, j % 128 + 1, 0);
      } else {
        DigitsOrdered(i / 128, j / 128, n - 1);
        LexExtend(s, t, i % 128 + 1, j % 128 + 1, 0);
      }
    }
  }

  /** The keys 0 to n - 1, all with a null value. */
  function Many(n: nat): (ps: seq<Pair>)
    ensures |ps| == n
  {
    seq(n, i requires 0 <= i < n => Pair(Digits(i, 4), None))
  }

  lemma {:induction false} ManySizes(n: nat)
    ensures |Str(Many(n))| == 4 * n && Bound(Many(n)) == 18 * n
  {
    if n > 0 {
      ManySizes(n - 1);
      assert Many(n)[..n - 1] == Many(n - 1);
      assert |Many(n)[n - 1].key| == 4;
    }
  }

  lemma {:induction false} ManySorted(n: nat)
    requires n <= Power(4)
    ensures Sorted(Many(n)) && NoNulPairs(Many(n))
  {
    hide Digits, Lex, Power;
    forall i, j | 0 <= i < j < n
      ensures Less(Many(n)[i].key, Many(n)[j].key)
    {
      DigitsOrdered(i, j, 4);
    }
  }

  lemma {:induction false} PowerOfFour()
    ensures Power(4) == 0x1000_0000
  {
    assert Power(2) == 128 * Power(1) && Power(1) == 128 * Power(0);
    assert Power(4) == 128 * Power(3) && Power(3) == 128 * Power(2);
  }

  /** A canonical value that hstore_out prints and hstore_in refuses. */
  lemma {:induction false} PrintedButNotRead() returns (h: HStore)
    ensures Canonical(h) && Bound(Decode(h)) <= MAX_SIZE
    ensures Parse(Render(Decode(h)), 0, WKey, [], []) == ParseError
  {
    hide Many, Sorted, NoNulPairs, Str, Bound, Pack, Decode, Canonical, Parse, Render, Power;
    var ps := Many(PAIRS_MAX + 1);
    PowerOfFour();
    ManySizes(|ps|);
    ManySorted(|ps|);
    h := Pack(ps);
    PackIsCanonical(ps);
    ReadPrinted(ps);
  }
}
