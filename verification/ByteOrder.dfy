/** Byte strings and their order: memcmp on the common length, then the lengths. */
module ByteOrder {

  type byte = x: int | 0 <= x < 256
  type bytes = seq<byte>

  /** Lexicographic comparison from position i on; a proper prefix is smaller. */
  function LexFrom(s: seq<int>, t: seq<int>, i: nat): (c: int)
    ensures -1 <= c <= 1
    decreases |s| - i
  {
    if i >= |s| then (if i >= |t| then 0 else -1)
    else if i >= |t| then 1
    else if s[i] < t[i] then -1
    else if s[i] > t[i] then 1
    else LexFrom(s, t, i + 1)
  }

  function Lex(s: seq<int>, t: seq<int>): int {
    LexFrom(s, t, 0)
  }

  /** At position i the sequences part, and s is the smaller one: it ends there, or has the
      smaller element. */
  predicate PartsBelow(s: seq<int>, t: seq<int>, i: nat) {
    && i <= |s| && i < |t| && (forall k | 0 <= k < i :: s[k] == t[k])
    && (i == |s| || s[i] < t[i])
  }

  /** The order is decided at the first difference. */
  lemma {:induction false} LexFirstDifference(s: seq<int>, t: seq<int>)
    ensures Lex(s, t) < 0 <==> exists i: nat :: PartsBelow(s, t, i)
  {
    if Lex(s, t) < 0 {
      var i := FirstDifference(s, t, 0);
    }
    if i: nat :| PartsBelow(s, t, i) {
      DecidedAt(s, t, 0, i);
    }
  }

  lemma {:induction false} FirstDifference(s: seq<int>, t: seq<int>, from: nat) returns (i: nat)
    requires from <= |s| && from <= |t| && (forall k | 0 <= k < from :: s[k] == t[k]) && LexFrom(s, t, from) < 0
    ensures PartsBelow(s, t, i)
    decreases |s| - from
  {
    i := from;
    if from < |s| && s[from] == t[from] {
      i := FirstDifference(s, t, from + 1);
    }
  }

  lemma {:induction false} DecidedAt(s: seq<int>, t: seq<int>, from: nat, i: nat)
    requires PartsBelow(s, t, i) && from <= i
    ensures LexFrom(s, t, from) == -1
    decreases i - from
  {
    if from < i {
      DecidedAt(s, t, from + 1, i);
    }
  }

  lemma {:induction false} LexFromEqual(s: seq<int>, t: seq<int>, i: nat)
    requires i <= |s| && i <= |t| && s[..i] == t[..i]
    ensures LexFrom(s, t, i) == 0 <==> s == t
    decreases |s| - i
  {
    if i < |s| && i < |t| && s[i] == t[i] {
      assert s[..i + 1] == s[..i] + [s[i]] && t[..i + 1] == t[..i] + [t[i]];
      LexFromEqual(s, t, i + 1);
    } else if i == |s| && i == |t| {
      assert s == s[..i] && t == t[..i];
    }
  }

  lemma {:induction false} LexFromReverse(s: seq<int>, t: seq<int>, i: nat)
    ensures LexFrom(s, t, i) == -LexFrom(t, s, i)
    decreases |s| - i
  {
    if i < |s| && i < |t| {
      LexFromReverse(s, t, i + 1);
    }
  }

  lemma {:induction false} LexFromTransitive(s: seq<int>, t: seq<int>, u: seq<int>, i: nat)
    requires LexFrom(s, t, i) <= 0 && LexFrom(t, u, i) <= 0
    ensures LexFrom(s, u, i) <= 0
    ensures LexFrom(s, t, i) < 0 || LexFrom(t, u, i) < 0 ==> LexFrom(s, u, i) < 0
    decreases |s| - i
  {
    if i < |s| && i < |t| && i < |u| && s[i] == t[i] == u[i] {
      LexFromTransitive(s, t, u, i + 1);
    }
  }
}
