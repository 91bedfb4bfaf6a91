/**
 Signature keys for integer arrays (contrib/intarray/_intbig_gist.c, and the bit macros of
 _int.h): a leaf key is the bit image of the array's hashed elements, an inner key is the
 union of the keys below it, and a key with every bit set shrinks to a flag.
 */
module IntBig {
  import opened IntQuery
  import opened IntGin

  const BITS_PER_BYTE: nat := 8

  /** A byte of a signature, as the set of its set bits. */
  type Byte = set<nat>

  const FULL_BYTE: Byte := {0, 1, 2, 3, 4, 5, 6, 7}

  /** GISTTYPE: the ALLISTRUE flag, or a signature. */
  datatype Key = AllTrue | Sign(bytes: seq<Byte>)

  /** HASHVAL: the element as an unsigned int, modulo the number of bits. */
  function Hash(v: int32, siglen: nat): (n: nat)
    requires siglen > 0
    ensures n < siglen * BITS_PER_BYTE
  {
    (if v < 0 then v as int + 0x1_0000_0000 else v as int) % (siglen * BITS_PER_BYTE)
  }

  /** Different elements that are bit numbers themselves keep different bits; a negative element
      gets the bit of the unsigned number with its 32 bits. */
  lemma {:induction false} HashKeepsApart(v: int32, w: int32, siglen: nat)
    requires siglen > 0 && 0 <= v < siglen * BITS_PER_BYTE
    ensures 0 <= w < siglen * BITS_PER_BYTE && v != w ==> Hash(v, siglen) != Hash(w, siglen)
    ensures Hash(v, siglen) == v
    ensures w < 0 ==> exists k :: w + 0x1_0000_0000 == k * (siglen * BITS_PER_BYTE) + Hash(w, siglen)
  {
    var m := siglen * BITS_PER_BYTE;
    Below(v, m);
    if 0 <= w < m {
      Below(w, m);
    }
    if w < 0 {
      var u := w + 0x1_0000_0000;
      assert u == (u / m) * m + u % m;
    }
  }

  lemma {:induction false} Below(n: nat, m: nat)
    requires n < m
    ensures n % m == n
  {
  }

  ghost predicate IsBytes(s: seq<Byte>) {
    forall i | 0 <= i < |s| :: s[i] <= FULL_BYTE
  }

  /** GETBIT. */
  predicate HasBit(s: seq<Byte>, n: nat)
    requires n < |s| * BITS_PER_BYTE
  {
    n % BITS_PER_BYTE in s[n / BITS_PER_BYTE]
  }

  /** SETBIT. */
  function WithBit(s: seq<Byte>, n: nat): (t: seq<Byte>)
    requires n < |s| * BITS_PER_BYTE
    ensures |t| == |s|
  {
    s[n / BITS_PER_BYTE := s[n / BITS_PER_BYTE] + {n % BITS_PER_BYTE}]
  }

  lemma {:induction false} WithBitHas(s: seq<Byte>, n: nat, m: nat)
    requires n < |s| * BITS_PER_BYTE && m < |s| * BITS_PER_BYTE
    ensures HasBit(WithBit(s, n), m) <==> HasBit(s, m) || n == m
    ensures IsBytes(s) ==> IsBytes(WithBit(s, n))
  {
  }

  /** Equal bits are equal bytes. */
  lemma {:induction false} SameBits(s: seq<Byte>, t: seq<Byte>)
    requires |s| == |t| && IsBytes(s) && IsBytes(t)
    requires forall n | 0 <= n < |s| * BITS_PER_BYTE :: HasBit(s, n) <==> HasBit(t, n)
    ensures s == t
  {
    forall i | 0 <= i < |s|
      ensures s[i] == t[i]
    {
      forall b | b in FULL_BYTE
        ensures b in s[i] <==> b in t[i]
      {
        var n := i * BITS_PER_BYTE + b;
        assert n / BITS_PER_BYTE == i && n % BITS_PER_BYTE == b;
        assert HasBit(s, n) <==> HasBit(t, n);
      }
    }
  }

  /** Some element hashes to bit n. */
  ghost predicate Hashed(elems: seq<int32>, siglen: nat, n: nat)
    requires siglen > 0
  {
    exists v | v in elems :: Hash(v, siglen) == n
  }

  /** The signature of an array: exactly the bits its elements hash to. */
  ghost predicate SignatureFor(s: seq<Byte>, siglen: nat, elems: seq<int32>) {
    && siglen > 0 && |s| == siglen && IsBytes(s)
    && forall n | 0 <= n < siglen * BITS_PER_BYTE :: HasBit(s, n) <==> Hashed(elems, siglen, n)
  }

  /** The loop that sets one bit for each element. */
  method Generate(elems: seq<int32>, siglen: nat) returns (s: seq<Byte>)
    requires siglen > 0
    ensures SignatureFor(s, siglen, elems)
  {
    var sign := new Byte[siglen](_ => {});
    for i := 0 to |elems|
      invariant SignatureFor(sign[..], siglen, elems[..i])
    {
      ghost var was := sign[..];
      var n := Hash(elems[i], siglen);
      sign[n / BITS_PER_BYTE] := sign[n / BITS_PER_BYTE] + {n % BITS_PER_BYTE};
      assert sign[..] == WithBit(was, n);
      GenerateStep(was, siglen, elems, i);
    }
    assert elems[..|elems|] == elems;
    s := sign[..];
  }

  lemma {:induction false} GenerateStep(was: seq<Byte>, siglen: nat, elems: seq<int32>, i: nat)
    requires i < |elems| && SignatureFor(was, siglen, elems[..i])
    ensures SignatureFor(WithBit(was, Hash(elems[i], siglen)), siglen, elems[..i + 1])
  {
    hide Hash, HasBit, WithBit;
    var h := Hash(elems[i], siglen);
    assert elems[..i + 1] == elems[..i] + [elems[i]];
    forall n | 0 <= n < siglen * BITS_PER_BYTE
      ensures HasBit(WithBit(was, h), n) <==> Hashed(elems[..i + 1], siglen, n)
    {
      WithBitHas(was, h, n);
      if Hashed(elems[..i], siglen, n) {
        var v :| v in elems[..i] && Hash(v, siglen) == n;
        assert v in elems[..i + 1];
      }
      if n == h {
        assert elems[i] in elems[..i + 1];
      }
      if Hashed(elems[..i + 1], siglen, n) {
        var v :| v in elems[..i + 1] && Hash(v, siglen) == n;
        assert v in elems[..i] || v == elems[i];
      }
    }
    WithBitHas(was, h, 0);
  }

  // ----- keys -----

  ghost predicate IsKey(k: Key, siglen: nat) {
    k.Sign? ==> |k.bytes| == siglen && IsBytes(k.bytes)
  }

  /** Whether the key has bit n. */
  predicate KeyBit(k: Key, n: nat)
    requires k.Sign? ==> n < |k.bytes| * BITS_PER_BYTE
  {
    k.AllTrue? || HasBit(k.bytes, n)
  }

  /** The key has the bit of every element. */
  ghost predicate KeyCovers(k: Key, siglen: nat, arr: seq<int32>)
    requires siglen > 0 && IsKey(k, siglen)
  {
    forall v | v in arr :: KeyBit(k, Hash(v, siglen))
  }

  ghost predicate UnionOf(k: Key, siglen: nat, ks: seq<Key>)
    requires siglen > 0
  {
    && IsKey(k, siglen) && (forall i | 0 <= i < |ks| :: IsKey(ks[i], siglen))
    && forall n | 0 <= n < siglen * BITS_PER_BYTE :: KeyBit(k, n) <==> SomeHasBit(ks, siglen, n)
  }

  ghost predicate SomeHasBit(ks: seq<Key>, siglen: nat, n: nat)
    requires n < siglen * BITS_PER_BYTE
  {
    exists i | 0 <= i < |ks| :: IsKey(ks[i], siglen) && KeyBit(ks[i], n)
  }

  /** unionkey on two signatures: byte-wise or, in place. */
  method OrInto(sbase: array<Byte>, sadd: seq<Byte>)
    requires sbase.Length == |sadd|
    modifies sbase
    ensures forall i | 0 <= i < sbase.Length :: sbase[i] == old(sbase[i]) + sadd[i]
  {
    for i := 0 to |sadd|
      invariant forall k | 0 <= k < i :: sbase[k] == old(sbase[k]) + sadd[k]
      invariant forall k | i <= k < |sadd| :: sbase[k] == old(sbase[k])
    {
      sbase[i] := sbase[i] + sadd[i];
    }
  }

  /** g_intbig_union: one key with the flag makes the union the flag. */
  method Union(ks: seq<Key>, siglen: nat) returns (k: Key)
    requires siglen > 0 && forall i | 0 <= i < |ks| :: IsKey(ks[i], siglen)
    ensures UnionOf(k, siglen, ks)
  {
    var base := new Byte[siglen](_ => {});
    for i := 0 to |ks|
      invariant UnionOf(Sign(base[..]), siglen, ks[..i])
    {
      if ks[i].AllTrue? {
        FlagUnion(siglen, ks, i);
        return AllTrue;
      }
      ghost var was := base[..];
      OrInto(base, ks[i].bytes);
      UnionStep(was, base[..], siglen, ks, i);
    }
    assert ks[..|ks|] == ks;
    k := Sign(base[..]);
  }

  lemma {:induction false} FlagUnion(siglen: nat, ks: seq<Key>, i: nat)
    requires siglen > 0 && i < |ks| && ks[i].AllTrue? && forall i | 0 <= i < |ks| :: IsKey(ks[i], siglen)
    ensures UnionOf(AllTrue, siglen, ks)
  {
    forall n | 0 <= n < siglen * BITS_PER_BYTE
      ensures SomeHasBit(ks, siglen, n)
    {
      assert KeyBit(ks[i], n);
    }
  }

  lemma {:induction false} UnionStep(was: seq<Byte>, now: seq<Byte>, siglen: nat, ks: seq<Key>, i: nat)
    requires i < |ks| && siglen > 0 && UnionOf(Sign(was), siglen, ks[..i])
    requires ks[i].Sign? && IsKey(ks[i], siglen) && |now| == |was|
    requires forall j | 0 <= j < |was| :: now[j] == was[j] + ks[i].bytes[j]
    ensures UnionOf(Sign(now), siglen, ks[..i + 1])
  {
    var ps := ks[..i + 1];
    assert ps[..i] == ks[..i] && ps[i] == ks[i];
    assert forall j | 0 <= j < i :: ps[j] == ks[..i][j];
    forall n | 0 <= n < siglen * BITS_PER_BYTE
      ensures KeyBit(Sign(now), n) <==> SomeHasBit(ps, siglen, n)
    {
      assert HasBit(now, n) <==> HasBit(was, n) || HasBit(ks[i].bytes, n);
      assert KeyBit(Sign(was), n) <==> SomeHasBit(ks[..i], siglen, n);
      if SomeHasBit(ks[..i], siglen, n) {
        var j :| 0 <= j < i && KeyBit(ks[..i][j], n);
        assert KeyBit(ps[j], n);
      }
      if KeyBit(ks[i], n) {
        assert KeyBit(ps[i], n);
      }
      if SomeHasBit(ps, siglen, n) {
        var j :| 0 <= j < i + 1 && KeyBit(ps[j], n);
        if j < i {
          assert KeyBit(ks[..i][j], n);
        }
      }
    }
  }

  /** g_intbig_compress on an inner key: a full signature becomes the flag, so the bits
      it stands for do not change. */
  method CompressInner(k: Key, siglen: nat) returns (r: Key)
    requires siglen > 0 && IsKey(k, siglen)
    ensures IsKey(r, siglen)
    ensures forall n | 0 <= n < siglen * BITS_PER_BYTE :: KeyBit(r, n) <==> KeyBit(k, n)
    ensures r.AllTrue? <==> forall n | 0 <= n < siglen * BITS_PER_BYTE :: KeyBit(k, n)
  {
    if k.AllTrue? {
      return k;
    }
    for i := 0 to siglen
      invariant forall j | 0 <= j < i :: k.bytes[j] == FULL_BYTE
    {
      if k.bytes[i] != FULL_BYTE {
        ghost var n := MissingBit(k.bytes, i);
        assert !KeyBit(k, n);
        return k;
      }
    }
    return AllTrue;
  }

  lemma {:induction false} MissingBit(s: seq<Byte>, i: nat) returns (n: nat)
    requires i < |s| && IsBytes(s) && s[i] != FULL_BYTE
    ensures n < |s| * BITS_PER_BYTE && !HasBit(s, n)
  {
    var b :| b in FULL_BYTE && b !in s[i];
    n := i * BITS_PER_BYTE + b;
    assert n / BITS_PER_BYTE == i && n % BITS_PER_BYTE == b;
  }

  // ----- consistency -----

  /** What g_intbig_consistent computes. */
  ghost predicate ConsistentSpec(k: Key, siglen: nat, q: Request, e: Expr, leaf: bool)
    requires siglen > 0 && IsKey(k, siglen)
  {
    k.AllTrue? ||
    match q
    case BoolQuery(_) => EvalLossy(e, (v: int32) => HasBit(k.bytes, Hash(v, siglen)), false)
    case ArrayQuery(strategy, elems) =>
      match strategy
      case Overlap => exists v | v in elems :: HasBit(k.bytes, Hash(v, siglen))
      case Contains => forall v | v in elems :: HasBit(k.bytes, Hash(v, siglen))
      case Same =>
        if leaf then SignatureFor(k.bytes, siglen, elems)
        else forall v | v in elems :: HasBit(k.bytes, Hash(v, siglen))
      case ContainedBy =>
        !leaf || forall n | 0 <= n < siglen * BITS_PER_BYTE :: HasBit(k.bytes, n) ==> Hashed(elems, siglen, n)
  }

  method SomeElement(bytes: seq<Byte>, elems: seq<int32>) returns (r: bool)
    requires |bytes| > 0
    ensures r <==> exists v | v in elems :: HasBit(bytes, Hash(v, |bytes|))
  {
    for i := 0 to |elems|
      invariant forall j | 0 <= j < i :: !HasBit(bytes, Hash(elems[j], |bytes|))
    {
      if HasBit(bytes, Hash(elems[i], |bytes|)) {
        return true;
      }
    }
    return false;
  }

  method EveryElement(bytes: seq<Byte>, elems: seq<int32>) returns (r: bool)
    requires |bytes| > 0
    ensures r <==> forall v | v in elems :: HasBit(bytes, Hash(v, |bytes|))
  {
    for i := 0 to |elems|
      invariant forall j | 0 <= j < i :: HasBit(bytes, Hash(elems[j], |bytes|))
    {
      if !HasBit(bytes, Hash(elems[i], |bytes|)) {
        assert elems[i] in elems;
        return false;
      }
    }
    return true;
  }

  /** The leaf test of `=`: the query's own signature, byte by byte. */
  method SameSignature(bytes: seq<Byte>, elems: seq<int32>) returns (r: bool)
    requires |bytes| > 0 && IsBytes(bytes)
    ensures r <==> SignatureFor(bytes, |bytes|, elems)
  {
    var dq := Generate(elems, |bytes|);
    r := true;
    for i := 0 to |bytes|
      invariant bytes[..i] == dq[..i]
    {
      if bytes[i] != dq[i] {
        if SignatureFor(bytes, |bytes|, elems) {
          SameBits(bytes, dq);
          assert false;
        }
        return false;
      }
      assert bytes[..i + 1] == bytes[..i] + [bytes[i]] && dq[..i + 1] == dq[..i] + [dq[i]];
    }
    assert bytes == bytes[..|bytes|] && dq == dq[..|bytes|];
  }

  /** The leaf test of `<@`: no byte of the key has a bit the query's signature lacks. */
  method WithinSignature(bytes: seq<Byte>, elems: seq<int32>) returns (r: bool)
    requires |bytes| > 0 && IsBytes(bytes)
    ensures r <==> forall n | 0 <= n < |bytes| * BITS_PER_BYTE :: HasBit(bytes, n) ==> Hashed(elems, |bytes|, n)
  {
    var dq := Generate(elems, |bytes|);
    for i := 0 to |bytes|
      invariant forall j | 0 <= j < i :: bytes[j] <= dq[j]
    {
      if bytes[i] - dq[i] != {} {
        var b :| b in bytes[i] - dq[i];
        var n := i * BITS_PER_BYTE + b;
        assert n / BITS_PER_BYTE == i && n % BITS_PER_BYTE == b;
        assert HasBit(bytes, n) && !HasBit(dq, n);
        return false;
      }
      assert forall b | b in bytes[i] :: b in dq[i] || b in bytes[i] - dq[i];
    }
    r := true;
    forall n | 0 <= n < |bytes| * BITS_PER_BYTE && HasBit(bytes, n)
      ensures Hashed(elems, |bytes|, n)
    {
      assert HasBit(dq, n);
    }
  }

  /** g_intbig_consistent. */
  method Consistent(k: Key, siglen: nat, q: Request, ghost e: Expr, leaf: bool) returns (r: bool)
    requires siglen > 0 && IsKey(k, siglen) && ValidRequest(q, e)
    ensures r == ConsistentSpec(k, siglen, q, e, leaf)
  {
    if k.AllTrue? {
      return true;
    }
    var bytes := k.bytes;
    match q
    case BoolQuery(items) => r := SignConsistent(bytes, items, e);
    case ArrayQuery(strategy, elems) =>
      match strategy {
        case Overlap => r := SomeElement(bytes, elems);
        case Contains => r := EveryElement(bytes, elems);
        case Same =>
          if leaf {
            r := SameSignature(bytes, elems);
          } else {
            r := EveryElement(bytes, elems);
          }
        case ContainedBy =>
          if leaf {
            r := WithinSignature(bytes, elems);
          } else {
            r := true;
          }
      }
  }

  /** signconsistent: the lossy evaluation on the signature. */
  method SignConsistent(bytes: seq<Byte>, items: seq<Item>, ghost e: Expr) returns (r: bool)
    requires |bytes| > 0 && items == Linked(e) && LinksFit(e)
    ensures r == EvalLossy(e, (v: int32) => HasBit(bytes, Hash(v, |bytes|)), false)
  {
    hide Linked, LinksFit, EvalLossy, Reads;
    var test: nat -> bool :=
      (i: nat) => i < |items| && items[i].node.NVal? && HasBit(bytes, Hash(items[i].node.val, |bytes|));
    StoredReads(items, 0, e);
    r := Execute(items, |items| - 1, e, test, false);
    ghost var has: int32 -> bool := (v: int32) => HasBit(bytes, Hash(v, |bytes|));
    assert Answers(items, test, has);
  }

  /** No entry above a matching array is rejected, for any operator: an inner key need
      only cover the array, a leaf key is its signature. */
  lemma {:induction false} NeverLoses(k: Key, siglen: nat, q: Request, e: Expr, leaf: bool, arr: seq<int32>)
    requires siglen > 0 && IsKey(k, siglen) && KeyCovers(k, siglen, arr)
    requires leaf && k.Sign? ==> SignatureFor(k.bytes, siglen, arr)
    requires Matches(arr, q, e)
    ensures ConsistentSpec(k, siglen, q, e, leaf)
  {
    hide Hash, HasBit;
    if k.Sign? {
      match q
      case BoolQuery(_) =>
        EvalLossyCovers(e, v => v in arr, (v: int32) => HasBit(k.bytes, Hash(v, siglen)));
      case ArrayQuery(strategy, elems) =>
        match strategy {
          case Overlap =>
            var v :| v in elems && v in arr;
            assert KeyBit(k, Hash(v, siglen));
          case Contains =>
          case Same => SameCase(k, siglen, elems, arr, leaf);
          case ContainedBy =>
            if leaf {
              forall n | 0 <= n < siglen * BITS_PER_BYTE && HasBit(k.bytes, n)
                ensures Hashed(elems, siglen, n)
              {
                var v :| v in arr && Hash(v, siglen) == n;
                assert v in elems;
              }
            }
        }
    }
  }

  lemma {:induction false} SameCase(k: Key, siglen: nat, elems: seq<int32>, arr: seq<int32>, leaf: bool)
    requires siglen > 0 && k.Sign? && IsKey(k, siglen) && KeyCovers(k, siglen, arr)
    requires leaf ==> SignatureFor(k.bytes, siglen, arr)
    requires Elems(arr) == Elems(elems)
    ensures leaf ==> SignatureFor(k.bytes, siglen, elems)
    ensures forall v | v in elems :: HasBit(k.bytes, Hash(v, siglen))
  {
    hide Hash, HasBit;
    assert forall v :: v in elems <==> v in arr by {
      assert forall v :: v in elems <==> v in Elems(elems);
      assert forall v :: v in arr <==> v in Elems(arr);
    }
    assert forall n | 0 <= n < siglen * BITS_PER_BYTE :: Hashed(arr, siglen, n) <==> Hashed(elems, siglen, n);
    forall v | v in elems
      ensures HasBit(k.bytes, Hash(v, siglen))
    {
      assert KeyBit(k, Hash(v, siglen));
    }
  }

  /** Every array has a signature. */
  lemma {:induction false} SignatureOf(arr: seq<int32>, siglen: nat) returns (s: seq<Byte>)
    requires siglen > 0
    ensures SignatureFor(s, siglen, arr)
  {
    if arr == [] {
      s := seq(siglen, _ => {});
    } else {
      var n := |arr| - 1;
      var t := SignatureOf(arr[..n], siglen);
      GenerateStep(t, siglen, arr, n);
      assert arr[..n + 1] == arr;
      s := WithBit(t, Hash(arr[n], siglen));
    }
  }

  /** Some array that the key covers would be accepted at a leaf. */
  ghost predicate SomeAccepted(k: Key, siglen: nat, q: Request, e: Expr)
    requires siglen > 0 && IsKey(k, siglen)
  {
    exists arr, s :: AcceptedArray(k, siglen, q, e, arr, s)
  }

  ghost predicate AcceptedArray(k: Key, siglen: nat, q: Request, e: Expr, arr: seq<int32>, s: seq<Byte>)
    requires siglen > 0 && IsKey(k, siglen)
  {
    SignatureFor(s, siglen, arr) && KeyCovers(k, siglen, arr) && ConsistentSpec(Sign(s), siglen, q, e, true)
  }

  /** The bit of each element of a covered array is in its signature exactly if it is hashed. */
  lemma {:induction false} SignatureBit(s: seq<Byte>, siglen: nat, arr: seq<int32>, v: int32)
    requires SignatureFor(s, siglen, arr)
    ensures HasBit(s, Hash(v, siglen)) <==> Hashed(arr, siglen, Hash(v, siglen))
    ensures v in arr ==> HasBit(s, Hash(v, siglen))
  {
    hide HasBit, Hash;
  }

  /** An inner key is descended into exactly when some array that it covers would be accepted:
      the test prunes all that the key can prune. */
  lemma {:induction false} PruningIsTight(k: Key, siglen: nat, q: Request, e: Expr)
    requires siglen > 0 && k.Sign? && IsKey(k, siglen)
    ensures ConsistentSpec(k, siglen, q, e, false) <==> SomeAccepted(k, siglen, q, e)
  {
    hide ConsistentSpec, AcceptedArray;
    if ConsistentSpec(k, siglen, q, e, false) {
      AcceptedBelow(k, siglen, q, e);
    }
    if SomeAccepted(k, siglen, q, e) {
      var arr, s :| AcceptedArray(k, siglen, q, e, arr, s);
      AcceptedAbove(k, siglen, q, e, arr, s);
    }
  }

  /** A key above an accepted leaf is accepted. */
  lemma {:induction false} AcceptedAbove(k: Key, siglen: nat, q: Request, e: Expr, arr: seq<int32>, s: seq<Byte>)
    requires siglen > 0 && k.Sign? && IsKey(k, siglen) && AcceptedArray(k, siglen, q, e, arr, s)
    ensures ConsistentSpec(k, siglen, q, e, false)
  {
    hide Hash, HasBit, EvalLossy;
    forall v: int32 | HasBit(s, Hash(v, siglen))
      ensures HasBit(k.bytes, Hash(v, siglen))
    {
      SignatureBit(s, siglen, arr, v);
      var w :| w in arr && Hash(w, siglen) == Hash(v, siglen);
      assert KeyBit(k, Hash(w, siglen));
    }
    match q
    case BoolQuery(_) =>
      LossyGrows(e, (v: int32) => HasBit(s, Hash(v, siglen)), (v: int32) => HasBit(k.bytes, Hash(v, siglen)));
    case ArrayQuery(_, elems) =>
      forall v | v in elems && q.strategy.Same?
        ensures HasBit(s, Hash(v, siglen))
      {
        SignatureBit(s, siglen, elems, v);
      }
  }

  /** An accepted inner key covers an array that a leaf would accept. */
  lemma {:induction false} AcceptedBelow(k: Key, siglen: nat, q: Request, e: Expr)
    requires siglen > 0 && k.Sign? && IsKey(k, siglen) && ConsistentSpec(k, siglen, q, e, false)
    ensures SomeAccepted(k, siglen, q, e)
  {
    hide Hash, HasBit, EvalLossy;
    var arr: seq<int32> := [];
    match q {
      case BoolQuery(_) => arr := ValuesWithBit(k, siglen, Values(e));
      case ArrayQuery(strategy, elems) =>
        match strategy {
          case Overlap =>
            var v :| v in elems && HasBit(k.bytes, Hash(v, siglen));
            arr := [v];
          case Contains => arr := elems;
          case Same => arr := elems;
          case ContainedBy =>
        }
    }
    assert KeyCovers(k, siglen, arr);
    var s := SignatureOf(arr, siglen);
    forall v: int32
      ensures HasBit(s, Hash(v, siglen)) <==> Hashed(arr, siglen, Hash(v, siglen))
      ensures v in arr ==> HasBit(s, Hash(v, siglen))
    {
      SignatureBit(s, siglen, arr, v);
    }
    if q.BoolQuery? {
      forall v | v in Values(e)
        ensures HasBit(s, Hash(v, siglen)) <==> HasBit(k.bytes, Hash(v, siglen))
      {
        assert forall w | w in arr :: KeyBit(k, Hash(w, siglen));
      }
      LossyOnValues(e, (v: int32) => HasBit(k.bytes, Hash(v, siglen)), (v: int32) => HasBit(s, Hash(v, siglen)));
    }
    assert ConsistentSpec(Sign(s), siglen, q, e, true);
    assert AcceptedArray(k, siglen, q, e, arr, s);
  }

  /** The given values whose bits the key has. */
  lemma {:induction false} ValuesWithBit(k: Key, siglen: nat, vs: set<int32>) returns (arr: seq<int32>)
    requires siglen > 0 && k.Sign? && IsKey(k, siglen)
    ensures forall v :: v in arr <==> v in vs && HasBit(k.bytes, Hash(v, siglen))
  {
    hide Hash, HasBit;
    arr := [];
    if vs != {} {
      var v :| v in vs;
      arr := ValuesWithBit(k, siglen, vs - {v});
      if HasBit(k.bytes, Hash(v, siglen)) {
        arr := arr + [v];
      }
    }
  }

  /** All elements and values are bit numbers. */
  ghost predicate SmallElements(siglen: nat, arr: seq<int32>) {
    forall v | v in arr :: 0 <= v < siglen * BITS_PER_BYTE
  }

  /** What a leaf accepts without hash collisions. */
  lemma {:induction false} LeafIsExact(s: seq<Byte>, siglen: nat, q: Request, e: Expr, arr: seq<int32>)
    requires SignatureFor(s, siglen, arr) && SmallElements(siglen, arr)
    requires if q.ArrayQuery? then SmallElements(siglen, q.elems)
             else !HasNot(e) && forall v | v in Values(e) :: 0 <= v < siglen * BITS_PER_BYTE
    ensures ConsistentSpec(Sign(s), siglen, q, e, true) <==> Matches(arr, q, e)
  {
    hide Hash, HasBit, EvalLossy, Eval;
    forall v: int32 | 0 <= v < siglen * BITS_PER_BYTE
      ensures HasBit(s, Hash(v, siglen)) <==> v in arr
      ensures Hash(v, siglen) == v
    {
      SignatureBit(s, siglen, arr, v);
      HashKeepsApart(v, 0, siglen);
      if Hashed(arr, siglen, Hash(v, siglen)) {
        var w :| w in arr && Hash(w, siglen) == Hash(v, siglen);
        HashKeepsApart(v, w, siglen);
      }
    }
    match q
    case BoolQuery(_) =>
      var bit := (v: int32) => HasBit(s, Hash(v, siglen));
      LossyWithoutNot(e, bit);
      LossyOnValues(e, bit, v => v in arr);
    case ArrayQuery(strategy, elems) =>
      match strategy {
        case Overlap =>
        case Contains =>
        case Same => SameExact(s, siglen, elems, arr);
        case ContainedBy => WithinExact(s, siglen, elems, arr);
      }
  }

  lemma {:induction false} SameExact(s: seq<Byte>, siglen: nat, elems: seq<int32>, arr: seq<int32>)
    requires SignatureFor(s, siglen, arr) && SmallElements(siglen, arr) && SmallElements(siglen, elems)
    ensures SignatureFor(s, siglen, elems) <==> Elems(arr) == Elems(elems)
  {
    hide HasBit, Hash;
    if SignatureFor(s, siglen, elems) {
      forall v: int32
        ensures v in elems <==> v in arr
      {
        if v in elems {
          SignatureBit(s, siglen, elems, v);
          SmallBit(s, siglen, arr, v);
        }
        if v in arr {
          SignatureBit(s, siglen, arr, v);
          SmallBit(s, siglen, elems, v);
        }
      }
    }
    if Elems(arr) == Elems(elems) {
      SameCase(Sign(s), siglen, elems, arr, true);
    }
  }

  lemma {:induction false} SmallBit(s: seq<Byte>, siglen: nat, arr: seq<int32>, v: int32)
    requires SignatureFor(s, siglen, arr) && SmallElements(siglen, arr) && 0 <= v < siglen * BITS_PER_BYTE
    ensures HasBit(s, Hash(v, siglen)) <==> v in arr
  {
    hide HasBit, Hash;
    SignatureBit(s, siglen, arr, v);
    if Hashed(arr, siglen, Hash(v, siglen)) {
      var w :| w in arr && Hash(w, siglen) == Hash(v, siglen);
      HashKeepsApart(v, w, siglen);
    }
  }

  lemma {:induction false} WithinExact(s: seq<Byte>, siglen: nat, elems: seq<int32>, arr: seq<int32>)
    requires SignatureFor(s, siglen, arr) && SmallElements(siglen, arr) && SmallElements(siglen, elems)
    ensures (forall n | 0 <= n < siglen * BITS_PER_BYTE :: HasBit(s, n) ==> Hashed(elems, siglen, n))
       <==> forall v | v in arr :: v in elems
  {
    hide HasBit, Hash;
    var t := SignatureOf(elems, siglen);
    forall v | v in arr
      ensures Hashed(elems, siglen, Hash(v, siglen)) <==> v in elems
      ensures HasBit(s, Hash(v, siglen))
    {
      SmallBit(t, siglen, elems, v);
      SignatureBit(s, siglen, arr, v);
    }
    forall n | 0 <= n < siglen * BITS_PER_BYTE && HasBit(s, n) && forall v | v in arr :: v in elems
      ensures Hashed(elems, siglen, n)
    {
      var v :| v in arr && Hash(v, siglen) == n;
    }
  }

  // ----- whole trees -----

  /** An index: leaves hold arrays, inner nodes their children and the key above each. */
  datatype Tree = Leaf(arr: seq<int32>) | Node(children: seq<Tree>, keys: seq<Key>)

  /** Every key is a leaf signature or the union, flag or not, of the keys below it. */
  ghost predicate KeyedBy(t: Tree, k: Key, siglen: nat)
    requires siglen > 0
  {
    match t
    case Leaf(arr) => k.Sign? && SignatureFor(k.bytes, siglen, arr)
    case Node(children, keys) =>
      && |keys| == |children| && UnionOf(k, siglen, keys)
      && forall i | 0 <= i < |children| :: KeyedBy(children[i], keys[i], siglen)
  }

  /** The arrays a search reaches when it descends only into consistent entries. */
  ghost function Found(t: Tree, k: Key, siglen: nat, q: Request, e: Expr): iset<seq<int32>>
    requires siglen > 0 && KeyedBy(t, k, siglen)
    decreases t
  {
    if !ConsistentSpec(k, siglen, q, e, t.Leaf?) then iset{}
    else match t
      case Leaf(arr) => iset{arr}
      case Node(children, keys) =>
        iset i, arr | 0 <= i < |children| && arr in Found(children[i], keys[i], siglen, q, e) :: arr
  }

  ghost predicate Holds(t: Tree, arr: seq<int32>) {
    match t
    case Leaf(a) => a == arr
    case Node(children, _) => exists i | 0 <= i < |children| :: Holds(children[i], arr)
  }

  lemma {:induction false} KeyCoversAll(t: Tree, k: Key, siglen: nat, arr: seq<int32>)
    requires siglen > 0 && KeyedBy(t, k, siglen) && Holds(t, arr)
    ensures IsKey(k, siglen) && KeyCovers(k, siglen, arr)
    decreases t
  {
    hide Hash, HasBit;
    match t
    case Leaf(_) =>
      forall v | v in arr
        ensures KeyBit(k, Hash(v, siglen))
      {
        assert Hashed(arr, siglen, Hash(v, siglen));
      }
    case Node(children, keys) =>
      var i :| 0 <= i < |children| && Holds(children[i], arr);
      KeyCoversAll(children[i], keys[i], siglen, arr);
      forall v | v in arr
        ensures KeyBit(k, Hash(v, siglen))
      {
        assert KeyBit(keys[i], Hash(v, siglen));
        assert SomeHasBit(keys, siglen, Hash(v, siglen));
      }
  }

  ghost predicate SmallTree(t: Tree, siglen: nat) {
    match t
    case Leaf(arr) => SmallElements(siglen, arr)
    case Node(children, _) => forall i | 0 <= i < |children| :: SmallTree(children[i], siglen)
  }

  /** When all elements are bit numbers, no hash values collide and a search for a query without
      negations reaches nothing but arrays that satisfy it. */
  lemma {:induction false} SearchIsExact(t: Tree, k: Key, siglen: nat, q: Request, e: Expr, arr: seq<int32>)
    requires siglen > 0 && KeyedBy(t, k, siglen) && SmallTree(t, siglen) && arr in Found(t, k, siglen, q, e)
    requires if q.ArrayQuery? then SmallElements(siglen, q.elems)
             else !HasNot(e) && forall v | v in Values(e) :: 0 <= v < siglen * BITS_PER_BYTE
    ensures Holds(t, arr) && Matches(arr, q, e)
    decreases t
  {
    hide ConsistentSpec, UnionOf, SignatureFor;
    match t
    case Leaf(a) => LeafIsExact(k.bytes, siglen, q, e, a);
    case Node(children, keys) =>
      var i :| 0 <= i < |children| && arr in Found(children[i], keys[i], siglen, q, e);
      SearchIsExact(children[i], keys[i], siglen, q, e, arr);
  }

  /** A search of any tree, of any shape and depth, reaches every array that satisfies the
      query. */
  lemma {:induction false} SearchIsComplete(t: Tree, k: Key, siglen: nat, q: Request, e: Expr, arr: seq<int32>)
    requires siglen > 0 && KeyedBy(t, k, siglen) && Holds(t, arr) && Matches(arr, q, e)
    ensures arr in Found(t, k, siglen, q, e)
    decreases t
  {
    hide ConsistentSpec, UnionOf;
    KeyCoversAll(t, k, siglen, arr);
    NeverLoses(k, siglen, q, e, t.Leaf?, arr);
    if t.Node? {
      var i :| 0 <= i < |t.children| && Holds(t.children[i], arr);
      SearchIsComplete(t.children[i], t.keys[i], siglen, q, e, arr);
    }
  }
}
