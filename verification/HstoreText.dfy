/**
 The text input of hstore (get_val and parse_hstore in contrib/hstore/hstore_io.c): a word
 scanner with quoting and escapes inside a parser for pairs, both state machines over a string
 that ends with a zero byte, with buffers that double up to the allocation limit.
 */
module HstoreText {
  import opened Wrappers
  import opened ByteOrder
  import opened HstoreFormat
  import opened Buffers

  const QUOTE: byte := '"' as int
  const COMMA: byte := ',' as int
  const EQ: byte := '=' as int
  const GT: byte := '>' as int
  const BACKSLASH: byte := '\\' as int
  const SPACE: byte := ' ' as int

  /** The longest word and the largest number of pairs: the word buffer starts at 32 bytes and
      the array of 40-byte pairs at 16, and both double until the next request would exceed
      the allocation limit. */
  const WORD_MAX: nat := 0x1FFF_FFFF
  const PAIRS_MAX: nat := 0x100_0000

  /** White space in the C locale. */
  predicate IsSpace(c: byte) {
    c == SPACE || 9 <= c <= 13
  }

  /** The byte at a position; the terminating zero at and past the end. */
  function At(s: bytes, p: nat): byte {
    if p < |s| then s[p] else 0
  }

  // ----- words -----

  datatype WordState = WaitVal | InVal | InEscVal | WaitEscIn | WaitEscEscIn

  /** A word and the position after it, the end of the text, or a syntax error. */
  datatype Scanned = Word(word: bytes, next: nat, escaped: bool) | NoWord | ScanError

  /** The word scanner as a function of its state. */
  function Scan(s: bytes, p: nat, st: WordState, word: bytes, escaped: bool, ignoreeq: bool): (r: Scanned)
    requires p <= |s|
    ensures r.Word? ==> p <= r.next <= |s| && (st.WaitVal? ==> p < r.next)
    decreases |s| - p
  {
    var c := At(s, p);
    match st
    case WaitVal =>
      if c == QUOTE then Scan(s, p + 1, InEscVal, word, true, ignoreeq)
      else if c == 0 then NoWord
      else if c == EQ && !ignoreeq then ScanError
      else if c == BACKSLASH then Scan(s, p + 1, WaitEscIn, word, escaped, ignoreeq)
      else if !IsSpace(c) then Scan(s, p + 1, InVal, word + [c], escaped, ignoreeq)
      else Scan(s, p + 1, WaitVal, word, escaped, ignoreeq)
    case InVal =>
      if c == BACKSLASH then Scan(s, p + 1, WaitEscIn, word, escaped, ignoreeq)
      else if c == EQ && !ignoreeq then Word(word, p, escaped)
      else if c == COMMA && ignoreeq then Word(word, p, escaped)
      else if IsSpace(c) then Word(word, p + 1, escaped)
      else if c == 0 then Word(word, p, escaped)
      else Scan(s, p + 1, InVal, word + [c], escaped, ignoreeq)
    case InEscVal =>
      if c == BACKSLASH then Scan(s, p + 1, WaitEscEscIn, word, escaped, ignoreeq)
      else if c == QUOTE then Word(word, p + 1, escaped)
      else if c == 0 then ScanError
      else Scan(s, p + 1, InEscVal, word + [c], escaped, ignoreeq)
    case WaitEscIn =>
      if c == 0 then ScanError else Scan(s, p + 1, InVal, word + [c], escaped, ignoreeq)
    case WaitEscEscIn =>
      if c == 0 then ScanError else Scan(s, p + 1, InEscVal, word + [c], escaped, ignoreeq)
  }

  // ----- pairs -----

  datatype PairState = WKey | WEq | WGt | WVal | WDel

  datatype Parsed = Pairs(pairs: seq<Pair>) | ParseError

  function Lower(c: byte): byte {
    if 65 <= c <= 90 then c + 32 else c
  }

  /** The four letters of null, in either case. */
  predicate SpellsNull(w: bytes) {
    |w| == 4 && Lower(w[0]) == 110 && Lower(w[1]) == 117 && Lower(w[2]) == 108 && Lower(w[3]) == 108
  }

  /** A scanned value: only an unquoted null is the SQL null. */
  function ValueOf(w: bytes, escaped: bool): Option<bytes> {
    if SpellsNull(w) && !escaped then None else Some(w)
  }

  /** The parser as a function of its state: the pairs already read and the key whose value
      is still to come. */
  function Parse(s: bytes, p: nat, st: PairState, done: seq<Pair>, key: bytes): (r: Parsed)
    requires p <= |s|
    decreases |s| - p
  {
    match st
    case WKey =>
      (match Scan(s, p, WaitVal, [], false, false)
       case NoWord => Pairs(done)
       case ScanError => ParseError
       case Word(w, next, _) =>
         if |w| > WORD_MAX || |done| >= PAIRS_MAX then ParseError else Parse(s, next, WEq, done, w))
    case WEq =>
      if At(s, p) == EQ then Parse(s, p + 1, WGt, done, key)
      else if At(s, p) == 0 then ParseError
      else if !IsSpace(At(s, p)) then ParseError
      else Parse(s, p + 1, WEq, done, key)
    case WGt =>
      if At(s, p) == GT then Parse(s, p + 1, WVal, done, key) else ParseError
    case WVal =>
      (match Scan(s, p, WaitVal, [], false, true)
       case NoWord => ParseError
       case ScanError => ParseError
       case Word(w, next, escaped) =>
         if |w| > WORD_MAX then ParseError
         else Parse(s, next, WDel, done + [Pair(key, ValueOf(w, escaped))], []))
    case WDel =>
      if At(s, p) == COMMA then Parse(s, p + 1, WKey, done, [])
      else if At(s, p) == 0 then Pairs(done)
      else if !IsSpace(At(s, p)) then ParseError
      else Parse(s, p + 1, WDel, done, [])
  }

  // ----- buffers -----

  /** The two limits are such sizes. */
  lemma {:induction false} LimitsAreSizes()
    ensures Doubles(WORD_MAX + 1, 32) && Doubles(PAIRS_MAX, 16)
    ensures WORD_MAX + 1 <= MAX_ALLOC < 2 * (WORD_MAX + 1)
    ensures 40 * PAIRS_MAX <= MAX_ALLOC < 40 * (2 * PAIRS_MAX)
  {
    assert Doubles(32, 32) && Doubles(16, 16);
    hide Doubles;
    Sixteenfold(0x20, 32);
    Sixteenfold(0x200, 32);
    Sixteenfold(0x2000, 32);
    Sixteenfold(0x2_0000, 32);
    Sixteenfold(0x20_0000, 32);
    Sixteenfold(0x200_0000, 32);
    Sixteenfold(0x10, 16);
    Sixteenfold(0x100, 16);
    Sixteenfold(0x1000, 16);
    Sixteenfold(0x1_0000, 16);
    Sixteenfold(0x10_0000, 16);
  }

  /** A word that is being read only grows, and the scanner finds it or fails. */
  lemma {:induction false} ScanGrows(s: bytes, p: nat, st: WordState, word: bytes, escaped: bool, ignoreeq: bool)
    requires p <= |s| && !st.WaitVal?
    ensures var r := Scan(s, p, st, word, escaped, ignoreeq); !r.NoWord? && (r.Word? ==> |r.word| >= |word|)
    decreases |s| - p
  {
    if p < |s| {
      var c := At(s, p);
      ScanGrows(s, p + 1, InVal, word + [c], escaped, ignoreeq);
      ScanGrows(s, p + 1, InEscVal, word + [c], escaped, ignoreeq);
      ScanGrows(s, p + 1, WaitEscIn, word, escaped, ignoreeq);
      ScanGrows(s, p + 1, WaitEscEscIn, word, escaped, ignoreeq);
    }
  }

  // ----- the parser object -----

  datatype Got = Found | Nothing | Failed

  /** HSParser: the text, the cursor, the word being built and the pairs read so far. */
  class HSParser {
    const begin: bytes
    var ptr: int
    var word: bytes
    var wordlen: nat
    var pairs: seq<Pair>
    var plen: nat

    constructor (text: bytes)
      ensures begin == text && ptr == 0 && pairs == []
    {
      begin := text;
      ptr, word, wordlen, pairs, plen := 0, [], 32, [], 16;
    }

    function Cur(): byte
      requires 0 <= ptr
      reads this
    {
      At(begin, ptr)
    }

    /** The word has room for one more byte before its buffer must grow. */
    ghost predicate WordRoom()
      reads this
    {
      Doubles(wordlen, 32) && wordlen <= WORD_MAX + 1 && |word| < wordlen
    }

    ghost predicate PairRoom()
      reads this
    {
      Doubles(plen, 16) && plen <= PAIRS_MAX && |pairs| <= plen
    }

    /** RESIZEPRSBUF and the store of one byte. */
    method Append() returns (ok: bool)
      requires 0 <= ptr && WordRoom()
      modifies this`word, this`wordlen
      ensures ok <==> |old(word)| < WORD_MAX
      ensures ok ==> WordRoom() && word == old(word) + [Cur()]
    {
      hide Doubles;
      if |word| + 1 >= wordlen {
        LimitsAreSizes();
        GrowsIffBelow(wordlen, 32, WORD_MAX + 1, 1);
        if 2 * wordlen > MAX_ALLOC {
          return false;
        }
        wordlen := 2 * wordlen;
      }
      word := word + [Cur()];
      ok := true;
    }

    /** The byte under the cursor joins the word, or the word is too long. */
    method Store(st: WordState, escaped: bool, ignoreeq: bool, ghost result: Scanned) returns (ok: bool)
      requires 0 <= ptr < |begin| && WordRoom() && !st.WaitVal?
      requires Scan(begin, ptr + 1, st, word + [Cur()], escaped, ignoreeq) == result
      modifies this`word, this`wordlen
      ensures ok ==> WordRoom() && |word| <= WORD_MAX && word == old(word) + [Cur()]
      ensures !ok ==> result.ScanError? || (result.Word? && |result.word| > WORD_MAX)
    {
      hide Scan, Doubles;
      ScanGrows(begin, ptr + 1, st, word + [Cur()], escaped, ignoreeq);
      ok := Append();
    }

    /** The array of pairs gets room for one more. */
    method GrowPairs() returns (ok: bool)
      requires PairRoom()
      modifies this`plen
      ensures ok <==> |pairs| < PAIRS_MAX
      ensures ok ==> PairRoom() && |pairs| < plen
    {
      hide Doubles;
      if |pairs| >= plen {
        LimitsAreSizes();
        GrowsIffBelow(plen, 16, PAIRS_MAX, 40);
        if 40 * (2 * plen) > MAX_ALLOC {
          return false;
        }
        plen := 2 * plen;
      }
      ok := true;
    }

    /** One round of get_val: the next state and whether the byte under the cursor is stored,
        or how the scan ends, with the cursor one before the next position to read. */
    method Look(st: WordState, escaped: bool, ignoreeq: bool, ghost result: Scanned)
      returns (got: Option<Got>, st': WordState, escaped': bool, store: bool)
      requires 0 <= ptr <= |begin| && Scan(begin, ptr, st, word, escaped, ignoreeq) == result
      modifies this`ptr
      ensures got.None? ==>
                && ptr == old(ptr) < |begin| && (store ==> !st'.WaitVal?)
                && Scan(begin, ptr + 1, st', if store then word + [Cur()] else word, escaped', ignoreeq) == result
      ensures got.Some? ==>
                match result
                case Word(w, next, e) => got.value == Found && word == w && ptr + 1 == next && escaped' == e
                case NoWord => got.value == Nothing
                case ScanError => got.value == Failed
    {
      hide IsSpace;
      got, st', escaped', store := None, st, escaped, false;
      match st {
        case WaitVal =>
          if Cur() == QUOTE {
            escaped' := true;
            st' := InEscVal;
          } else if Cur() == 0 {
            got := Some(Nothing);
          } else if Cur() == EQ && !ignoreeq {
            got := Some(Failed);
          } else if Cur() == BACKSLASH {
            st' := WaitEscIn;
          } else if !IsSpace(Cur()) {
            store := true;
            st' := InVal;
          }
        case InVal =>
          if Cur() == BACKSLASH {
            st' := WaitEscIn;
          } else if Cur() == EQ && !ignoreeq {
            ptr := ptr - 1;
            got := Some(Found);
          } else if Cur() == COMMA && ignoreeq {
            ptr := ptr - 1;
            got := Some(Found);
          } else if IsSpace(Cur()) {
            got := Some(Found);
          } else if Cur() == 0 {
            ptr := ptr - 1;
            got := Some(Found);
          } else {
            store := true;
          }
        case InEscVal =>
          if Cur() == BACKSLASH {
            st' := WaitEscEscIn;
          } else if Cur() == QUOTE {
            got := Some(Found);
          } else if Cur() == 0 {
            got := Some(Failed);
          } else {
            store := true;
          }
        case WaitEscIn =>
          if Cur() == 0 {
            got := Some(Failed);
          } else {
            store := true;
            st' := InVal;
          }
        case WaitEscEscIn =>
          if Cur() == 0 {
            got := Some(Failed);
          } else {
            store := true;
            st' := InEscVal;
          }
      }
    }

    /** get_val. */
    method GetVal(ignoreeq: bool) returns (got: Got, escaped: bool)
      requires 0 <= ptr <= |begin|
      modifies this`ptr, this`word, this`wordlen
      ensures var r := Scan(begin, old(ptr), WaitVal, [], false, ignoreeq);
              match r
              case Word(w, next, e) =>
                if |w| <= WORD_MAX then got == Found && word == w && ptr + 1 == next && escaped == e
                else got == Failed
              case NoWord => got == Nothing
              case ScanError => got == Failed
    {
      hide Scan;
      var st, store, stop := WaitVal, false, None;
      word, wordlen := [], 32;
      escaped := false;
      assert WordRoom();
      hide WordRoom;
      ghost var result := Scan(begin, ptr, WaitVal, [], false, ignoreeq);
      while true
        invariant 0 <= ptr <= |begin| && Scan(begin, ptr, st, word, escaped, ignoreeq) == result
        invariant WordRoom() && |word| <= WORD_MAX
        decreases |begin| - ptr
      {
        stop, st, escaped, store := Look(st, escaped, ignoreeq, result);
        if stop.Some? {
          return stop.value, escaped;
        }
        if store {
          var ok := Store(st, escaped, ignoreeq, result);
          if !ok {
            return Failed, escaped;
          }
        }
        ptr := ptr + 1;
      }
    }

    /** parse_hstore: false stands for a reported error. */
    method ParseHstore() returns (ok: bool)
      modifies this
      ensures var r := Parse(begin, 0, WKey, [], []); ok == r.Pairs? && (ok ==> pairs == r.pairs)
    {
      var st := WKey;
      var key: bytes := [];
      ptr, pairs, plen := 0, [], 16;
      ghost var result := Parse(begin, 0, WKey, [], []);
      while true
        invariant 0 <= ptr <= |begin| && Parse(begin, ptr, st, pairs, key) == result
        invariant PairRoom() && (st.WKey? || st.WDel? || |pairs| < plen)
        decreases |begin| - ptr
      {
        hide Scan, PairRoom;
        match st {
          case WKey =>
            var got, _ := GetVal(false);
            if got == Nothing {
              return true;
            }
            if got == Failed {
              return false;
            }
            var ok' := GrowPairs();
            if !ok' || |word| > MAX_SIZE {
              return false;
            }
            key := word;
            st := WEq;
          case WEq =>
            if Cur() == EQ {
              st := WGt;
            } else if Cur() == 0 {
              return false;
            } else if !IsSpace(Cur()) {
              return false;
            }
          case WGt =>
            if Cur() == GT {
              st := WVal;
            } else {
              return false;
            }
          case WVal =>
            var got, escaped := GetVal(true);
            if got != Found || |word| > MAX_SIZE {
              return false;
            }
            var isNull := false;
            if |word| == 4 && !escaped {
              isNull := SpellsNull(word);
            }
            pairs := pairs + [Pair(key, if isNull then None else Some(word))];
            key := [];
            st := WDel;
          case WDel =>
            if Cur() == COMMA {
              st := WKey;
            } else if Cur() == 0 {
              return true;
            } else if !IsSpace(Cur()) {
              return false;
            }
        }
        ptr := ptr + 1;
      }
    }
  }
}
