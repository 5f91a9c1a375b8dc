/** contrib/hstore/hstore_io.c: the parser as two state machines over one pointer that also steps back. */
module HStoreParser {
  import opened Alloc
  import opened HStoreLayout
  import opened HStoreText
  import opened HStorePairs

  /** The states of get_val. */
  datatype ValState = WAITVAL | INVAL | INESCVAL | WAITESCIN | WAITESCESCIN

  /** The states of parse_hstore. */
  datatype PairState = WKEY | WVAL | WEQ | WGT | WDEL

  /** What reading a word from a state on gives. */
  function FromState(st: ValState, s: string, isValue: bool, word: string): Got {
    match st
    case WAITVAL => WaitVal(s, isValue)
    case INVAL => InVal(s, Stop(isValue), word)
    case INESCVAL => InEscVal(s, word)
    case WAITESCIN =>
      if s == "" then Failed(UnexpectedEnd)
      else if |word| >= MAX_WORD then Failed(OutOfMemory)
      else InVal(s[1..], Stop(isValue), word + [s[0]])
    case WAITESCESCIN =>
      if s == "" then Failed(UnexpectedEnd)
      else if |word| >= MAX_WORD then Failed(OutOfMemory)
      else InEscVal(s[1..], word + [s[0]])
  }

  /** What one character makes of a state: the next state with the character to keep, or the end. */
  datatype Turn = Next(st: ValState, keep: bool) | Done(back: bool) | None | Error(error: HStoreText.Error)

  /** One character of get_val, after n were kept, without the pointer: no character at the end of the text. */
  function Step(st: ValState, s: string, isValue: bool, n: nat): Turn {
    match st
    case WAITVAL =>
      if s == "" then None
      else if s[0] == '"' then Next(INESCVAL, false)
      else if s[0] == '=' && !isValue then Error(SyntaxError(s))
      else if s[0] == '\\' then Next(WAITESCIN, false)
      else if !IsSpace(s[0]) then Next(INVAL, true)
      else Next(WAITVAL, false)
    case INVAL =>
      if s == "" then Done(true)
      else if s[0] == '\\' then Next(WAITESCIN, false)
      else if s[0] == Stop(isValue) then Done(true)
      else if IsSpace(s[0]) then Done(false)
      else Keeps(INVAL, n)
    case INESCVAL =>
      if s == "" then Error(UnexpectedEnd)
      else if s[0] == '\\' then Next(WAITESCESCIN, false)
      else if s[0] == '"' then Done(false)
      else Keeps(INESCVAL, n)
    case WAITESCIN => if s == "" then Error(UnexpectedEnd) else Keeps(INVAL, n)
    case WAITESCESCIN => if s == "" then Error(UnexpectedEnd) else Keeps(INESCVAL, n)
  }

  /** One more character is kept if the word has room for it. */
  function Keeps(st: ValState, n: nat): Turn {
    if n >= MAX_WORD then Error(OutOfMemory) else Next(st, true)
  }

  predicate InQuotes(st: ValState) {
    st == INESCVAL || st == WAITESCESCIN
  }

  /** The states follow the parser of the text that is left. */
  lemma {:induction false} StepFollows(st: ValState, s: string, isValue: bool, word: string)
    requires st == WAITVAL ==> word == ""
    ensures Step(st, s, isValue, |word|) == None ==> FromState(st, s, isValue, word) == NoWord
    ensures Step(st, s, isValue, |word|).Error? ==> FromState(st, s, isValue, word) == Failed(Step(st, s, isValue, |word|).error)
    ensures Step(st, s, isValue, |word|).Done? ==> var back := Step(st, s, isValue, |word|).back;
      (!back ==> s != "") && FromState(st, s, isValue, word) == Got(word, InQuotes(st), if back then s else s[1..])
    ensures Step(st, s, isValue, |word|).Next? ==> var st', keep := Step(st, s, isValue, |word|).st, Step(st, s, isValue, |word|).keep;
      && s != "" && FromState(st, s, isValue, word) == FromState(st', s[1..], isValue, word + if keep then s[..1] else "")
      && (if st == WAITVAL then InQuotes(st') <==> st' == INESCVAL else InQuotes(st') == InQuotes(st))
      && (st' == WAITVAL ==> st == WAITVAL && !keep)
    ensures st == WAITVAL ==> !Step(st, s, isValue, |word|).Done?
  {
    assert |s| > 1 ==> s[1..][1..] == s[2..] && s[1..][0] == s[1];
    assert s != "" ==> s[..1] == [s[0]] && "" + [s[0]] == [s[0]];
    assert |s| > 1 ==> "" + [s[1]] == [s[1]];
    assert word + "" == word;
  }

  // ---------------------------------------------------------------- pairs

  /** What parsing from a state on gives, after the pairs done and, past a key, that key. */
  function FromPairState(st: PairState, s: string, done: seq<Pair>, key: string): Parsed {
    match st
    case WKEY => Parse(s, done)
    case WEQ => (match WaitEq(s) case Bad(e) => Refused(e) case Rest(r) => FromValue(r, done, key))
    case WGT => (match WaitGt(s) case Bad(e) => Refused(e) case Rest(r) => FromValue(r, done, key))
    case WVAL => FromValue(s, done, key)
    case WDEL => FromDelimiter(s, done)
  }

  function FromDelimiter(s: string, done: seq<Pair>): Parsed {
    match WaitDel(s)
    case Wrong(e) => Refused(e)
    case End => Listed(done)
    case After(r) => Parse(r, done)
  }

  function FromValue(s: string, done: seq<Pair>, key: string): Parsed {
    match WaitVal(s, true)
    case NoWord => Refused(UnexpectedEnd)
    case Failed(e) => Refused(e)
    case Got(val, quoted, r) =>
      if |val| > MAX_LEN then Refused(TooLong)
      else FromDelimiter(r, done + [Pair(key, ValueOf(val, quoted))])
  }

  lemma {:induction false} KeyFollows(s: string, done: seq<Pair>)
    ensures FromPairState(WKEY, s, done, "") == match WaitVal(s, false)
      case NoWord => Listed(done)
      case Failed(e) => Refused(e)
      case Got(key, _, r) =>
        if |done| >= MAX_PAIRS then Refused(OutOfMemory)
        else if |key| > MAX_LEN then Refused(TooLong)
        else FromPairState(WEQ, r, done, key)
  {
    hide WaitVal, WaitEq, WaitDel, ValueOf;
  }

  /** What one character between words makes of a state: the next state, the end, or an error. */
  datatype Passage = Pass(st: PairState) | Finish | Fail(error: HStoreText.Error)

  function Between(st: PairState, s: string): Passage
    requires st != WKEY && st != WVAL
  {
    if s == "" then if st == WDEL then Finish else Fail(UnexpectedEnd)
    else if st == WEQ && s[0] == '=' then Pass(WGT)
    else if st == WGT && s[0] == '>' then Pass(WVAL)
    else if st == WDEL && s[0] == ',' then Pass(WKEY)
    else if st != WGT && IsSpace(s[0]) then Pass(st)
    else Fail(SyntaxError(s))
  }

  lemma {:induction false} BetweenFollows(st: PairState, s: string, done: seq<Pair>, key: string)
    requires st != WKEY && st != WVAL && (st == WDEL ==> key == "")
    ensures FromPairState(st, s, done, key) == match Between(st, s)
      case Pass(next) => FromPairState(next, s[1..], done, key)
      case Finish => Listed(done)
      case Fail(e) => Refused(e)
  {
    hide Parse, FromValue;
  }

  lemma {:induction false} BetweenMoves(st: PairState, s: string)
    requires st != WKEY && st != WVAL && Between(st, s).Pass?
    ensures s != "" && (Between(st, s).st in {WKEY, WDEL} <==> st == WDEL)
  {
  }

  lemma {:induction false} ValueFollows(s: string, done: seq<Pair>, key: string)
    ensures FromPairState(WVAL, s, done, key) == match WaitVal(s, true)
      case NoWord => Refused(UnexpectedEnd)
      case Failed(e) => Refused(e)
      case Got(val, quoted, r) =>
        if |val| > MAX_LEN then Refused(TooLong)
        else FromPairState(WDEL, r, done + [Pair(key, ValueOf(val, quoted))], "")
  {
    hide WaitVal, WaitDel, ValueOf;
  }

  lemma {:induction false} StartPairState(s: string)
    ensures FromPairState(WKEY, s, [], "") == Parse(s, [])
  {
  }

  lemma {:induction false} Suffix(s: string, i: nat)
    requires i < |s|
    ensures s[i..] != "" && s[i..][0] == s[i] && s[i..][1..] == s[i + 1..]
  {
  }

  lemma {:induction false} DoublesStep(n: nat)
    requires 0 < n < LARGEST && Doubles(n)
    ensures 2 * n <= LARGEST
  {
  }

  /** A list of pairs within the allocation limit, and the one that cannot be doubled. */
  lemma {:induction false} LargestList(plen: nat)
    requires plen > 0 && Doubles(plen) && Granted(PAIR_SIZE * plen)
    ensures plen <= MAX_PAIRS && (Granted(PAIR_SIZE * (plen * 2)) <==> plen < MAX_PAIRS)
  {
    if !Granted(PAIR_SIZE * (plen * 2)) {
      assert Doubles(2 * plen) && Doubles(4 * plen) && Doubles(8 * plen) && Doubles(16 * plen) && Doubles(32 * plen);
      if 32 * plen < LARGEST {
        DoublesStep(32 * plen);
        assert false;
      }
    }
  }

  /** The parser's state over a text without the terminator, which is read one past its end. */
  class HSParser {
    const text: string
    var ptr: int
    var word: array<char>
    var cur: nat
    var pairs: seq<Item>
    var plen: nat

    constructor (text: string)
      requires '\0' !in text
      ensures this.text == text && Valid() && fresh(word)
    {
      this.text := text;
      ptr := 0;
      word := new char[32];
      cur := 0;
      pairs, plen := [], 16;
      SixteenDoubles();
    }

    ghost predicate Valid()
      reads `word, `cur, `pairs, `plen
    {
      && '\0' !in text && 32 <= word.Length && cur < word.Length && Doubles(word.Length)
      && |pairs| <= plen && 0 < plen && Doubles(plen) && Granted(PAIR_SIZE * plen)
    }

    /** The character at the pointer, which stands on the text or its terminator. */
    function Char(): (c: char)
      requires 0 <= ptr <= |text|
      reads this
    {
      if ptr < |text| then text[ptr] else '\0'
    }

    /** RESIZEPRSBUF and a write: the buffer doubles before it is full, up to the allocation limit. */
    method Put(c: char) returns (ok: bool)
      requires Valid()
      modifies `word, `cur, word
      ensures Valid() && (word == old(word) || fresh(word))
      ensures ok <==> old(cur) < MAX_WORD
      ensures !ok ==> cur == old(cur) && word[..cur] == old(word[..cur])
      ensures ok ==> cur == old(cur) + 1 && word[..cur] == old(word[..cur]) + [c]
    {
      if cur + 1 >= word.Length {
        if !Granted(word.Length * 2) { return false; }
        var bigger := new char[word.Length * 2];
        forall k | 0 <= k < cur { bigger[k] := word[k]; }
        assert bigger[..cur] == word[..cur];
        word := bigger;
      }
      word[cur] := c;
      cur := cur + 1;
      return true;
    }

    /** The list doubles once it is full, up to the allocation limit. */
    method MakeRoom() returns (ok: bool)
      requires Valid()
      modifies `plen
      ensures Valid() && (ok <==> |pairs| < MAX_PAIRS) && (ok ==> |pairs| < plen)
    {
      LargestList(plen);
      if |pairs| >= plen {
        if !Granted(PAIR_SIZE * (plen * 2)) { return false; }
        plen := plen * 2;
      }
      return true;
    }

    /** Keeps a character and goes on in a state, or fails for want of memory. */
    method Keep(st: ValState) returns (turn: Turn)
      requires Valid() && 0 <= ptr < |text|
      modifies `word, `cur, word
      ensures Valid() && (word == old(word) || fresh(word))
      ensures turn == Keeps(st, old(cur))
      ensures word[..cur] == old(word[..cur]) + if turn.Next? then [text[ptr]] else ""
    {
      var ok := Put(Char());
      return if ok then Next(st, true) else Error(OutOfMemory);
    }

    /** One round of the loop of get_val: what the character at the pointer makes of the state. */
    method OneChar(st: ValState, ignoreeq: bool) returns (turn: Turn)
      requires Valid() && 0 <= ptr <= |text| && (st == WAITVAL ==> cur == 0)
      modifies this, word
      ensures Valid() && (word == old(word) || fresh(word)) && pairs == old(pairs) && plen == old(plen)
      ensures turn == Step(st, text[old(ptr)..], ignoreeq, old(cur))
      ensures ptr == old(ptr) - if turn.Done? && turn.back then 1 else 0
      ensures word[..cur] == old(word[..cur]) + if turn.Next? && turn.keep then text[old(ptr)..][..1] else ""
    {
      hide IsSpace;
      if ptr < |text| { Suffix(text, ptr); }
      assert Char() == '\0' <==> ptr == |text|;
      ghost var one := if ptr < |text| then text[ptr..][..1] else "";
      assert ptr < |text| ==> one == [Char()];
      if st == WAITVAL {
        if Char() == '"' {
          return Next(INESCVAL, false);
        } else if Char() == '\0' {
          return None;
        } else if Char() == '=' && !ignoreeq {
          return Error(SyntaxError(text[ptr..]));
        } else if Char() == '\\' {
          return Next(WAITESCIN, false);
        } else if !IsSpace(Char()) {
          word[cur] := Char();
          cur := cur + 1;
          return Next(INVAL, true);
        }
        return Next(WAITVAL, false);
      } else if st == INVAL {
        NoSpaceAtEnd();
        if Char() == '\\' {
          return Next(WAITESCIN, false);
        } else if Char() == '=' && !ignoreeq {
          ptr := ptr - 1;
          return Done(true);
        } else if Char() == ',' && ignoreeq {
          ptr := ptr - 1;
          return Done(true);
        } else if IsSpace(Char()) {
          return Done(false);
        } else if Char() == '\0' {
          ptr := ptr - 1;
          return Done(true);
        }
        turn := Keep(INVAL);
      } else if st == INESCVAL {
        if Char() == '\\' {
          return Next(WAITESCESCIN, false);
        } else if Char() == '"' {
          return Done(false);
        } else if Char() == '\0' {
          return Error(UnexpectedEnd);
        }
        turn := Keep(INESCVAL);
      } else {
        if Char() == '\0' { return Error(UnexpectedEnd); }
        turn := Keep(if st == WAITESCIN then INVAL else INESCVAL);
      }
    }

    method NewWord()
      requires Valid()
      modifies `word, `cur
      ensures Valid() && fresh(word) && cur == 0 && word[..cur] == ""
    {
      hide Doubles, Granted;
      SixteenDoubles();
      word, cur := new char[32], 0;
    }

    /** get_val. A word leaves the pointer one before what follows it. */
    method GetVal(ignoreeq: bool) returns (turn: Turn, escaped: bool)
      requires Valid() && 0 <= ptr <= |text|
      modifies this, word
      ensures Valid() && fresh(word) && !turn.Next? && pairs == old(pairs) && plen == old(plen)
      ensures WaitVal(text[old(ptr)..], ignoreeq).NoWord? <==> turn == None
      ensures WaitVal(text[old(ptr)..], ignoreeq).Failed? <==> turn.Error?
      ensures turn.Error? ==> WaitVal(text[old(ptr)..], ignoreeq) == Failed(turn.error)
      ensures turn.Done? ==> old(ptr) <= ptr + 1 <= |text|
      ensures turn.Done? ==> WaitVal(text[old(ptr)..], ignoreeq) == Got(word[..cur], escaped, text[ptr + 1..])
    {
      hide Step, FromState, WaitVal, Doubles, Granted;
      NewWord();
      var st := WAITVAL;
      escaped := false;
      StartState(text[ptr..], ignoreeq);
      while true
        invariant Valid() && fresh(word) && old(ptr) <= ptr <= |text| && pairs == old(pairs) && plen == old(plen)
        invariant (st == WAITVAL ==> cur == 0) && escaped == InQuotes(st)
        invariant FromState(st, text[ptr..], ignoreeq, word[..cur]) == WaitVal(text[old(ptr)..], ignoreeq)
        decreases |text| - ptr
      {
        StepFollows(st, text[ptr..], ignoreeq, word[..cur]);
        if ptr < |text| { Suffix(text, ptr); }
        turn := OneChar(st, ignoreeq);
        if !turn.Next? { return; }
        if st == WAITVAL && turn.st == INESCVAL { escaped := true; }
        st := turn.st;
        ptr := ptr + 1;
      }
    }

    /** One round of the loop of parse_hstore between words. */
    method OneDelimiter(st: PairState) returns (turn: Passage)
      requires Valid() && 0 <= ptr <= |text| && st != WKEY && st != WVAL
      ensures turn == Between(st, text[ptr..])
    {
      if ptr < |text| { Suffix(text, ptr); }
      assert Char() == '\0' <==> ptr == |text|;
      if st == WEQ {
        if Char() == '=' {
          return Pass(WGT);
        } else if Char() == '\0' {
          return Fail(UnexpectedEnd);
        } else if !IsSpace(Char()) {
          return Fail(SyntaxError(text[ptr..]));
        }
        return Pass(WEQ);
      } else if st == WGT {
        if Char() == '>' {
          return Pass(WVAL);
        } else if Char() == '\0' {
          return Fail(UnexpectedEnd);
        } else {
          return Fail(SyntaxError(text[ptr..]));
        }
      } else {
        if Char() == ',' {
          return Pass(WKEY);
        } else if Char() == '\0' {
          return Finish;
        } else if !IsSpace(Char()) {
          return Fail(SyntaxError(text[ptr..]));
        }
        return Pass(WDEL);
      }
    }

    /** A key and room for its pair. */
    method ReadKey() returns (turn: Passage, key: string)
      requires Valid() && 0 <= ptr <= |text|
      modifies this, word
      ensures Valid() && fresh(word) && pairs == old(pairs)
      ensures turn.Pass? ==> turn.st == WEQ && old(ptr) <= ptr + 1 <= |text| && |pairs| < plen
      ensures FromPairState(WKEY, text[old(ptr)..], Pairs(pairs), "") ==
        match turn
        case Pass(_) => FromPairState(WEQ, text[ptr + 1..], Pairs(pairs), key)
        case Finish => Listed(Pairs(pairs))
        case Fail(e) => Refused(e)
    {
      hide FromPairState, WaitVal, Pairs, Doubles, Granted;
      KeyFollows(text[ptr..], Pairs(pairs));
      key := "";
      var got, _ := GetVal(false);
      if got == None { return Finish, key; }
      if got.Error? { return Fail(got.error), key; }
      var ok := MakeRoom();
      if !ok { return Fail(OutOfMemory), key; }
      if cur > MAX_LEN { return Fail(TooLong), key; }
      return Pass(WEQ), word[..cur];
    }

    /** A value, which makes a pair with its key. */
    method ReadValue(key: string) returns (turn: Passage)
      requires Valid() && 0 <= ptr <= |text| && |pairs| < plen && forall x :: x in pairs ==> x.needfree
      modifies this, word
      ensures Valid() && fresh(word) && forall x :: x in pairs ==> x.needfree
      ensures !turn.Finish? && (turn.Pass? ==> turn.st == WDEL && old(ptr) <= ptr + 1 <= |text|)
      ensures FromPairState(WVAL, text[old(ptr)..], old(Pairs(pairs)), key) ==
        match turn
        case Pass(_) => FromPairState(WDEL, text[ptr + 1..], Pairs(pairs), "")
        case Finish => Listed(Pairs(pairs))
        case Fail(e) => Refused(e)
    {
      hide FromPairState, WaitVal, ValueOf, Pairs, Doubles, Granted;
      ValueFollows(text[ptr..], Pairs(pairs), key);
      var got, escaped := GetVal(true);
      if got == None { return Fail(UnexpectedEnd); }
      if got.Error? { return Fail(got.error); }
      if cur > MAX_LEN { return Fail(TooLong); }
      var x := Item(Pair(key, ValueOf(word[..cur], escaped)), true);
      PairsSnoc(pairs, x);
      pairs := pairs + [x];
      return Pass(WDEL);
    }

    method Start()
      requires Valid()
      modifies `pairs, `plen, `ptr
      ensures Valid() && pairs == [] && ptr == 0
      ensures FromPairState(WKEY, text[ptr..], Pairs(pairs), "") == Parse(text, [])
    {
      hide FromPairState, Parse, Pairs, Doubles;
      SixteenDoubles();
      pairs, plen, ptr := [], 16, 0;
      StartPairState(text);
      assert text[0..] == text;
      PairsEmpty();
    }

    /** parse_hstore: the pairs of the text, with needfree set, or why it is refused. */
    method ParseHstore() returns (r: Parsed)
      requires Valid()
      modifies this, word
      ensures r == Parse(text, [])
      ensures r.Listed? ==> Pairs(pairs) == r.pairs && forall x :: x in pairs ==> x.needfree
    {
      hide FromPairState, Parse, Pairs, Between, Valid;
      var st, key := WKEY, "";
      Start();
      while true
        invariant Valid() && (word == old(word) || fresh(word)) && 0 <= ptr <= |text|
        invariant if st == WKEY || st == WDEL then key == "" else |pairs| < plen
        invariant FromPairState(st, text[ptr..], Pairs(pairs), key) == Parse(text, [])
        invariant forall x :: x in pairs ==> x.needfree
        decreases |text| - ptr, if st == WEQ || st == WGT || st == WDEL then 0 else 1
      {
        var turn;
        if st == WKEY {
          turn, key := ReadKey();
        } else if st == WVAL {
          turn := ReadValue(key);
          key := "";
        } else {
          BetweenFollows(st, text[ptr..], Pairs(pairs), key);
          if ptr < |text| { Suffix(text, ptr); }
          turn := OneDelimiter(st);
          if turn.Pass? { BetweenMoves(st, text[ptr..]); }
        }
        if turn.Finish? { return Listed(Pairs(pairs)); }
        if turn.Fail? { return Refused(turn.error); }
        st := turn.st;
        ptr := ptr + 1;
      }
    }
  }

  lemma {:induction false} NoSpaceAtEnd()
    ensures !IsSpace('\0')
  {
  }

  lemma {:induction false} StartState(s: string, isValue: bool)
    ensures FromState(WAITVAL, s, isValue, "") == WaitVal(s, isValue)
  {
  }
}
