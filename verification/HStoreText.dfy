/** contrib/hstore/hstore_io.c: the text form of an hstore, as a grammar and as the parser reads it. */
module HStoreText {
  import opened HStoreLayout

  predicate IsSpace(c: char) {
    c == ' ' || 9 <= c as int <= 13
  }

  predicate Spaces(s: string) {
    forall k :: 0 <= k < |s| ==> IsSpace(s[k])
  }

  // ---------------------------------------------------------------- the grammar

  /** A character as it is, or after a backslash. */
  datatype Chunk = Plain(c: char) | Escaped(c: char)

  datatype Word = Quoted(chunks: seq<Chunk>) | Bare(chunks: seq<Chunk>)

  /** One pair with the spaces around its words. */
  datatype Entry = Entry(before: string, key: Word, mid: string, gap: string, val: Word, after: string)

  /** Pairs between commas. A comma may end the text. */
  datatype Doc = Blank(spaces: string) | Last(entry: Entry) | Comma(entry: Entry, rest: Doc)

  function ChunkText(x: Chunk): string {
    if x.Plain? then [x.c] else ['\\', x.c]
  }

  function ChunksText(xs: seq<Chunk>): string {
    if xs == [] then "" else ChunkText(xs[0]) + ChunksText(xs[1..])
  }

  function ChunksValue(xs: seq<Chunk>): string {
    if xs == [] then "" else [xs[0].c] + ChunksValue(xs[1..])
  }

  function WordText(w: Word): string {
    if w.Quoted? then "\"" + ChunksText(w.chunks) + "\"" else ChunksText(w.chunks)
  }

  /** In quotes only a quote and a backslash need a backslash. */
  predicate QuotedOk(xs: seq<Chunk>) {
    forall k :: 0 <= k < |xs| && xs[k].Plain? ==> xs[k].c != '"' && xs[k].c != '\\'
  }

  /** A bare word ends at a space, a bare key at an equals sign, a bare value at a comma. */
  function Stop(isValue: bool): char {
    if isValue then ',' else '='
  }

  predicate BareRestOk(xs: seq<Chunk>, stop: char) {
    forall k :: 0 <= k < |xs| && xs[k].Plain? ==> xs[k].c != '\\' && xs[k].c != stop && !IsSpace(xs[k].c)
  }

  /** The first character may not start a quoted word. It may be the comma that would end a value. */
  predicate BareOk(xs: seq<Chunk>, isValue: bool) {
    && xs != []
    && (xs[0].Plain? ==> var c := xs[0].c; c != '"' && c != '\\' && !IsSpace(c) && (!isValue ==> c != '='))
    && BareRestOk(xs[1..], Stop(isValue))
  }

  predicate WordOk(w: Word, isValue: bool) {
    if w.Quoted? then QuotedOk(w.chunks) else BareOk(w.chunks, isValue)
  }

  function EntryText(e: Entry): string {
    e.before + (WordText(e.key) + (e.mid + ("=>" + (e.gap + (WordText(e.val) + e.after)))))
  }

  function Lower(c: char): char {
    if 'A' <= c <= 'Z' then (c as int + 32) as char else c
  }

  predicate IsNullWord(s: string) {
    |s| == 4 && Lower(s[0]) == 'n' && Lower(s[1]) == 'u' && Lower(s[2]) == 'l' && Lower(s[3]) == 'l'
  }

  function ValueOf(text: string, quoted: bool): Value {
    if !quoted && IsNullWord(text) then Null else Text(text)
  }

  function EntryMeaning(e: Entry): Pair {
    Pair(ChunksValue(e.key.chunks), ValueOf(ChunksValue(e.val.chunks), e.val.Quoted?))
  }

  const MAX_LEN := 0x3fff_ffff

  /** The longest word the doubling buffer holds, and the most pairs the doubling list does. */
  const MAX_WORD := 0x1fff_ffff
  const MAX_PAIRS := 0x100_0000

  predicate EntryOk(e: Entry) {
    && Spaces(e.before) && Spaces(e.mid) && Spaces(e.gap) && Spaces(e.after)
    && WordOk(e.key, false) && WordOk(e.val, true)
    && |ChunksValue(e.key.chunks)| <= MAX_WORD && |ChunksValue(e.val.chunks)| <= MAX_WORD
  }

  function DocText(d: Doc): string {
    match d
    case Blank(s) => s
    case Last(e) => EntryText(e)
    case Comma(e, rest) => EntryText(e) + ("," + DocText(rest))
  }

  predicate DocOk(d: Doc) {
    match d
    case Blank(s) => Spaces(s)
    case Last(e) => EntryOk(e)
    case Comma(e, rest) => EntryOk(e) && DocOk(rest)
  }

  function DocMeaning(d: Doc): seq<Pair> {
    match d
    case Blank(_) => []
    case Last(e) => [EntryMeaning(e)]
    case Comma(e, rest) => [EntryMeaning(e)] + DocMeaning(rest)
  }

  // ---------------------------------------------------------------- the parser, on what is left of the text

  /** Why a text is refused: the place of a stray character is given by what is left of the text. */
  datatype Error = SyntaxError(left: string) | UnexpectedEnd | TooLong | OutOfMemory

  /** What reading a word gives: none, one with the text after it, or an error. */
  datatype Got = NoWord | Got(word: string, quoted: bool, rest: string) | Failed(error: Error)

  /** A bare word from its second character on. */
  function InVal(s: string, stop: char, word: string): Got {
    if s == "" then Got(word, false, s)
    else if s[0] == '\\' then
      if |s| == 1 then Failed(UnexpectedEnd)
      else if |word| >= MAX_WORD then Failed(OutOfMemory)
      else InVal(s[2..], stop, word + [s[1]])
    else if s[0] == stop then Got(word, false, s)
    else if IsSpace(s[0]) then Got(word, false, s[1..])
    else if |word| >= MAX_WORD then Failed(OutOfMemory)
    else InVal(s[1..], stop, word + [s[0]])
  }

  /** A quoted word from after its opening quote on. */
  function InEscVal(s: string, word: string): Got {
    if s == "" then Failed(UnexpectedEnd)
    else if s[0] == '\\' then
      if |s| == 1 then Failed(UnexpectedEnd)
      else if |word| >= MAX_WORD then Failed(OutOfMemory)
      else InEscVal(s[2..], word + [s[1]])
    else if s[0] == '"' then Got(word, true, s[1..])
    else if |word| >= MAX_WORD then Failed(OutOfMemory)
    else InEscVal(s[1..], word + [s[0]])
  }

  function WaitVal(s: string, isValue: bool): Got {
    if s == "" then NoWord
    else if s[0] == '"' then InEscVal(s[1..], "")
    else if s[0] == '=' && !isValue then Failed(SyntaxError(s))
    else if s[0] == '\\' then
      if |s| == 1 then Failed(UnexpectedEnd) else InVal(s[2..], Stop(isValue), [s[1]])
    else if IsSpace(s[0]) then WaitVal(s[1..], isValue)
    else InVal(s[1..], Stop(isValue), [s[0]])
  }

  /** What is left after the next token, or an error. */
  datatype Rest = Rest(left: string) | Bad(error: Error)

  function WaitGt(s: string): Rest {
    if s == "" then Bad(UnexpectedEnd) else if s[0] == '>' then Rest(s[1..]) else Bad(SyntaxError(s))
  }

  function WaitEq(s: string): Rest {
    if s == "" then Bad(UnexpectedEnd)
    else if s[0] == '=' then WaitGt(s[1..])
    else if IsSpace(s[0]) then WaitEq(s[1..])
    else Bad(SyntaxError(s))
  }

  /** The end of the text, or what is left after a comma, or an error. */
  datatype Delimiter = End | After(left: string) | Wrong(error: Error)

  function WaitDel(s: string): Delimiter {
    if s == "" then End
    else if s[0] == ',' then After(s[1..])
    else if IsSpace(s[0]) then WaitDel(s[1..])
    else Wrong(SyntaxError(s))
  }

  lemma {:induction false} InValShortens(s: string, stop: char, word: string)
    ensures InVal(s, stop, word).Got? ==> |InVal(s, stop, word).rest| <= |s|
    decreases |s|
  {
    if s != "" {
      if s[0] == '\\' {
        if |s| > 1 { InValShortens(s[2..], stop, word + [s[1]]); }
      } else if s[0] != stop && !IsSpace(s[0]) {
        InValShortens(s[1..], stop, word + [s[0]]);
      }
    }
  }

  lemma {:induction false} InEscValShortens(s: string, word: string)
    ensures InEscVal(s, word).Got? ==> |InEscVal(s, word).rest| < |s|
    decreases |s|
  {
    if s != "" {
      if s[0] == '\\' {
        if |s| > 1 { InEscValShortens(s[2..], word + [s[1]]); }
      } else if s[0] != '"' {
        InEscValShortens(s[1..], word + [s[0]]);
      }
    }
  }

  lemma {:induction false} WaitValShortens(s: string, isValue: bool)
    ensures WaitVal(s, isValue).Got? ==> |WaitVal(s, isValue).rest| < |s|
    decreases |s|
  {
    if s != "" {
      if s[0] == '"' {
        InEscValShortens(s[1..], "");
      } else if s[0] == '\\' {
        if |s| > 1 { InValShortens(s[2..], Stop(isValue), [s[1]]); }
      } else if IsSpace(s[0]) {
        WaitValShortens(s[1..], isValue);
      } else {
        InValShortens(s[1..], Stop(isValue), [s[0]]);
      }
    }
  }

  lemma {:induction false} WaitEqShortens(s: string)
    ensures WaitEq(s).Rest? ==> |WaitEq(s).left| < |s|
    decreases |s|
  {
    if s != "" && IsSpace(s[0]) { WaitEqShortens(s[1..]); }
  }

  lemma {:induction false} WaitDelShortens(s: string)
    ensures WaitDel(s).After? ==> |WaitDel(s).left| < |s|
    decreases |s|
  {
    if s != "" && IsSpace(s[0]) { WaitDelShortens(s[1..]); }
  }

  datatype Parsed = Listed(pairs: seq<Pair>) | Refused(error: Error)

  /** One pair after count others: the end of the text before it, or the pair with what is left, or an error. */
  datatype One = Nothing | One(pair: Pair, left: string) | Stuck(error: Error)

  function ParseOne(s: string, count: nat): One {
    match WaitVal(s, false)
    case NoWord => Nothing
    case Failed(e) => Stuck(e)
    case Got(key, _, r) =>
      if count >= MAX_PAIRS then Stuck(OutOfMemory)
      else if |key| > MAX_LEN then Stuck(TooLong)
      else
      match WaitEq(r)
      case Bad(e) => Stuck(e)
      case Rest(r2) =>
        match WaitVal(r2, true)
        case NoWord => Stuck(UnexpectedEnd)
        case Failed(e) => Stuck(e)
        case Got(val, quoted, r3) =>
          if |val| > MAX_LEN then Stuck(TooLong) else One(Pair(key, ValueOf(val, quoted)), r3)
  }

  lemma {:induction false} ParseOneShortens(s: string, count: nat)
    ensures ParseOne(s, count).One? ==> |ParseOne(s, count).left| < |s|
  {
    hide WaitVal, WaitEq;
    WaitValShortens(s, false);
    if WaitVal(s, false).Got? {
      var r := WaitVal(s, false).rest;
      WaitEqShortens(r);
      if WaitEq(r).Rest? { WaitValShortens(WaitEq(r).left, true); }
    }
  }

  /** The pairs of a text, in their order, after those read before. */
  function Parse(s: string, done: seq<Pair>): Parsed
    decreases |s|
  {
    match ParseOne(s, |done|)
    case Nothing => Listed(done)
    case Stuck(e) => Refused(e)
    case One(p, r) =>
      match WaitDel(r)
      case Wrong(e) => Refused(e)
      case End => Listed(done + [p])
      case After(r2) =>
        ParseOneShortens(s, |done|);
        WaitDelShortens(r);
        Parse(r2, done + [p])
  }

  // ---------------------------------------------------------------- every text of the grammar is accepted

  /** What follows a bare word: nothing, a space that is taken, or what stops it. */
  predicate Follows(rest: string, stop: char) {
    rest == "" || rest[0] == stop || IsSpace(rest[0])
  }

  function Taken(rest: string): string {
    if rest != "" && IsSpace(rest[0]) then rest[1..] else rest
  }

  lemma {:induction false} InValStep(x: Chunk, t: string, stop: char, word: string)
    requires (x.Plain? ==> x.c != '\\' && x.c != stop && !IsSpace(x.c)) && |word| < MAX_WORD
    ensures InVal(ChunkText(x) + t, stop, word) == InVal(t, stop, word + [x.c])
  {
    assert (ChunkText(x) + t)[|ChunkText(x)|..] == t;
  }

  lemma {:induction false} InValEnds(rest: string, stop: char, word: string)
    requires Follows(rest, stop) && stop != '\\' && !IsSpace(stop)
    ensures InVal(rest, stop, word) == Got(word, false, Taken(rest))
  {
  }

  lemma {:induction false} InEscValStep(x: Chunk, t: string, word: string)
    requires (x.Plain? ==> x.c != '"' && x.c != '\\') && |word| < MAX_WORD
    ensures InEscVal(ChunkText(x) + t, word) == InEscVal(t, word + [x.c])
  {
    assert (ChunkText(x) + t)[|ChunkText(x)|..] == t;
  }

  lemma {:induction false} InEscValEnds(rest: string, word: string)
    ensures InEscVal("\"" + rest, word) == Got(word, true, rest)
  {
    assert ("\"" + rest)[1..] == rest;
  }

  /** The text and the value of chunks, first chunk first. */
  lemma {:induction false} ChunksCons(xs: seq<Chunk>, rest: string, word: string)
    requires xs != []
    ensures ChunksText(xs) + rest == ChunkText(xs[0]) + (ChunksText(xs[1..]) + rest)
    ensures word + ChunksValue(xs) == word + [xs[0].c] + ChunksValue(xs[1..])
  {
  }

  lemma {:induction false} NoChunks(rest: string, word: string)
    ensures ChunksText([]) + rest == rest && word + ChunksValue([]) == word
  {
  }

  lemma {:induction false} InValReads(xs: seq<Chunk>, stop: char, word: string, rest: string)
    requires BareRestOk(xs, stop) && Follows(rest, stop) && stop != '\\' && !IsSpace(stop)
    requires |word + ChunksValue(xs)| <= MAX_WORD
    ensures InVal(ChunksText(xs) + rest, stop, word) == Got(word + ChunksValue(xs), false, Taken(rest))
    decreases |xs|
  {
    hide InVal, ChunksText, ChunksValue, ChunkText, Taken, Follows, IsSpace;
    if xs == [] {
      NoChunks(rest, word);
      InValEnds(rest, stop, word);
    } else {
      ChunksCons(xs, rest, word);
      InValStep(xs[0], ChunksText(xs[1..]) + rest, stop, word);
      InValReads(xs[1..], stop, word + [xs[0].c], rest);
    }
  }

  lemma {:induction false} InEscValReads(xs: seq<Chunk>, word: string, rest: string)
    requires QuotedOk(xs) && |word + ChunksValue(xs)| <= MAX_WORD
    ensures InEscVal(ChunksText(xs) + ("\"" + rest), word) == Got(word + ChunksValue(xs), true, rest)
    decreases |xs|
  {
    hide InEscVal, ChunksText, ChunksValue, ChunkText;
    if xs == [] {
      NoChunks("\"" + rest, word);
      InEscValEnds(rest, word);
    } else {
      ChunksCons(xs, "\"" + rest, word);
      InEscValStep(xs[0], ChunksText(xs[1..]) + ("\"" + rest), word);
      InEscValReads(xs[1..], word + [xs[0].c], rest);
    }
  }

  /** What is left after a word. */
  function AfterWord(quoted: bool, rest: string): string {
    if quoted then rest else Taken(rest)
  }

  predicate WordEnds(quoted: bool, rest: string, isValue: bool) {
    quoted || Follows(rest, Stop(isValue))
  }

  lemma {:induction false} WordReads(w: Word, isValue: bool, rest: string)
    requires WordOk(w, isValue) && WordEnds(w.Quoted?, rest, isValue) && |ChunksValue(w.chunks)| <= MAX_WORD
    ensures WaitVal(WordText(w) + rest, isValue) == Got(ChunksValue(w.chunks), w.Quoted?, AfterWord(w.Quoted?, rest))
  {
    hide InVal, InEscVal, ChunksText, ChunksValue, BareRestOk, QuotedOk, Follows, Taken;
    var xs := w.chunks;
    var s := WordText(w) + rest;
    if w.Quoted? {
      assert s == ['"'] + (ChunksText(xs) + ("\"" + rest));
      assert s[1..] == ChunksText(xs) + ("\"" + rest);
      InEscValReads(xs, "", rest);
      assert "" + ChunksValue(xs) == ChunksValue(xs);
    } else {
      var t := ChunksText(xs[1..]) + rest;
      ChunksCons(xs, rest, "");
      assert s == ChunkText(xs[0]) + t && s[|ChunkText(xs[0])|..] == t;
      InValReads(xs[1..], Stop(isValue), [xs[0].c], rest);
      assert "" + ChunksValue(xs) == ChunksValue(xs) && "" + [xs[0].c] == [xs[0].c];
    }
  }

  lemma {:induction false} WaitValSkips(sp: string, s: string, isValue: bool)
    requires Spaces(sp)
    ensures WaitVal(sp + s, isValue) == WaitVal(s, isValue)
    decreases |sp|
  {
    if sp == "" {
      assert sp + s == s;
    } else {
      assert (sp + s)[1..] == sp[1..] + s;
      WaitValSkips(sp[1..], s, isValue);
    }
  }

  lemma {:induction false} WaitEqReads(sp: string, s: string)
    requires Spaces(sp)
    ensures WaitEq(sp + ("=>" + s)) == Rest(s)
    decreases |sp|
  {
    var t := sp + ("=>" + s);
    if sp == "" {
      assert t == "=>" + s && t[1..] == ">" + s && t[1..][1..] == s;
    } else {
      assert t[1..] == sp[1..] + ("=>" + s);
      WaitEqReads(sp[1..], s);
    }
  }

  lemma {:induction false} WaitDelReads(sp: string, s: string)
    requires Spaces(sp) && (s == "" || s[0] == ',')
    ensures WaitDel(sp + s) == if s == "" then End else After(s[1..])
    decreases |sp|
  {
    if sp == "" {
      assert sp + s == s;
    } else {
      assert (sp + s)[1..] == sp[1..] + s;
      WaitDelReads(sp[1..], s);
    }
  }

  /** Of spaces before something else, a bare word takes the first. */
  lemma {:induction false} LeftSpaces(quoted: bool, sp: string, s: string) returns (sp': string)
    requires Spaces(sp) && (s == "" || !IsSpace(s[0]))
    ensures Spaces(sp') && AfterWord(quoted, sp + s) == sp' + s
  {
    if quoted || sp == "" {
      sp' := sp;
      assert sp == "" ==> sp + s == s;
    } else {
      sp' := sp[1..];
      assert (sp + s)[1..] == sp[1..] + s;
    }
  }

  lemma {:induction false} EntryReads(e: Entry, rest: string, count: nat)
    requires EntryOk(e) && (rest == "" || rest[0] == ',')
    ensures var one := ParseOne(EntryText(e) + rest, count);
      if count >= MAX_PAIRS then one == Stuck(OutOfMemory)
      else one.One? && one.pair == EntryMeaning(e) && WaitDel(one.left) == if rest == "" then End else After(rest[1..])
  {
    hide WaitVal, WaitEq, WaitDel, ChunksValue, ChunksText, WordText, AfterWord, QuotedOk, BareOk, IsNullWord;
    var c := e.after + rest;
    var b := e.gap + (WordText(e.val) + c);
    var a := e.mid + ("=>" + b);
    assert EntryText(e) + rest == e.before + (WordText(e.key) + a);
    WaitValSkips(e.before, WordText(e.key) + a, false);
    WordReads(e.key, false, a);
    var mid := LeftSpaces(e.key.Quoted?, e.mid, "=>" + b);
    WaitEqReads(mid, b);
    WaitValSkips(e.gap, WordText(e.val) + c, true);
    WordReads(e.val, true, c);
    var after := LeftSpaces(e.val.Quoted?, e.after, rest);
    WaitDelReads(after, rest);
  }

  /** Every text of the grammar is read, and as what the grammar says it means, if the list holds its pairs. */
  lemma {:induction false} ParseAccepts(d: Doc, done: seq<Pair>)
    requires DocOk(d) && |done| <= MAX_PAIRS
    ensures Parse(DocText(d), done) ==
      if |done + DocMeaning(d)| <= MAX_PAIRS then Listed(done + DocMeaning(d)) else Refused(OutOfMemory)
  {
    hide ParseOne, WaitDel, EntryText, EntryOk, EntryMeaning;
    match d
    case Blank(sp) =>
      NothingInSpaces(sp, |done|);
      assert done + [] == done;
    case Last(e) =>
      EntryReads(e, "", |done|);
      assert EntryText(e) + "" == EntryText(e);
    case Comma(e, rest) =>
      var t := "," + DocText(rest);
      EntryReads(e, t, |done|);
      assert t[1..] == DocText(rest);
      if |done| < MAX_PAIRS { ParseAccepts(rest, done + [EntryMeaning(e)]); }
      assert done + [EntryMeaning(e)] + DocMeaning(rest) == done + DocMeaning(d);
  }

  lemma {:induction false} NothingInSpaces(sp: string, count: nat)
    requires Spaces(sp)
    ensures ParseOne(sp, count) == Nothing
  {
    assert sp + "" == sp;
    WaitValSkips(sp, "", false);
  }

  // ---------------------------------------------------------------- every text accepted is one of the grammar

  lemma {:induction false} InValSound(s: string, stop: char, word: string) returns (xs: seq<Chunk>, tail: string)
    requires InVal(s, stop, word).Got? && stop != '\\' && !IsSpace(stop) && |word| <= MAX_WORD
    ensures BareRestOk(xs, stop) && Follows(tail, stop) && s == ChunksText(xs) + tail
    ensures InVal(s, stop, word) == Got(word + ChunksValue(xs), false, Taken(tail))
    ensures |word + ChunksValue(xs)| <= MAX_WORD
    decreases |s|
  {
    hide ChunksText, ChunksValue, ChunkText;
    if Follows(s, stop) {
      xs, tail := [], s;
      NoChunks(tail, word);
    } else {
      var x, n := Plain(s[0]), 1;
      if s[0] == '\\' { x, n := Escaped(s[1]), 2; }
      var ys;
      ys, tail := InValSound(s[n..], stop, word + [x.c]);
      xs := [x] + ys;
      ChunksCons(xs, tail, word);
      assert xs[1..] == ys;
      ChunkFirst(s, x, n);
    }
  }

  lemma {:induction false} ChunkFirst(s: string, x: Chunk, n: nat)
    requires n <= |s| && ((n == 1 && x == Plain(s[0])) || (n == 2 && s[0] == '\\' && x == Escaped(s[1])))
    ensures s == ChunkText(x) + s[n..]
  {
  }

  /** The definition of InEscVal where a word is read, for proofs that hide it. */
  lemma {:induction false} InEscValCases(s: string, word: string)
    requires InEscVal(s, word).Got?
    ensures s != "" && (s[0] == '"' || |word| < MAX_WORD) && (s[0] == '\\' ==> |s| > 1)
    ensures s[0] == '"' ==> InEscVal(s, word) == Got(word, true, s[1..])
  {
  }

  lemma {:induction false} InEscValSound(s: string, word: string) returns (xs: seq<Chunk>)
    requires InEscVal(s, word).Got? && |word| <= MAX_WORD
    ensures QuotedOk(xs) && s == ChunksText(xs) + ("\"" + InEscVal(s, word).rest)
    ensures InEscVal(s, word).word == word + ChunksValue(xs) && InEscVal(s, word).quoted
    ensures |word + ChunksValue(xs)| <= MAX_WORD
    decreases |s|
  {
    hide InEscVal, ChunksText, ChunksValue, ChunkText;
    InEscValCases(s, word);
    var rest := InEscVal(s, word).rest;
    if s[0] == '"' {
      xs := [];
      NoChunks(s, word);
      assert s == "\"" + s[1..];
    } else {
      var x, n := Plain(s[0]), 1;
      if s[0] == '\\' { x, n := Escaped(s[1]), 2; }
      ChunkFirst(s, x, n);
      InEscValStep(x, s[n..], word);
      var ys := InEscValSound(s[n..], word + [x.c]);
      xs := [x] + ys;
      ChunksCons(xs, "\"" + rest, word);
      assert xs[1..] == ys;
    }
  }

  lemma {:induction false} BareWordSound(s: string, x: Chunk, n: nat, isValue: bool) returns (w: Word, tail: string)
    requires n <= |s| && ((n == 1 && x == Plain(s[0])) || (n == 2 && s[0] == '\\' && x == Escaped(s[1])))
    requires x.Plain? ==> x.c != '"' && x.c != '\\' && !IsSpace(x.c) && (!isValue ==> x.c != '=')
    requires InVal(s[n..], Stop(isValue), [x.c]).Got?
    ensures w.Bare? && WordOk(w, isValue) && Follows(tail, Stop(isValue)) && s == WordText(w) + tail
    ensures InVal(s[n..], Stop(isValue), [x.c]) == Got(ChunksValue(w.chunks), false, Taken(tail))
    ensures |ChunksValue(w.chunks)| <= MAX_WORD
  {
    var ys;
    ys, tail := InValSound(s[n..], Stop(isValue), [x.c]);
    w := Bare([x] + ys);
    assert ([x] + ys)[1..] == ys;
    ChunksCons([x] + ys, tail, "");
    ChunkFirst(s, x, n);
    hide ChunksText, ChunksValue, ChunkText, BareRestOk, Follows, InVal, Taken;
    assert "" + ChunksValue([x] + ys) == ChunksValue([x] + ys) && "" + [x.c] == [x.c];
  }

  /** The definition of WaitVal, for proofs that hide it. */
  lemma {:induction false} WaitValCases(s: string, isValue: bool)
    requires s != ""
    ensures s[0] == '"' ==> WaitVal(s, isValue) == InEscVal(s[1..], "")
    ensures s[0] == '\\' ==>
      WaitVal(s, isValue) == if |s| == 1 then Failed(UnexpectedEnd) else InVal(s[2..], Stop(isValue), [s[1]])
    ensures IsSpace(s[0]) ==> WaitVal(s, isValue) == WaitVal(s[1..], isValue)
    ensures s[0] != '"' && s[0] != '\\' && !IsSpace(s[0]) ==>
      WaitVal(s, isValue) ==
      if s[0] == '=' && !isValue then Failed(SyntaxError(s)) else InVal(s[1..], Stop(isValue), [s[0]])
  {
    hide InVal, InEscVal;
  }

  lemma {:induction false} QuotedWordSound(s: string) returns (w: Word)
    requires s != "" && s[0] == '"' && InEscVal(s[1..], "").Got?
    ensures w.Quoted? && QuotedOk(w.chunks) && s == WordText(w) + InEscVal(s[1..], "").rest
    ensures InEscVal(s[1..], "") == Got(ChunksValue(w.chunks), true, InEscVal(s[1..], "").rest)
    ensures |ChunksValue(w.chunks)| <= MAX_WORD
  {
    hide InEscVal, ChunksText, ChunksValue, QuotedOk;
    var tail := InEscVal(s[1..], "").rest;
    var xs := InEscValSound(s[1..], "");
    w := Quoted(xs);
    assert "" + ChunksValue(xs) == ChunksValue(xs);
    assert s == ['"'] + s[1..] && WordText(w) + tail == ['"'] + (ChunksText(xs) + ("\"" + tail));
  }

  /** A word at the start of the text, without spaces before it. */
  lemma {:induction false} WordSound(s: string, isValue: bool) returns (w: Word, tail: string)
    requires s != "" && !IsSpace(s[0]) && WaitVal(s, isValue).Got?
    ensures WordOk(w, isValue) && WordEnds(w.Quoted?, tail, isValue) && s == WordText(w) + tail
    ensures WaitVal(s, isValue) == Got(ChunksValue(w.chunks), w.Quoted?, AfterWord(w.Quoted?, tail))
    ensures |ChunksValue(w.chunks)| <= MAX_WORD
  {
    hide WaitVal, InVal, InEscVal, ChunksValue, BareOk, QuotedOk, Follows, Taken, WordText;
    WaitValCases(s, isValue);
    if s[0] == '"' {
      w := QuotedWordSound(s);
      tail := InEscVal(s[1..], "").rest;
    } else if s[0] == '\\' {
      w, tail := BareWordSound(s, Escaped(s[1]), 2, isValue);
    } else {
      w, tail := BareWordSound(s, Plain(s[0]), 1, isValue);
    }
  }

  lemma {:induction false} WaitValSound(s: string, isValue: bool) returns (sp: string, w: Word, tail: string)
    requires WaitVal(s, isValue).Got?
    ensures Spaces(sp) && WordOk(w, isValue) && WordEnds(w.Quoted?, tail, isValue) && s == sp + (WordText(w) + tail)
    ensures WaitVal(s, isValue) == Got(ChunksValue(w.chunks), w.Quoted?, AfterWord(w.Quoted?, tail))
    ensures |ChunksValue(w.chunks)| <= MAX_WORD
    decreases |s|
  {
    hide WaitVal, ChunksValue, WordOk, WordEnds, AfterWord, WordText, IsSpace;
    NoWordAtEnd(isValue);
    WaitValCases(s, isValue);
    if IsSpace(s[0]) {
      sp, w, tail := WaitValSound(s[1..], isValue);
      sp := [s[0]] + sp;
      assert s == [s[0]] + s[1..];
    } else {
      sp := "";
      w, tail := WordSound(s, isValue);
      assert "" + (WordText(w) + tail) == WordText(w) + tail;
    }
  }

  lemma {:induction false} NoWordAtEnd(isValue: bool)
    ensures WaitVal("", isValue) == NoWord
  {
  }

  lemma {:induction false} NoWordInSpaces(s: string, isValue: bool)
    requires WaitVal(s, isValue) == NoWord
    ensures Spaces(s)
    decreases |s|
  {
    hide InVal, InEscVal;
    if s != "" {
      if s[0] == '"' {
        InEscValGives(s[1..], "");
      } else if s[0] == '\\' && |s| > 1 {
        InValGives(s[2..], Stop(isValue), [s[1]]);
      } else if s[0] != '\\' {
        if IsSpace(s[0]) {
          NoWordInSpaces(s[1..], isValue);
          assert forall k :: 0 < k < |s| ==> s[k] == s[1..][k - 1];
        } else {
          InValGives(s[1..], Stop(isValue), [s[0]]);
        }
      }
    }
  }

  lemma {:induction false} InValGives(s: string, stop: char, word: string)
    ensures !InVal(s, stop, word).NoWord?
    decreases |s|
  {
    if s != "" {
      if s[0] == '\\' {
        if |s| > 1 { InValGives(s[2..], stop, word + [s[1]]); }
      } else if s[0] != stop && !IsSpace(s[0]) {
        InValGives(s[1..], stop, word + [s[0]]);
      }
    }
  }

  lemma {:induction false} InEscValGives(s: string, word: string)
    ensures !InEscVal(s, word).NoWord?
    decreases |s|
  {
    if s != "" {
      if s[0] == '\\' {
        if |s| > 1 { InEscValGives(s[2..], word + [s[1]]); }
      } else if s[0] != '"' {
        InEscValGives(s[1..], word + [s[0]]);
      }
    }
  }

  lemma {:induction false} WaitEqSound(s: string) returns (sp: string)
    requires WaitEq(s).Rest?
    ensures Spaces(sp) && s == sp + ("=>" + WaitEq(s).left)
    decreases |s|
  {
    if s[0] == '=' {
      sp := "";
      assert s == ['='] + (['>'] + s[1..][1..]);
    } else {
      var sp' := WaitEqSound(s[1..]);
      sp := [s[0]] + sp';
      assert s == [s[0]] + s[1..];
    }
  }

  lemma {:induction false} WaitDelSound(s: string) returns (sp: string)
    requires !WaitDel(s).Wrong?
    ensures Spaces(sp) && s == sp + if WaitDel(s).End? then "" else "," + WaitDel(s).left
    decreases |s|
  {
    if s == "" || s[0] == ',' {
      sp := "";
      assert s != "" ==> s == "," + s[1..];
    } else {
      var sp' := WaitDelSound(s[1..]);
      sp := [s[0]] + sp';
      assert s == [s[0]] + s[1..];
    }
  }

  /** Spaces after a word, with the one that a bare word took. */
  lemma {:induction false} AllSpaces(quoted: bool, tail: string, sp: string, s: string) returns (sp': string)
    requires Spaces(sp) && AfterWord(quoted, tail) == sp + s
    ensures Spaces(sp') && tail == sp' + s
  {
    if !quoted && tail != "" && IsSpace(tail[0]) {
      sp' := [tail[0]] + sp;
      assert tail == [tail[0]] + tail[1..];
    } else {
      sp' := sp;
    }
  }

  lemma {:induction false} ParseOneSound(s: string, count: nat) returns (e: Entry, tail: string)
    requires ParseOne(s, count).One?
    ensures count < MAX_PAIRS && EntryOk(e) && ParseOne(s, count) == One(EntryMeaning(e), AfterWord(e.val.Quoted?, tail))
    ensures e.after == "" && s == EntryText(e) + tail
  {
    hide WaitVal, WaitEq, ChunksValue, ChunksText, WordText, AfterWord, QuotedOk, BareOk, IsNullWord, WordEnds, Spaces;
    var before, key, a := WaitValSound(s, false);
    var r := WaitVal(s, false).rest;
    var mid := WaitEqSound(r);
    var r2 := WaitEq(r).left;
    var mid' := AllSpaces(key.Quoted?, a, mid, "=>" + r2);
    var gap, val, c := WaitValSound(r2, true);
    tail := c;
    e := Entry(before, key, mid', gap, val, "");
    NoSpaces();
    assert WordText(val) + "" == WordText(val);
    assert s == EntryText(e) + tail;
  }

  lemma {:induction false} NoSpaces()
    ensures Spaces("")
  {
  }

  /** Every text that is read comes from the grammar, with the meaning that was read. */
  lemma {:induction false} ParseSound(s: string, done: seq<Pair>) returns (d: Doc)
    requires Parse(s, done).Listed? && |done| <= MAX_PAIRS
    ensures DocOk(d) && DocText(d) == s && Parse(s, done) == Listed(done + DocMeaning(d))
    ensures |done + DocMeaning(d)| <= MAX_PAIRS
    decreases |s|
  {
    hide ParseOne, WaitDel, EntryText, EntryOk, EntryMeaning, AfterWord, Spaces;
    match ParseOne(s, |done|)
    case Nothing =>
      d := Blank(s);
      NothingIsSpaces(s, |done|);
      assert done + [] == done;
    case One(p, r) =>
      var e, tail := ParseOneSound(s, |done|);
      var sp := WaitDelSound(r);
      ParseOneShortens(s, |done|);
      WaitDelShortens(r);
      if WaitDel(r).End? {
        var after := AllSpaces(e.val.Quoted?, tail, sp, "");
        EntryWithSpaces(e, after);
        d := Last(e.(after := after));
        assert after + "" == after;
      } else {
        var r2 := WaitDel(r).left;
        var after := AllSpaces(e.val.Quoted?, tail, sp, "," + r2);
        EntryWithSpaces(e, after);
        var rest := ParseSound(r2, done + [p]);
        d := Comma(e.(after := after), rest);
        assert EntryText(e) + (after + ("," + r2)) == EntryText(e) + after + ("," + r2);
        assert done + [p] + DocMeaning(rest) == done + ([p] + DocMeaning(rest));
      }
  }

  lemma {:induction false} NothingIsSpaces(s: string, count: nat)
    requires ParseOne(s, count) == Nothing
    ensures Spaces(s)
  {
    hide WaitVal, WaitEq;
    NoWordInSpaces(s, false);
  }

  lemma {:induction false} EntryWithSpaces(e: Entry, after: string)
    requires e.after == "" && EntryOk(e) && Spaces(after)
    ensures var f := e.(after := after);
      EntryOk(f) && EntryText(f) == EntryText(e) + after && EntryMeaning(f) == EntryMeaning(e)
  {
    hide ChunksValue, ChunksText, WordText, QuotedOk, BareOk, IsNullWord;
    assert WordText(e.val) + "" + after == WordText(e.val) + after;
  }

  /** The texts accepted are those of the grammar whose pairs the list holds; the others of it are refused for
      want of memory. */
  lemma {:induction false} ParseAcceptsExactly(s: string)
    ensures Parse(s, []).Listed? <==> exists d :: DocOk(d) && DocText(d) == s && |DocMeaning(d)| <= MAX_PAIRS
    ensures forall d :: DocOk(d) && DocText(d) == s ==>
      Parse(s, []) == if |DocMeaning(d)| <= MAX_PAIRS then Listed(DocMeaning(d)) else Refused(OutOfMemory)
  {
    hide Parse, DocOk, DocText, DocMeaning;
    if Parse(s, []).Listed? {
      var d := ParseSound(s, []);
      assert [] + DocMeaning(d) == DocMeaning(d);
    }
    forall d | DocOk(d) && DocText(d) == s
      ensures Parse(s, []) == if |DocMeaning(d)| <= MAX_PAIRS then Listed(DocMeaning(d)) else Refused(OutOfMemory)
    {
      ParseAccepts(d, []);
      assert [] + DocMeaning(d) == DocMeaning(d);
    }
  }

  /** The same pair n times over, each with a comma after it. */
  function Copies(n: nat): string {
    if n == 0 then "" else "a=>1," + Copies(n - 1)
  }

  function CopiesDoc(n: nat): Doc {
    if n == 0 then Blank("")
    else Comma(Entry("", Bare([Plain('a')]), "", "", Bare([Plain('1')]), ""), CopiesDoc(n - 1))
  }

  lemma {:induction false} OneCopy()
    ensures var e := Entry("", Bare([Plain('a')]), "", "", Bare([Plain('1')]), "");
      EntryOk(e) && EntryText(e) == "a=>1"
  {
    assert [Plain('a')][1..] == [] && [Plain('1')][1..] == [];
    assert ChunksText([Plain('a')]) == "a" && ChunksText([Plain('1')]) == "1";
  }

  lemma {:induction false} CopiesAreDoc(n: nat)
    ensures var d := CopiesDoc(n); DocOk(d) && DocText(d) == Copies(n) && |DocMeaning(d)| == n
    decreases n
  {
    hide EntryOk, EntryText, EntryMeaning;
    if n > 0 {
      OneCopy();
      CopiesAreDoc(n - 1);
      assert "a=>1" + ("," + Copies(n - 1)) == "a=>1," + Copies(n - 1);
    }
  }

  /** One pair too many is refused, though every pair of it is as good as the first. */
  lemma {:induction false} ManyPairs(n: nat)
    ensures Parse(Copies(n), []).Listed? <==> n <= MAX_PAIRS
    ensures n > MAX_PAIRS ==> Parse(Copies(n), []) == Refused(OutOfMemory)
  {
    hide Parse, Copies, CopiesDoc, DocOk, DocText, DocMeaning;
    CopiesAreDoc(n);
    ParseAcceptsExactly(Copies(n));
    assert DocText(CopiesDoc(n)) == Copies(n);
  }

  // ---------------------------------------------------------------- which words are null, which characters are space

  /** A character that has no meaning of its own inside a bare value. */
  predicate Ordinary(c: char) {
    c != '"' && c != '\\' && c != ',' && c != ' ' && !(9 <= c as int <= 13)
  }

  lemma {:induction false} InValTakesAll(s: string, word: string)
    requires (forall k :: 0 <= k < |s| ==> Ordinary(s[k])) && |word| <= MAX_WORD
    ensures InVal(s, ',', word) == if |word + s| <= MAX_WORD then Got(word + s, false, "") else Failed(OutOfMemory)
    decreases |s|
  {
    if s == "" {
      assert word + s == word;
    } else {
      assert Ordinary(s[0]);
      assert word + [s[0]] + s[1..] == word + s;
      if |word| < MAX_WORD { InValTakesAll(s[1..], word + [s[0]]); }
    }
  }

  lemma {:induction false} InEscValTakesAll(s: string, word: string)
    requires (forall k :: 0 <= k < |s| ==> Ordinary(s[k])) && |word + s| <= MAX_WORD
    ensures InEscVal(s + "\"", word) == Got(word + s, true, "")
    decreases |s|
  {
    if s == "" {
      assert word + s == word && s + "\"" == "\"";
    } else {
      assert Ordinary(s[0]);
      assert word + [s[0]] + s[1..] == word + s && (s + "\"")[1..] == s[1..] + "\"";
      InEscValTakesAll(s[1..], word + [s[0]]);
    }
  }

  lemma {:induction false} OnePair(s: string, p: Pair)
    requires ParseOne(s, 0) == One(p, "")
    ensures Parse(s, []) == Listed([p])
  {
    hide ParseOne;
    assert [] + [p] == [p];
  }

  /** The key a, whatever its value. */
  lemma {:induction false} KeyOfOneLetter(t: string)
    ensures ParseOne("a=>" + t, 0) == match WaitVal(t, true)
      case NoWord => Stuck(UnexpectedEnd)
      case Failed(e) => Stuck(e)
      case Got(val, quoted, r) => if |val| > MAX_LEN then Stuck(TooLong) else One(Pair("a", ValueOf(val, quoted)), r)
  {
    var s := "a=>" + t;
    assert s[0] == 'a' && s[1..] == "=>" + t && s[1..][0] == '=';
    assert InVal(s[1..], '=', "a") == Got("a", false, s[1..]);
    assert WaitVal(s, false) == Got("a", false, s[1..]);
    WaitEqReads("", t);
    assert "" + ("=>" + t) == s[1..];
    hide WaitVal, ValueOf;
  }

  /** A bare word is a null just if it spells NULL, each letter in either case; in quotes it never is. */
  lemma {:induction false} NullInEitherCase(w: string)
    requires forall k :: 0 <= k < |w| ==> Ordinary(w[k])
    ensures Parse("a=>" + w, []) == Listed([Pair("a", Null)]) <==>
      && |w| == 4 && (w[0] == 'n' || w[0] == 'N') && (w[1] == 'u' || w[1] == 'U')
      && (w[2] == 'l' || w[2] == 'L') && (w[3] == 'l' || w[3] == 'L')
    ensures |w| <= MAX_WORD ==> Parse("a=>\"" + w + "\"", []) == Listed([Pair("a", Text(w))])
  {
    BareValue(w);
    if |w| <= MAX_WORD { QuotedValue(w); }
    hide Parse, WaitVal;
    assert |w| == 4 && IsNullWord(w) <==>
      && |w| == 4 && (w[0] == 'n' || w[0] == 'N') && (w[1] == 'u' || w[1] == 'U')
      && (w[2] == 'l' || w[2] == 'L') && (w[3] == 'l' || w[3] == 'L');
  }

  lemma {:induction false} BareValue(w: string)
    requires forall k :: 0 <= k < |w| ==> Ordinary(w[k])
    ensures 0 < |w| <= MAX_WORD ==> Parse("a=>" + w, []) == Listed([Pair("a", ValueOf(w, false))])
    ensures w == "" || |w| > MAX_WORD ==> Parse("a=>" + w, []).Refused?
  {
    KeyOfOneLetter(w);
    if w != "" {
      assert Ordinary(w[0]);
      InValTakesAll(w[1..], [w[0]]);
      assert [w[0]] + w[1..] == w;
      assert WaitVal(w, true) == InVal(w[1..], ',', [w[0]]);
    }
    hide WaitVal, InVal, ValueOf, ParseOne;
    if 0 < |w| <= MAX_WORD { OnePair("a=>" + w, Pair("a", ValueOf(w, false))); }
  }

  lemma {:induction false} QuotedValue(w: string)
    requires (forall k :: 0 <= k < |w| ==> Ordinary(w[k])) && |w| <= MAX_WORD
    ensures Parse("a=>\"" + w + "\"", []) == Listed([Pair("a", Text(w))])
  {
    var t := "\"" + w + "\"";
    assert "a=>" + t == "a=>\"" + w + "\"";
    assert t[0] == '"' && t[1..] == w + "\"" && "" + w == w;
    KeyOfOneLetter(t);
    InEscValTakesAll(w, "");
    assert WaitVal(t, true) == Got(w, true, "");
    hide WaitVal, InEscVal, ParseOne;
    OnePair("a=>" + t, Pair("a", Text(w)));
  }

  /** The value 1, whatever its key: here the key is read up to the equals sign. */
  lemma {:induction false} ValueOfOneDigit(s: string, key: string)
    requires WaitVal(s, false) == Got(key, false, "=>1") && |key| <= MAX_LEN
    ensures Parse(s, []) == Listed([Pair(key, Text("1"))])
  {
    WaitEqReads("", "1");
    assert "" + ("=>" + "1") == "=>1";
    assert "1"[1..] == "";
    assert WaitVal("1", true) == Got("1", false, "");
    hide WaitVal, WaitEq;
    OnePair(s, Pair(key, Text("1")));
  }

  /** The space that may come before a word: a blank, a tab, a line, vertical tab, form feed or carriage return. */
  lemma {:induction false} SpaceIsOneOfSix(c: char)
    requires c != '\\'
    ensures Parse([c] + "a=>1", []) == Listed([Pair("a", Text("1"))]) <==>
      c == ' ' || c == '\t' || c == '\n' || c == '\r' || c as int == 11 || c as int == 12
  {
    var s := [c] + "a=>1";
    assert s[0] == c && s[1..] == "a=>1" && "a=>1"[1..] == "=>1";
    assert InVal("=>1", '=', "a") == Got("a", false, "=>1") && InVal("=>1", '=', [c, 'a']) == Got([c, 'a'], false, "=>1");
    assert WaitVal("a=>1", false) == Got("a", false, "=>1");
    if c == '"' {
      UnclosedQuote();
      assert WaitVal(s, false) == Failed(UnexpectedEnd);
    } else if IsSpace(c) {
      ValueOfOneDigit(s, "a");
    } else if c != '=' {
      assert [c] + ['a'] == [c, 'a'];
      assert InVal("a=>1", '=', [c]) == InVal("=>1", '=', [c, 'a']);
      ValueOfOneDigit(s, [c, 'a']);
    }
  }

  lemma {:induction false} UnclosedQuote()
    ensures InEscVal("a=>1", "") == Failed(UnexpectedEnd)
  {
    assert "a=>1"[1..] == "=>1" && "=>1"[1..] == ">1" && ">1"[1..] == "1" && "1"[1..] == "";
    assert InEscVal("1", "a=>") == InEscVal("", "a=>" + "1");
    assert InEscVal(">1", "a=") == InEscVal("1", "a=" + ">") && "a=" + ">" == "a=>";
    assert InEscVal("=>1", "a") == InEscVal(">1", "a" + "=") && "a" + "=" == "a=";
    assert InEscVal("a=>1", "") == InEscVal("=>1", "" + "a") && "" + "a" == "a";
  }
}
