/** contrib/hstore/hstore_io.c: hstore_in and hstore_out, and that one undoes the other. */
module HStoreIO {
  import opened Alloc
  import opened Lexicographic
  import opened HStoreLayout
  import opened HStoreBuilder
  import opened HStoreMap
  import opened HStorePairs
  import opened HStoreSearch
  import opened HStoreText
  import opened HStoreParser

  // ---------------------------------------------------------------- input

  /** out has every key of ps once, in strict order, each with one of the values that ps gives it. */
  ghost predicate Selects(out: seq<Pair>, ps: seq<Pair>) {
    && SortedKeys(out)
    && (forall p :: p in out ==> p in ps)
    && (forall p :: p in ps ==> exists q :: q in out && q.key == p.key)
  }

  lemma {:induction false} UniqueSelects(out: seq<Item>, items: seq<Item>)
    requires IsUnique(out, items)
    ensures Selects(Pairs(out), Pairs(items))
  {
    hide Pairs, SortedKeys;
    var ps, qs := Pairs(items), Pairs(out);
    forall p | p in qs ensures p in ps {
      var i :| 0 <= i < |qs| && qs[i] == p;
      assert out[i] in out;
      var j :| 0 <= j < |items| && items[j] == out[i];
      assert ps[j] == p;
    }
    forall p | p in ps ensures exists q :: q in qs && q.key == p.key {
      var i :| 0 <= i < |ps| && ps[i] == p;
      assert items[i] in items && Represented(out, items[i]);
      var x :| x in out && x.pair.key == items[i].pair.key;
      var j :| 0 <= j < |out| && out[j] == x;
      assert qs[j] == x.pair && qs[j] in qs;
    }
  }

  lemma {:induction false} SelectedValue(out: seq<Pair>, ps: seq<Pair>, k: string)
    requires SortedKeys(out) && SortedKeys(ps) && k in ToMap(out) && forall p :: p in out ==> p in ps
    ensures k in ToMap(ps) && ToMap(ps)[k] == ToMap(out)[k]
  {
    hide KeyCompare, ToMap, SortedKeys;
    KeyInMap(out, k);
    var i :| 0 <= i < |out| && out[i].key == k;
    PairInMap(out, i);
    assert out[i] in out;
    var j :| 0 <= j < |ps| && ps[j] == out[i];
    PairInMap(ps, j);
  }

  lemma {:induction false} SelectedKey(out: seq<Pair>, ps: seq<Pair>, k: string)
    requires k in ToMap(ps) && forall p :: p in ps ==> exists q :: q in out && q.key == p.key
    ensures k in ToMap(out)
  {
    hide ToMap;
    KeyInMap(ps, k);
    var j :| 0 <= j < |ps| && ps[j].key == k;
    assert ps[j] in ps;
    var q :| q in out && q.key == ps[j].key;
    KeyInMap(out, k);
    var i :| 0 <= i < |out| && out[i] == q;
    assert out[i].key == k;
  }

  /** Of pairs in strict order there is only the selection of all. */
  lemma {:induction false} SelectsAll(out: seq<Pair>, ps: seq<Pair>)
    requires Selects(out, ps) && SortedKeys(ps)
    ensures out == ps
  {
    hide KeyCompare, ToMap, SortedKeys;
    forall k | k in ToMap(out) ensures k in ToMap(ps) && ToMap(ps)[k] == ToMap(out)[k] { SelectedValue(out, ps, k); }
    forall k | k in ToMap(ps) ensures k in ToMap(out) { SelectedKey(out, ps, k); }
    hide Selects;
    assert ToMap(out) == ToMap(ps);
    SortedUnique(out, ps);
  }

  datatype Input = Store(hs: HStore) | BadText(error: HStoreText.Error) | TooLarge

  /** hstore_in: a canonical value with the pairs of the text, one for every key. */
  method In(text: string) returns (r: Input)
    requires '\0' !in text
    ensures Parse(text, []).Refused? <==> r.BadText?
    ensures r.BadText? ==> r.error == Parse(text, []).error
    ensures r.Store? ==> Canonical(r.hs) && Selects(Decode(r.hs), Parse(text, []).pairs)
    ensures r.TooLarge? ==> exists out :: Selects(out, Parse(text, []).pairs) && !Fits(out)
  {
    hide Parse, Canonical, Selects, Bytes, Pairs, IsUnique, Encode, Decode;
    var parser := new HSParser(text);
    var parsed := parser.ParseHstore();
    if parsed.Refused? { return BadText(parsed.error); }
    var items := parser.pairs;
    var a := new Item[|items|](i requires 0 <= i < |items| => items[i]);
    assert a[..|items|] == items;
    var n, buflen := UniquePairs(a, |items|);
    UniqueSelects(a[..n], items);
    ghost var out := Pairs(a[..n]);
    assert SortedKeys(out) by { SelectsSorted(out, parsed.pairs); }
    var stored := FromPairs(Pairs(a[..n]), buflen);
    if stored == AllocError { return TooLarge; }
    EncodedIsCanonical(out);
    return Store(stored.hs);
  }

  lemma {:induction false} SelectsSorted(out: seq<Pair>, ps: seq<Pair>)
    requires Selects(out, ps)
    ensures SortedKeys(out)
  {
  }

  // ---------------------------------------------------------------- output

  /** A quote or a backslash gets a backslash. */
  function Escapes(s: string): (xs: seq<Chunk>)
    ensures ChunksValue(xs) == s && QuotedOk(xs)
  {
    if s == "" then []
    else
      var x := if s[0] == '"' || s[0] == '\\' then Escaped(s[0]) else Plain(s[0]);
      var xs := [x] + Escapes(s[1..]);
      assert xs[1..] == Escapes(s[1..]);
      xs
  }

  function EscapedText(s: string): string {
    ChunksText(Escapes(s))
  }

  function ValueWord(v: Value): Word {
    if v.Null? then Bare([Plain('N'), Plain('U'), Plain('L'), Plain('L')]) else Quoted(Escapes(v.text))
  }

  function ValueOut(v: Value): string {
    if v.Null? then "NULL" else "\"" + EscapedText(v.text) + "\""
  }

  function PairOut(p: Pair): string {
    "\"" + EscapedText(p.key) + "\"" + "=>" + ValueOut(p.val)
  }

  /** The text of the first i of n pairs: a comma and a space after each but the last. */
  function Out(ps: seq<Pair>, i: nat): string
    requires i <= |ps|
  {
    if i == 0 then "" else Out(ps, i - 1) + PairOut(ps[i - 1]) + if i != |ps| then ", " else ""
  }

  /** The same text in the grammar: every pair but the first has a space before it. */
  function EntryOf(p: Pair, first: bool): Entry {
    Entry(if first then "" else " ", Quoted(Escapes(p.key)), "", "", ValueWord(p.val), "")
  }

  function DocFrom(ps: seq<Pair>, i: nat): Doc
    requires i <= |ps|
    decreases |ps| - i
  {
    if i == |ps| then Blank("")
    else if i + 1 == |ps| then Last(EntryOf(ps[i], i == 0))
    else Comma(EntryOf(ps[i], i == 0), DocFrom(ps, i + 1))
  }

  lemma {:induction false} EntryOut(p: Pair, first: bool)
    ensures EntryText(EntryOf(p, first)) == (if first then "" else " ") + PairOut(p)
  {
    var e := EntryOf(p, first);
    ValueWordText(p.val);
    hide ChunksText, Escapes, ValueWord, ValueOut;
    assert WordText(e.key) == "\"" + EscapedText(p.key) + "\"";
    hide EscapedText, WordText;
    WithoutSpaces(WordText(e.key), WordText(e.val));
  }

  lemma {:induction false} WithoutSpaces(key: string, val: string)
    ensures key + ("" + ("=>" + ("" + (val + "")))) == key + "=>" + val
  {
  }

  lemma {:induction false} ValueWordText(v: Value)
    ensures WordText(ValueWord(v)) == ValueOut(v)
  {
    if v.Null? {
      var xs := [Plain('N'), Plain('U'), Plain('L'), Plain('L')];
      assert xs[1..] == [Plain('U'), Plain('L'), Plain('L')];
      assert xs[1..][1..] == [Plain('L'), Plain('L')];
      assert xs[1..][1..][1..] == [Plain('L')];
      assert xs[1..][1..][1..][1..] == [];
      assert ChunksText(xs) == ['N'] + (['U'] + (['L'] + (['L'] + "")));
    }
  }

  /** The text of the pairs from i on. */
  function Tail(ps: seq<Pair>, i: nat): string
    requires i <= |ps|
    decreases |ps| - i
  {
    if i == |ps| then "" else PairOut(ps[i]) + (if i + 1 != |ps| then ", " else "") + Tail(ps, i + 1)
  }

  lemma {:induction false} OutAndTail(ps: seq<Pair>, i: nat)
    requires i <= |ps|
    ensures Out(ps, i) + Tail(ps, i) == Out(ps, |ps|)
    decreases |ps| - i
  {
    hide PairOut;
    if i < |ps| {
      OutAndTail(ps, i + 1);
      assert Out(ps, i + 1) == Out(ps, i) + PairOut(ps[i]) + if i + 1 != |ps| then ", " else "";
    }
  }

  lemma {:induction false} DocTail(ps: seq<Pair>, i: nat)
    requires i <= |ps|
    ensures DocText(DocFrom(ps, i)) == (if 0 < i < |ps| then " " else "") + Tail(ps, i)
    decreases |ps| - i
  {
    hide PairOut, EntryText, EntryOf;
    if i < |ps| {
      EntryOut(ps[i], i == 0);
      if i + 1 < |ps| {
        DocTail(ps, i + 1);
        assert "," + (" " + Tail(ps, i + 1)) == ", " + Tail(ps, i + 1);
      } else {
        assert PairOut(ps[i]) + "" + "" == PairOut(ps[i]);
      }
    }
  }

  /** What is written is a text of the grammar. */
  lemma {:induction false} OutIsDoc(ps: seq<Pair>)
    ensures Out(ps, |ps|) == DocText(DocFrom(ps, 0))
  {
    hide Tail, DocText, DocFrom;
    OutAndTail(ps, 0);
    DocTail(ps, 0);
    assert "" + Tail(ps, 0) == Tail(ps, 0);
  }

  ghost predicate LengthsFit(ps: seq<Pair>) {
    forall i :: 0 <= i < |ps| ==> |ps[i].key| <= MAX_WORD && |ValueText(ps[i].val)| <= MAX_WORD
  }

  lemma {:induction false} NullValue()
    ensures ChunksValue([Plain('N'), Plain('U'), Plain('L'), Plain('L')]) == "NULL" && IsNullWord("NULL")
    ensures BareOk([Plain('N'), Plain('U'), Plain('L'), Plain('L')], true)
  {
    var xs := [Plain('N'), Plain('U'), Plain('L'), Plain('L')];
    assert xs[1..] == [Plain('U'), Plain('L'), Plain('L')];
    assert xs[1..][1..] == [Plain('L'), Plain('L')];
    assert xs[1..][1..][1..] == [Plain('L')];
    assert xs[1..][1..][1..][1..] == [];
    assert ChunksValue(xs) == ['N'] + (['U'] + (['L'] + (['L'] + "")));
  }

  lemma {:induction false} EntryMeans(p: Pair, first: bool)
    requires |p.key| <= MAX_WORD && |ValueText(p.val)| <= MAX_WORD
    ensures EntryOk(EntryOf(p, first)) && EntryMeaning(EntryOf(p, first)) == p
  {
    NullValue();
    hide ChunksValue, Escapes, QuotedOk, BareOk, IsNullWord;
  }

  lemma {:induction false} DocMeans(ps: seq<Pair>, i: nat)
    requires i <= |ps| && LengthsFit(ps)
    ensures DocOk(DocFrom(ps, i)) && DocMeaning(DocFrom(ps, i)) == ps[i..]
    decreases |ps| - i
  {
    hide EntryOk, EntryMeaning, EntryOf;
    if i < |ps| {
      EntryMeans(ps[i], i == 0);
      DocMeans(ps, i + 1);
      assert ps[i..] == [ps[i]] + ps[i + 1..];
    }
  }

  /** The text written for pairs reads back as the pairs, if the parser's list holds them. */
  lemma {:induction false} OutReadsBack(ps: seq<Pair>)
    requires LengthsFit(ps)
    ensures Parse(Out(ps, |ps|), []) == if |ps| <= MAX_PAIRS then Listed(ps) else Refused(OutOfMemory)
  {
    hide Out, Parse, DocFrom, DocText, DocOk, DocMeaning, LengthsFit;
    OutIsDoc(ps);
    DocMeans(ps, 0);
    ParseAccepts(DocFrom(ps, 0), []);
    assert [] + ps[0..] == ps;
  }

  /** What needs a backslash. */
  predicate Special(c: char) {
    c == '"' || c == '\\'
  }

  /** A text without quotes and backslashes is written as it is. */
  lemma {:induction false} PlainIsWrittenAsIs(s: string)
    requires forall k :: 0 <= k < |s| ==> !Special(s[k])
    ensures EscapedText(s) == s
    decreases |s|
  {
    if s != "" {
      assert !Special(s[0]);
      EscapedCons(s);
      PlainIsWrittenAsIs(s[1..]);
      assert s == [s[0]] + s[1..];
    } else {
      NothingEscaped();
    }
  }

  /** Every quote and every backslash gets one backslash before it, and nothing else gets any. */
  lemma {:induction false} SpecialIsEscaped(a: string, c: char, b: string)
    ensures EscapedText(a + [c] + b) == EscapedText(a) + (if Special(c) then ['\\', c] else [c]) + EscapedText(b)
    decreases |a|
  {
    hide EscapedText;
    var s := a + [c] + b;
    EscapedCons(s);
    var mid := if Special(c) then ['\\', c] else [c];
    if a == "" {
      assert s[1..] == b && s[0] == c;
      NothingEscaped();
      assert "" + mid + EscapedText(b) == mid + EscapedText(b);
    } else {
      assert s[1..] == a[1..] + [c] + b && s[0] == a[0];
      EscapedCons(a);
      SpecialIsEscaped(a[1..], c, b);
      var head := if a[0] == '"' || a[0] == '\\' then ['\\', a[0]] else [a[0]];
      Regroup(head, EscapedText(a[1..]), mid, EscapedText(b));
      assert EscapedText(a) == head + EscapedText(a[1..]);
    }
  }

  /** The text of any two pairs: quoted words around an arrow, a comma and a space between, and the bare word NULL. */
  lemma {:induction false} TextOfTwo(k: string, v: string, l: string)
    ensures Out([Pair(k, Text(v)), Pair(l, Null)], 2) ==
      "\"" + EscapedText(k) + "\"=>\"" + EscapedText(v) + "\", \"" + EscapedText(l) + "\"=>NULL"
  {
    hide EscapedText, Out;
    var ps := [Pair(k, Text(v)), Pair(l, Null)];
    NothingOut(ps);
    OutStep(ps, 0);
    OutStep(ps, 1);
    var x, y, z := EscapedText(k), EscapedText(v), EscapedText(l);
    assert PairOut(ps[0]) == "\"" + x + "\"" + "=>" + ("\"" + y + "\"");
    assert PairOut(ps[1]) == "\"" + z + "\"" + "=>" + "NULL";
    hide PairOut;
    Spliced(x, y, z);
  }

  lemma {:induction false} Spliced(x: string, y: string, z: string)
    ensures "" + ("\"" + x + "\"" + "=>" + ("\"" + y + "\"")) + ", " + ("\"" + z + "\"" + "=>" + "NULL") + "" ==
      "\"" + x + "\"=>\"" + y + "\", \"" + z + "\"=>NULL"
  {
    assert "\"" + "=>" == "\"=>" && "\"" + "=>" + "\"" == "\"=>\"" && "\"" + ", " + "\"" == "\", \"";
    assert "\"" + "=>" + "NULL" == "\"=>NULL";
  }

  // ---------------------------------------------------------------- the room for the text

  function BufLen(ps: seq<Pair>): nat {
    if ps == [] then 0
    else
      var p := ps[|ps| - 1];
      BufLen(ps[..|ps| - 1]) + 6 + 2 * |p.key| + 2 + if p.val.Null? then 2 else 2 * |p.val.text|
  }

  lemma {:induction false} BufLenStep(ps: seq<Pair>, i: nat)
    requires i < |ps|
    ensures BufLen(ps[..i + 1]) == BufLen(ps[..i]) + 6 + 2 * |ps[i].key| + 2 + if ps[i].val.Null? then 2 else 2 * |ps[i].val.text|
  {
    assert ps[..i + 1][..i] == ps[..i];
  }

  lemma {:induction false} EscapedLength(s: string)
    ensures |s| <= |EscapedText(s)| <= 2 * |s|
    decreases |s|
  {
    if s != "" {
      EscapedLength(s[1..]);
      EscapedCons(s);
    }
  }

  lemma {:induction false} EscapedCons(s: string)
    requires s != ""
    ensures EscapedText(s) == (if s[0] == '"' || s[0] == '\\' then ['\\', s[0]] else [s[0]]) + EscapedText(s[1..])
  {
    assert Escapes(s)[1..] == Escapes(s[1..]);
  }

  lemma {:induction false} PairOutFits(p: Pair)
    ensures |PairOut(p)| + 2 <= 6 + 2 * |p.key| + 2 + if p.val.Null? then 2 else 2 * |p.val.text|
  {
    hide EscapedText;
    EscapedLength(p.key);
    if p.val.Text? { EscapedLength(p.val.text); }
  }

  /** What is written fits, with room for the terminator after the last pair. */
  lemma {:induction false} OutFits(ps: seq<Pair>, i: nat)
    requires i <= |ps|
    ensures |Out(ps, i)| + (if 0 < i == |ps| then 2 else 0) <= BufLen(ps[..i])
  {
    hide PairOut, Out, BufLen;
    if i == 0 {
      NothingOut(ps);
    } else {
      OutFits(ps, i - 1);
      OutStep(ps, i - 1);
      BufLenStep(ps, i - 1);
      PairOutFits(ps[i - 1]);
    }
  }

  lemma {:induction false} BufLenGrows(ps: seq<Pair>, i: nat)
    requires i <= |ps|
    ensures BufLen(ps[..i]) <= BufLen(ps)
    decreases |ps| - i
  {
    if i < |ps| {
      BufLenGrows(ps, i + 1);
      BufLenStep(ps, i);
    } else {
      assert ps[..i] == ps;
    }
  }

  lemma {:induction false} BufLenBound(ps: seq<Pair>)
    ensures BufLen(ps) <= 10 * |ps| + 2 * |Bytes(ps)|
    decreases |ps|
  {
    hide Bytes;
    if ps != [] {
      var init, p := ps[..|ps| - 1], ps[|ps| - 1];
      BufLenBound(init);
      assert ps == init + [p];
      BytesLen(init, p);
    } else {
      EmptyBytes();
    }
  }

  /** The length is computed in 32 bits, and always fits them. */
  lemma {:induction false} BufLenFits(ps: seq<Pair>)
    requires Fits(ps)
    ensures BufLen(ps) <= 0x7fff_ffff
  {
    BufLenBound(ps);
  }

  // ---------------------------------------------------------------- writing the text

  /** cpw: a copy with its escapes, from at on. */
  method Cpw(dst: array<char>, at: nat, src: string) returns (end: nat)
    requires at + |EscapedText(src)| <= dst.Length
    modifies dst
    ensures end <= dst.Length && dst[..end] == old(dst[..at]) + EscapedText(src)
  {
    hide EscapedText;
    end := at;
    var k := 0;
    assert src[0..] == src;
    while k < |src|
      invariant 0 <= k <= |src| && end + |EscapedText(src[k..])| <= dst.Length
      invariant dst[..end] + EscapedText(src[k..]) == old(dst[..at]) + EscapedText(src)
    {
      ghost var was := dst[..end];
      EscapedCons(src[k..]);
      assert src[k..][1..] == src[k + 1..] && src[k..][0] == src[k];
      if src[k] == '"' || src[k] == '\\' {
        dst[end] := '\\';
        end := end + 1;
      }
      dst[end] := src[k];
      end := end + 1;
      assert dst[..end] == was + if src[k] == '"' || src[k] == '\\' then ['\\', src[k]] else [src[k]];
      k := k + 1;
    }
    NothingEscaped();
    assert src[k..] == "";
  }

  lemma {:induction false} NothingEscaped()
    ensures EscapedText("") == ""
  {
  }

  /** Characters written one after the other. */
  method Write(dst: array<char>, at: nat, text: string) returns (end: nat)
    requires at + |text| <= dst.Length
    modifies dst
    ensures end <= dst.Length && dst[..end] == old(dst[..at]) + text
  {
    forall k | 0 <= k < |text| { dst[at + k] := text[k]; }
    end := at + |text|;
  }

  function QuotedOut(s: string): string {
    "\"" + EscapedText(s) + "\""
  }

  method WriteQuoted(dst: array<char>, at: nat, src: string) returns (end: nat)
    requires at + |QuotedOut(src)| <= dst.Length
    modifies dst
    ensures end <= dst.Length && dst[..end] == old(dst[..at]) + QuotedOut(src)
  {
    hide EscapedText;
    ghost var was := dst[..at];
    end := Write(dst, at, "\"");
    end := Cpw(dst, end, src);
    assert dst[..end] == was + ("\"" + EscapedText(src));
    end := Write(dst, end, "\"");
    assert dst[..end] == was + QuotedOut(src);
  }

  method WriteValue(dst: array<char>, at: nat, v: Value) returns (end: nat)
    requires at + |ValueOut(v)| <= dst.Length
    modifies dst
    ensures end <= dst.Length && dst[..end] == old(dst[..at]) + ValueOut(v)
  {
    hide EscapedText;
    if v.Null? {
      end := Write(dst, at, "NULL");
    } else {
      end := WriteQuoted(dst, at, v.text);
    }
  }

  method WritePair(dst: array<char>, at: nat, h: HStore, i: nat) returns (end: nat)
    requires Canonical(h) && i < Count(h) && |Decode(h)| == Count(h)
    requires at + |PairOut(Decode(h)[i])| <= dst.Length
    modifies dst
    ensures end <= dst.Length && dst[..end] == old(dst[..at]) + PairOut(Decode(h)[i])
  {
    hide Canonical, Decode, QuotedOut, KeyAt, ValAt, PairOut, ValueOut;
    CanonicalIsReadable(h);
    var key, val := KeyAt(h, i), ValAt(h, i);
    ghost var was := dst[..at];
    PairOutParts(Decode(h)[i]);
    Regroup(was, QuotedOut(key), "=>", ValueOut(val));
    end := WriteQuoted(dst, at, key);
    end := Write(dst, end, "=>");
    end := WriteValue(dst, end, val);
  }

  lemma {:induction false} Regroup(a: string, b: string, c: string, d: string)
    ensures a + b + c + d == a + (b + c + d)
  {
  }

  lemma {:induction false} PairOutParts(p: Pair)
    ensures PairOut(p) == QuotedOut(p.key) + "=>" + ValueOut(p.val)
  {
  }

  datatype Output = Printed(text: string) | NoMemory

  /** The loop that adds up the room for the text. */
  method ComputeBufLen(h: HStore) returns (buflen: int)
    requires Canonical(h)
    ensures Readable(h) && buflen == BufLen(Decode(h)) <= 0x7fff_ffff
  {
    CanonicalIsEncoded(h);
    hide Canonical, Decode, KeyAt, ValAt, BufLen, Encode, Readable;
    CanonicalIsReadable(h);
    ghost var ps := Decode(h);
    buflen := 0;
    for i := 0 to Count(h)
      invariant buflen == BufLen(ps[..i])
    {
      BufLenStep(ps, i);
      buflen := buflen + 6 + 2 * |KeyAt(h, i)|;
      buflen := buflen + 2 + if ValAt(h, i).Null? then 2 else 2 * |ValAt(h, i).text|;
    }
    assert ps[..|ps|] == ps;
    BufLenFits(ps);
  }

  /** hstore_out: the text, or an error if the room it is given passes the allocation limit. The text and its
      terminator stay within that room. */
  method ToText(h: HStore) returns (r: Output)
    requires Canonical(h)
    ensures Readable(h) && r == if BufLen(Decode(h)) <= MAX_ALLOC then Printed(Out(Decode(h), |Decode(h)|)) else NoMemory
  {
    hide Canonical, Decode, BufLen, Out, PairOut, Readable;
    CanonicalIsReadable(h);
    ghost var ps := Decode(h);
    var count := Count(h);
    NothingOut(ps);
    if count == 0 { return Printed(""); }
    var buflen := ComputeBufLen(h);
    if buflen > MAX_ALLOC { return NoMemory; }
    var out := new char[buflen];
    var ptr := 0;
    for i := 0 to count
      invariant 0 <= ptr <= out.Length && out[..ptr] == Out(ps, i)
    {
      OutStep(ps, i);
      OutFits(ps, i + 1);
      BufLenGrows(ps, i + 1);
      ptr := WritePair(out, ptr, h, i);
      if i + 1 != count { ptr := Write(out, ptr, ", "); }
    }
    OutFits(ps, count);
    assert ps[..count] == ps;
    out[ptr] := '\0';
    return Printed(out[..ptr]);
  }

  lemma {:induction false} NothingOut(ps: seq<Pair>)
    ensures Out(ps, 0) == "" && (|ps| == 0 ==> BufLen(ps) == 0)
  {
  }

  lemma {:induction false} OutStep(ps: seq<Pair>, i: nat)
    requires i < |ps|
    ensures Out(ps, i + 1) == Out(ps, i) + PairOut(ps[i]) + if i + 1 != |ps| then ", " else ""
  {
    hide PairOut;
  }

  // ---------------------------------------------------------------- there and back

  ghost predicate NulFree(ps: seq<Pair>) {
    forall i :: 0 <= i < |ps| ==> '\0' !in ps[i].key && '\0' !in ValueText(ps[i].val)
  }

  lemma {:induction false} NoNulEscaped(s: string)
    requires '\0' !in s
    ensures '\0' !in EscapedText(s)
    decreases |s|
  {
    if s != "" {
      NoNulEscaped(s[1..]);
      EscapedCons(s);
    } else {
      NothingEscaped();
    }
  }

  lemma {:induction false} NoNulPair(p: Pair)
    requires '\0' !in p.key && '\0' !in ValueText(p.val)
    ensures '\0' !in PairOut(p)
  {
    hide EscapedText;
    NoNulEscaped(p.key);
    if p.val.Text? { NoNulEscaped(p.val.text); }
  }

  lemma {:induction false} NoNulOut(ps: seq<Pair>, i: nat)
    requires NulFree(ps) && i <= |ps|
    ensures '\0' !in Out(ps, i)
  {
    hide PairOut;
    if i > 0 {
      NoNulOut(ps, i - 1);
      NoNulPair(ps[i - 1]);
    }
  }

  /** A text that can be allocated has no word too long for the parser's buffer. */
  lemma {:induction false} WordsFit(ps: seq<Pair>, i: nat)
    requires BufLen(ps) <= MAX_ALLOC && i < |ps|
    ensures |ps[i].key| <= MAX_WORD && |ValueText(ps[i].val)| <= MAX_WORD
  {
    hide BufLen;
    BufLenGrows(ps, i + 1);
    BufLenStep(ps, i);
  }

  /** Output and input again, for every canonical value without a zero byte whose text can be allocated: they
      give the very value, bytes and all, just if the parser's list holds its pairs, and else an error. */
  method RoundTrip(h: HStore) returns (r: Input)
    requires Canonical(h) && NulFree(Decode(h)) && BufLen(Decode(h)) <= MAX_ALLOC
    ensures r == if |Decode(h)| <= MAX_PAIRS then Store(h) else BadText(OutOfMemory)
  {
    CanonicalIsEncoded(h);
    hide Canonical, Decode, Encode, BufLen, Out, Parse, Selects, SortedKeys, Fits;
    CanonicalIsReadable(h);
    ghost var ps := Decode(h);
    forall i | 0 <= i < |ps| ensures |ps[i].key| <= MAX_WORD && |ValueText(ps[i].val)| <= MAX_WORD { WordsFit(ps, i); }
    OutReadsBack(ps);
    NoNulOut(ps, |ps|);
    var text := ToText(h);
    r := In(text.text);
    if r.Store? {
      CanonicalIsReadable(r.hs);
      CanonicalIsEncoded(r.hs);
      SelectsAll(Decode(r.hs), ps);
    } else if r.TooLarge? {
      ghost var out :| Selects(out, ps) && !Fits(out);
      SelectsAll(out, ps);
    }
  }

  // ---------------------------------------------------------------- a value that does not come back

  function Power(w: nat): nat {
    if w == 0 then 1 else 64 * Power(w - 1)
  }

  /** The number i as w digits to the base 64, from '!' on. */
  function Name(i: nat, w: nat): (s: string)
    ensures |s| == w && '\0' !in s
  {
    if w == 0 then "" else Name(i / 64, w - 1) + [(33 + i % 64) as char]
  }

  lemma {:induction false} LastDecides(a: string, b: string, x: char, y: char)
    requires |a| == |b| && (Lex(CharOrder, a, b) < 0 || (a == b && x < y))
    ensures Lex(CharOrder, a + [x], b + [y]) < 0
    decreases |a|
  {
    if a != "" {
      assert (a + [x])[1..] == a[1..] + [x] && (b + [y])[1..] == b[1..] + [y];
      if a[0] == b[0] { LastDecides(a[1..], b[1..], x, y); }
    } else {
      assert a + [x] == [x] && b + [y] == [y];
    }
  }

  lemma {:induction false} NamesAscend(i: nat, j: nat, w: nat)
    requires i < j < Power(w)
    ensures KeyCompare(Name(i, w), Name(j, w)) < 0
    decreases w
  {
    hide Lex;
    if i / 64 < j / 64 { NamesAscend(i / 64, j / 64, w - 1); }
    LastDecides(Name(i / 64, w - 1), Name(j / 64, w - 1), (33 + i % 64) as char, (33 + j % 64) as char);
  }

  /** n keys of five bytes with null values. */
  function ManyKeys(n: nat): seq<Pair> {
    seq(n, i requires i >= 0 => Pair(Name(i, 5), Null))
  }

  lemma {:induction false} ManyKeysBytes(n: nat)
    ensures |Bytes(ManyKeys(n))| == 5 * n
    decreases n
  {
    hide Bytes, Name;
    if n == 0 {
      EmptyBytes();
    } else {
      ManyKeysBytes(n - 1);
      BytesLen(ManyKeys(n - 1), Pair(Name(n - 1, 5), Null));
      assert ManyKeys(n) == ManyKeys(n - 1) + [Pair(Name(n - 1, 5), Null)];
    }
  }

  lemma {:induction false} ManyKeysSorted(n: nat)
    requires n <= Power(5)
    ensures SortedKeys(ManyKeys(n))
  {
    hide KeyCompare, Name, Power;
    forall i, j | 0 <= i < j < n ensures KeyCompare(ManyKeys(n)[i].key, ManyKeys(n)[j].key) < 0 { NamesAscend(i, j, 5); }
  }

  lemma {:induction false} FivePlaces()
    ensures Power(5) == 0x4000_0000
  {
    assert Power(1) == 64 && Power(2) == 4096 && Power(3) == 262144;
  }

  /** One key too many: a value that is written but not read again. */
  lemma {:induction false} TooManyKeys(n: nat)
    requires n == MAX_PAIRS + 1
    ensures var h := Encode(ManyKeys(n));
      && Canonical(h) && NulFree(Decode(h)) && BufLen(Decode(h)) <= MAX_ALLOC && |Decode(h)| > MAX_PAIRS
  {
    hide Canonical, Encode, Decode, BufLen, SortedKeys, Bytes, Power;
    var ps := ManyKeys(n);
    FivePlaces();
    ManyKeysSorted(n);
    ManyKeysBytes(n);
    EncodedIsCanonical(ps);
    BufLenBound(ps);
  }
}
