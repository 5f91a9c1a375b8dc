/** contrib/hstore/hstore.h: the stored form of an hstore, one end position for each key and each value
    over one string of bytes. Bytes are characters here, compared by their codes. */
module HStoreLayout {
  import opened Alloc
  import opened Lexicographic

  datatype Value = Null | Text(text: string)

  datatype Pair = Pair(key: string, val: Value)

  // ---------------------------------------------------------------- the order of keys

  function CharOrder(x: char, y: char): int {
    x as int - y as int
  }

  /** Shorter keys come first, keys of one length by their bytes. */
  function KeyCompare(a: string, b: string): int {
    if |a| == |b| then Lex(CharOrder, a, b) else if |a| > |b| then 1 else -1
  }

  lemma {:induction false} CharsAreOrdered()
    ensures IsOrder(CharOrder)
  {
  }

  lemma {:induction false} KeyAntisymmetric(a: string, b: string)
    ensures KeyCompare(a, b) == -KeyCompare(b, a)
  {
    CharsAreOrdered();
    LexAntisymmetric(CharOrder, a, b);
  }

  lemma {:induction false} KeyZero(a: string, b: string)
    ensures KeyCompare(a, b) == 0 <==> a == b
  {
    CharsAreOrdered();
    LexZero(CharOrder, a, b);
  }

  lemma {:induction false} KeyTransitive(a: string, b: string, c: string)
    requires KeyCompare(a, b) <= 0 && KeyCompare(b, c) <= 0
    ensures KeyCompare(a, c) <= 0
  {
    CharsAreOrdered();
    if |a| == |b| == |c| { LexTransitive(CharOrder, a, b, c); }
  }

  /** A key that comes before another: it is shorter, or as long and lower in the first byte that differs. */
  ghost predicate KeyBefore(a: string, b: string) {
    || |a| < |b|
    || (|a| == |b| && exists k: nat :: k < |a| && a[..k] == b[..k] && a[k] < b[k])
  }

  lemma {:induction false} KeyOrderAscends(a: string, b: string)
    ensures KeyCompare(a, b) < 0 <==> KeyBefore(a, b)
    ensures KeyCompare(a, b) > 0 <==> KeyBefore(b, a)
  {
    CharsAreOrdered();
    LexFirstDifference(CharOrder, a, b);
    LexFirstDifference(CharOrder, b, a);
    LexAntisymmetric(CharOrder, a, b);
    assert forall x: char, y: char :: CharOrder(x, y) < 0 <==> x < y;
  }

  /** A chain with a strict step is strict. */
  lemma {:induction false} KeyChain(a: string, b: string, c: string)
    requires KeyCompare(a, b) <= 0 && KeyCompare(b, c) <= 0 && (KeyCompare(a, b) < 0 || KeyCompare(b, c) < 0)
    ensures KeyCompare(a, c) < 0
  {
    KeyTransitive(a, b, c);
    KeyZero(a, c);
    KeyZero(b, c);
    KeyZero(a, b);
    KeyAntisymmetric(a, b);
    KeyAntisymmetric(b, c);
  }

  ghost predicate SortedKeys(ps: seq<Pair>) {
    forall i, j :: 0 <= i < j < |ps| ==> KeyCompare(ps[i].key, ps[j].key) < 0
  }

  // ---------------------------------------------------------------- entries

  const ISFIRST := 0x8000_0000
  const ISNULL := 0x4000_0000
  const NEWVERSION := 0x8000_0000
  const COUNTMASK := 0x1000_0000

  predicate IsFirst(e: nat) {
    e / ISFIRST % 2 == 1
  }

  predicate IsNull(e: nat) {
    e / ISNULL % 2 == 1
  }

  function EndPos(e: nat): nat {
    e % ISNULL
  }

  /** The position masked, with the null flag. */
  function Entry(pos: nat, isnull: bool): nat {
    pos % ISNULL + if isnull then ISNULL else 0
  }

  /** The entry with the flag of the first entry set. */
  function Marked(e: nat): nat {
    if IsFirst(e) then e else e + ISFIRST
  }

  lemma {:induction false} EntryFlags(pos: nat, isnull: bool)
    requires pos < ISNULL
    ensures var e := Entry(pos, isnull); EndPos(e) == pos && (IsNull(e) <==> isnull) && !IsFirst(e) && e < 0x1_0000_0000
    ensures var e := Marked(Entry(pos, isnull)); EndPos(e) == pos && (IsNull(e) <==> isnull) && IsFirst(e) && e < 0x1_0000_0000
  {
  }

  lemma {:induction false} EntryIsItsParts(e: nat)
    requires e < 0x1_0000_0000
    ensures !IsFirst(e) ==> e == Entry(EndPos(e), IsNull(e))
    ensures IsFirst(e) ==> e == Marked(Entry(EndPos(e), IsNull(e)))
  {
    EntryFlags(EndPos(e), IsNull(e));
  }

  /** A stored value: its length word, its size word with the version flag, the entries, the bytes. */
  datatype HStore = HStore(vsize: nat, size: nat, entries: seq<nat>, str: string)

  function Count(h: HStore): nat {
    h.size % COUNTMASK
  }

  function CalcDataSize(count: nat, len: nat): nat {
    count * 8 + 8 + len
  }

  /** Where item k starts: at the end of the item before it. */
  function Start(h: HStore, k: nat): nat
    requires k <= |h.entries|
  {
    if k == 0 then 0 else EndPos(h.entries[k - 1])
  }

  /** Entries in contiguous order within the bytes, and only the first is flagged as first. */
  ghost predicate Readable(h: HStore) {
    && |h.entries| == 2 * Count(h)
    && (forall k :: 0 <= k < |h.entries| ==> (IsFirst(h.entries[k]) <==> k == 0))
    && (forall k :: 0 <= k < |h.entries| ==> Start(h, k) <= Start(h, k + 1))
    && Start(h, |h.entries|) <= |h.str|
  }

  lemma {:induction false} StartsAscend(h: HStore, j: nat, k: nat)
    requires Readable(h) && j <= k <= |h.entries|
    ensures Start(h, j) <= Start(h, k) <= |h.str|
    decreases |h.entries| - j
  {
    hide Start;
    if j < k {
      assert Start(h, j) <= Start(h, j + 1);
      StartsAscend(h, j + 1, k);
    } else if k < |h.entries| {
      assert Start(h, k) <= Start(h, k + 1);
      StartsAscend(h, k + 1, k + 1);
    }
  }

  /** What one entry stands for. */
  datatype Piece = Piece(text: string, isnull: bool)

  function PieceAt(h: HStore, k: nat): Piece
    requires Readable(h) && k < |h.entries|
  {
    StartsAscend(h, k, k + 1);
    Piece(h.str[Start(h, k)..Start(h, k + 1)], IsNull(h.entries[k]))
  }

  function PiecesIn(h: HStore): seq<Piece>
    requires Readable(h)
  {
    seq(|h.entries|, k requires 0 <= k < |h.entries| => PieceAt(h, k))
  }

  /** Pieces 2 * i are keys and pieces 2 * i + 1 values. */
  function PairOf(xs: seq<Piece>, i: nat): Pair
    requires 2 * i + 1 < |xs|
  {
    Pair(xs[2 * i].text, if xs[2 * i + 1].isnull then Null else Text(xs[2 * i + 1].text))
  }

  function PairsOf(xs: seq<Piece>): seq<Pair> {
    seq(|xs| / 2, i requires 0 <= i < |xs| / 2 => PairOf(xs, i))
  }

  function Decode(h: HStore): seq<Pair>
    requires Readable(h)
  {
    PairsOf(PiecesIn(h))
  }

  /** No key is null, and a null value has no bytes. */
  ghost predicate NullsFit(xs: seq<Piece>) {
    forall k :: 0 <= k < |xs| && xs[k].isnull ==> k % 2 == 1 && xs[k].text == ""
  }

  /** A stored value as the new format promises it: strictly sorted keys, end positions in order up to the
      exact length, flags only where they belong, exact size. */
  ghost predicate Canonical(h: HStore) {
    && Readable(h)
    && h.size == Count(h) + NEWVERSION
    && (forall k :: 0 <= k < |h.entries| ==> h.entries[k] < 0x1_0000_0000)
    && NullsFit(PiecesIn(h))
    && |h.str| == Start(h, |h.entries|)
    && h.vsize == CalcDataSize(Count(h), |h.str|) && h.vsize <= MAX_ALLOC
    && SortedKeys(Decode(h))
  }

  lemma {:induction false} CanonicalIsReadable(h: HStore)
    requires Canonical(h)
    ensures Readable(h) && SortedKeys(Decode(h)) && |Decode(h)| == Count(h)
  {
    hide SortedKeys;
  }

  // ---------------------------------------------------------------- encoding pieces

  function Join(xs: seq<Piece>): string {
    if xs == [] then "" else Join(xs[..|xs| - 1]) + xs[|xs| - 1].text
  }

  lemma {:induction false} JoinSnoc(xs: seq<Piece>, x: Piece)
    ensures Join(xs + [x]) == Join(xs) + x.text
  {
    assert (xs + [x])[..|xs|] == xs;
  }

  lemma {:induction false} JoinStep(xs: seq<Piece>, k: nat)
    requires k < |xs|
    ensures Join(xs[..k + 1]) == Join(xs[..k]) + xs[k].text
  {
    assert xs[..k + 1] == xs[..k] + [xs[k]];
    JoinSnoc(xs[..k], xs[k]);
  }

  lemma {:induction false} JoinPrefix(xs: seq<Piece>, k: nat)
    requires k <= |xs|
    ensures Join(xs[..k]) <= Join(xs)
  {
    if k < |xs| {
      JoinPrefix(xs[..|xs| - 1], k);
      assert xs[..|xs| - 1][..k] == xs[..k];
    } else {
      assert xs[..k] == xs;
    }
  }

  function RawEntryAt(xs: seq<Piece>, k: nat): nat
    requires k < |xs|
  {
    Entry(|Join(xs[..k + 1])|, xs[k].isnull)
  }

  /** The entries before the first is flagged. */
  function RawEntries(xs: seq<Piece>): seq<nat> {
    seq(|xs|, k requires 0 <= k < |xs| => RawEntryAt(xs, k))
  }

  function Flagged(raw: seq<nat>): seq<nat> {
    if raw == [] then [] else raw[0 := Marked(raw[0])]
  }

  function EncodePieces(xs: seq<Piece>): HStore {
    HStore(CalcDataSize(|xs| / 2, |Join(xs)|), |xs| / 2 + NEWVERSION, Flagged(RawEntries(xs)), Join(xs))
  }

  ghost predicate Fit(xs: seq<Piece>) {
    |xs| % 2 == 0 && CalcDataSize(|xs| / 2, |Join(xs)|) <= MAX_ALLOC
  }

  lemma {:induction false} RawSnoc(xs: seq<Piece>, x: Piece)
    ensures RawEntries(xs + [x]) == RawEntries(xs) + [Entry(|Join(xs)| + |x.text|, x.isnull)]
  {
    JoinSnoc(xs, x);
    hide Join, Entry;
    forall k | 0 <= k < |xs| ensures RawEntryAt(xs + [x], k) == RawEntryAt(xs, k) {
      assert (xs + [x])[..k + 1] == xs[..k + 1];
    }
    assert (xs + [x])[..|xs| + 1] == xs + [x];
  }

  lemma {:induction false} EncodedEntry(xs: seq<Piece>, k: nat)
    requires Fit(xs) && k < |xs|
    ensures var e := EncodePieces(xs).entries[k];
      EndPos(e) == |Join(xs[..k + 1])| && (IsNull(e) <==> xs[k].isnull) && (IsFirst(e) <==> k == 0) && e < 0x1_0000_0000
  {
    JoinPrefix(xs, k + 1);
    EntryFlags(|Join(xs[..k + 1])|, xs[k].isnull);
    hide Entry, EndPos, IsNull, IsFirst, Marked, Join;
  }

  lemma {:induction false} EncodedStart(xs: seq<Piece>, k: nat)
    requires Fit(xs) && k <= |xs|
    ensures Start(EncodePieces(xs), k) == |Join(xs[..k])|
  {
    if k > 0 { EncodedEntry(xs, k - 1); }
    hide EndPos;
  }

  lemma {:induction false} EncodedCount(xs: seq<Piece>)
    requires Fit(xs)
    ensures Count(EncodePieces(xs)) == |xs| / 2 && |EncodePieces(xs).entries| == 2 * Count(EncodePieces(xs)) == |xs|
  {
    hide Join, RawEntryAt;
  }

  lemma {:induction false} EncodedIsReadable(xs: seq<Piece>)
    requires Fit(xs)
    ensures Readable(EncodePieces(xs)) && Start(EncodePieces(xs), |xs|) == |Join(xs)| && Count(EncodePieces(xs)) == |xs| / 2
  {
    var h := EncodePieces(xs);
    EncodedCount(xs);
    assert h.str == Join(xs);
    hide IsFirst, EndPos, Join, Start, EncodePieces, Count;
    forall k | 0 <= k < |h.entries|
      ensures (IsFirst(h.entries[k]) <==> k == 0) && Start(h, k) <= Start(h, k + 1)
    {
      EncodedEntry(xs, k);
      EncodedStart(xs, k);
      EncodedStart(xs, k + 1);
      JoinStep(xs, k);
    }
    EncodedStart(xs, |xs|);
    assert xs[..|xs|] == xs;
  }

  lemma {:induction false} EncodedPiece(xs: seq<Piece>, k: nat)
    requires Fit(xs) && k < |xs| && Readable(EncodePieces(xs))
    ensures PieceAt(EncodePieces(xs), k) == xs[k]
  {
    EncodedEntry(xs, k);
    EncodedStart(xs, k);
    EncodedStart(xs, k + 1);
    JoinStep(xs, k);
    JoinPrefix(xs, k + 1);
    hide Join, EndPos, Readable, Start, IsNull, RawEntries, Flagged;
    var a, b := Join(xs[..k]), Join(xs[..k + 1]);
    assert Join(xs)[|a|..|b|] == Join(xs)[..|b|][|a|..];
  }

  /** Pieces come back from their encoding. */
  lemma {:induction false} PiecesRoundTrip(xs: seq<Piece>)
    requires Fit(xs)
    ensures Readable(EncodePieces(xs)) && PiecesIn(EncodePieces(xs)) == xs
  {
    EncodedIsReadable(xs);
    hide Readable, PieceAt, Join;
    forall k | 0 <= k < |xs| ensures PieceAt(EncodePieces(xs), k) == xs[k] { EncodedPiece(xs, k); }
  }

  lemma {:induction false} JoinedIn(h: HStore, k: nat)
    requires Readable(h) && k <= |h.entries|
    ensures Start(h, k) <= |h.str| && Join(PiecesIn(h)[..k]) == h.str[..Start(h, k)]
  {
    StartsAscend(h, k, k);
    if k > 0 {
      JoinedIn(h, k - 1);
      StartsAscend(h, k - 1, k);
      JoinStep(PiecesIn(h), k - 1);
      hide Readable, Join, Start, IsNull;
      assert PiecesIn(h)[k - 1] == PieceAt(h, k - 1);
    }
  }

  lemma {:induction false} StoredEntry(h: HStore, k: nat)
    requires Readable(h) && k < |h.entries| && h.entries[k] < 0x1_0000_0000
    ensures var raw := RawEntryAt(PiecesIn(h), k); h.entries[k] == if k == 0 then Marked(raw) else raw
  {
    JoinedIn(h, k + 1);
    EntryIsItsParts(h.entries[k]);
    assert IsFirst(h.entries[k]) <==> k == 0;
    hide Readable, Join, EndPos, IsNull, IsFirst, Entry, Marked;
    assert PiecesIn(h)[k] == PieceAt(h, k);
  }

  /** A canonical value is the encoding of its pieces. */
  lemma {:induction false} CanonicalPieces(h: HStore)
    requires Canonical(h)
    ensures h == EncodePieces(PiecesIn(h)) && Fit(PiecesIn(h))
  {
    var xs := PiecesIn(h);
    JoinedIn(h, |h.entries|);
    assert xs[..|xs|] == xs;
    assert h.size == |xs| / 2 + NEWVERSION;
    hide SortedKeys, NullsFit, Join, Start, PieceAt, Marked, EndPos, Entry, Readable, RawEntryAt, Count, Decode;
    forall k | 0 <= k < |h.entries| ensures h.entries[k] == Flagged(RawEntries(xs))[k] { StoredEntry(h, k); }
  }

  // ---------------------------------------------------------------- encoding pairs

  function ValueText(v: Value): string {
    if v.Null? then "" else v.text
  }

  function PiecesOf(ps: seq<Pair>): (xs: seq<Piece>)
    ensures |xs| == 2 * |ps|
  {
    if ps == [] then []
    else
      var last := ps[|ps| - 1];
      PiecesOf(ps[..|ps| - 1]) + [Piece(last.key, false), Piece(ValueText(last.val), last.val.Null?)]
  }

  function Bytes(ps: seq<Pair>): string {
    Join(PiecesOf(ps))
  }

  function Encode(ps: seq<Pair>): HStore {
    EncodePieces(PiecesOf(ps))
  }

  predicate Fits(ps: seq<Pair>) {
    CalcDataSize(|ps|, |Bytes(ps)|) <= MAX_ALLOC
  }

  lemma {:induction false} PiecesSnoc(ps: seq<Pair>, p: Pair)
    ensures PiecesOf(ps + [p]) == PiecesOf(ps) + [Piece(p.key, false)] + [Piece(ValueText(p.val), p.val.Null?)]
    ensures Bytes(ps + [p]) == Bytes(ps) + p.key + ValueText(p.val)
  {
    assert (ps + [p])[..|ps|] == ps;
    JoinSnoc(PiecesOf(ps), Piece(p.key, false));
    JoinSnoc(PiecesOf(ps) + [Piece(p.key, false)], Piece(ValueText(p.val), p.val.Null?));
  }

  lemma {:induction false} PiecesAt(ps: seq<Pair>, i: nat)
    requires i < |ps|
    ensures PiecesOf(ps)[2 * i] == Piece(ps[i].key, false)
    ensures PiecesOf(ps)[2 * i + 1] == Piece(ValueText(ps[i].val), ps[i].val.Null?)
  {
    if i < |ps| - 1 { PiecesAt(ps[..|ps| - 1], i); }
  }

  lemma {:induction false} PairsRoundTrip(ps: seq<Pair>)
    ensures PairsOf(PiecesOf(ps)) == ps && NullsFit(PiecesOf(ps))
  {
    var xs := PiecesOf(ps);
    hide PiecesOf;
    forall i | 0 <= i < |ps| ensures PairOf(xs, i) == ps[i] { PiecesAt(ps, i); }
    forall k | 0 <= k < |xs| && xs[k].isnull ensures k % 2 == 1 && xs[k].text == "" {
      PiecesAt(ps, k / 2);
      assert k == 2 * (k / 2) || k == 2 * (k / 2) + 1;
    }
  }

  lemma {:induction false} PiecesBack(xs: seq<Piece>)
    requires |xs| % 2 == 0 && NullsFit(xs)
    ensures PiecesOf(PairsOf(xs)) == xs
  {
    var ps := PairsOf(xs);
    hide PiecesOf;
    forall k | 0 <= k < |xs| ensures PiecesOf(ps)[k] == xs[k] {
      PiecesAt(ps, k / 2);
      assert ps[k / 2] == PairOf(xs, k / 2);
      assert k == 2 * (k / 2) || k == 2 * (k / 2) + 1;
    }
  }

  /** Encoding strictly sorted pairs gives a canonical value, and decoding gives the pairs back. */
  lemma {:induction false} EncodedIsCanonical(ps: seq<Pair>)
    requires Fits(ps) && SortedKeys(ps)
    ensures Canonical(Encode(ps)) && Decode(Encode(ps)) == ps
  {
    hide Readable, PiecesIn, PairsOf, SortedKeys, NullsFit, Join, PiecesOf, Start, Flagged, RawEntries, Count;
    var xs, h := PiecesOf(ps), Encode(ps);
    PairsRoundTrip(ps);
    PiecesRoundTrip(xs);
    EncodedIsReadable(xs);
    EncodedCount(xs);
    forall k | 0 <= k < |h.entries| ensures h.entries[k] < 0x1_0000_0000 { EncodedEntry(xs, k); }
  }

  /** A canonical value is the encoding of its pairs. */
  lemma {:induction false} CanonicalIsEncoded(h: HStore)
    requires Canonical(h)
    ensures Fits(Decode(h)) && SortedKeys(Decode(h)) && h == Encode(Decode(h)) && |Decode(h)| == Count(h)
  {
    CanonicalPieces(h);
    PiecesBack(PiecesIn(h));
    hide SortedKeys, NullsFit, Join, PiecesOf, Start, Flagged, RawEntries, PieceAt;
  }

  /** The words before the entries: the version flag with the count, and the length of all of it in bytes. */
  lemma {:induction false} StoredWords(h: HStore)
    requires Canonical(h)
    ensures h.size == 0x8000_0000 + |Decode(h)| && |Decode(h)| < 0x1000_0000
    ensures h.vsize == 8 + 8 * |Decode(h)| + |h.str| && h.str == Bytes(Decode(h))
  {
    CanonicalIsEncoded(h);
    hide SortedKeys, PiecesIn, PiecesOf, NullsFit, Start, Decode, Fits, Readable;
  }
}
