/** contrib/hstore/hstore_compat.c: values in the format of older releases, rewritten in place. */
module HStoreUpgrade {
  import opened Alloc
  import opened HStoreLayout
  import opened HStoreBuilder
  import opened HStorePairs

  /** A value as it lies in storage: two words for each pair it counts, then bytes up to its length. */
  ghost predicate InStorage(h: HStore) {
    && h.size < 0x1_0000_0000 && h.size % NEWVERSION < COUNTMASK
    && |h.entries| == 2 * Count(h)
    && (forall k :: 0 <= k < |h.entries| ==> h.entries[k] < 0x1_0000_0000)
    && h.vsize == CalcDataSize(Count(h), |h.str|) && h.vsize <= MAX_ALLOC
  }

  predicate NewVersion(h: HStore) {
    h.size / NEWVERSION % 2 == 1
  }

  // ---------------------------------------------------------------- the old format

  // An old entry in two words: the lengths of key and value, then the null flag and the position.

  function OldKeyLen(w: nat): nat {
    w % 0x1_0000
  }

  function OldValLen(w: nat): nat {
    w / 0x1_0000 % 0x1_0000
  }

  predicate OldNull(w: nat) {
    w % 2 == 1
  }

  function OldPos(w: nat): nat {
    w / 2 % 0x8000_0000
  }

  /** The bytes of the value of pair i: none for a null, whatever its length field holds. */
  function OldBytesOfVal(h: HStore, i: nat): nat
    requires 2 * i + 1 < |h.entries|
  {
    if OldNull(h.entries[2 * i + 1]) then 0 else OldValLen(h.entries[2 * i])
  }

  /** Where pair i starts if all before it are contiguous. */
  function OldStart(h: HStore, i: nat): nat
    requires 2 * i <= |h.entries|
  {
    if i == 0 then 0 else OldStart(h, i - 1) + OldKeyLen(h.entries[2 * i - 2]) + OldBytesOfVal(h, i - 1)
  }

  lemma {:induction false} OldStartsAscend(h: HStore, i: nat, j: nat)
    requires i <= j && 2 * j <= |h.entries|
    ensures OldStart(h, i) <= OldStart(h, j)
  {
    if i < j { OldStartsAscend(h, i, j - 1); }
  }

  ghost predicate KeyLensAscend(h: HStore, n: nat)
    requires 2 * n <= |h.entries|
  {
    forall i :: 1 <= i < n ==> OldKeyLen(h.entries[2 * i - 2]) <= OldKeyLen(h.entries[2 * i])
  }

  ghost predicate Contiguous(h: HStore, n: nat)
    requires 2 * n <= |h.entries|
  {
    forall i :: 0 <= i < n ==> OldPos(h.entries[2 * i + 1]) == OldStart(h, i)
  }

  /** A value of the old format: contiguous pairs within its length, their keys by length. */
  ghost predicate IsOld(h: HStore) {
    && h.size < COUNTMASK && |h.entries| == 2 * h.size
    && KeyLensAscend(h, h.size) && Contiguous(h, h.size)
    && OldStart(h, h.size) <= |h.str|
  }

  function OldPair(h: HStore, i: nat): Pair
    requires 2 * i + 1 < |h.entries| && OldStart(h, i + 1) <= |h.str|
  {
    var at := OldStart(h, i);
    var klen := OldKeyLen(h.entries[2 * i]);
    Pair(h.str[at..at + klen],
         if OldNull(h.entries[2 * i + 1]) then Null else Text(h.str[at + klen..at + klen + OldValLen(h.entries[2 * i])]))
  }

  /** What an old value means. */
  function OldPairs(h: HStore, n: nat): (ps: seq<Pair>)
    requires 2 * n <= |h.entries| && OldStart(h, n) <= |h.str|
    ensures |ps| == n
  {
    if n == 0 then [] else OldPairs(h, n - 1) + [OldPair(h, n - 1)]
  }

  lemma {:induction false} OldPairLen(h: HStore, i: nat)
    requires 2 * i + 1 < |h.entries| && OldStart(h, i + 1) <= |h.str|
    ensures OldStart(h, i + 1) == OldStart(h, i) + PairLen(OldPair(h, i))
    ensures |OldPair(h, i).key| == OldKeyLen(h.entries[2 * i]) && OldPair(h, i).val.Null? == OldNull(h.entries[2 * i + 1])
    ensures h.str[..OldStart(h, i + 1)] == h.str[..OldStart(h, i)] + OldPair(h, i).key + ValueText(OldPair(h, i).val)
  {
    hide OldNull, OldKeyLen, OldValLen;
  }

  lemma {:induction false} OldBytes(h: HStore, n: nat)
    requires 2 * n <= |h.entries| && OldStart(h, n) <= |h.str|
    ensures Bytes(OldPairs(h, n)) == h.str[..OldStart(h, n)]
  {
    hide Bytes, OldNull, OldKeyLen, OldValLen, OldPair, PiecesOf;
    if n == 0 {
      EmptyBytes();
    } else {
      assert OldPairs(h, n) == OldPairs(h, n - 1) + [OldPair(h, n - 1)];
      hide OldStart, OldPairs;
      OldStartsAscend(h, n - 1, n);
      OldBytes(h, n - 1);
      OldPairLen(h, n - 1);
      PiecesSnoc(OldPairs(h, n - 1), OldPair(h, n - 1));
    }
  }

  // ---------------------------------------------------------------- validity tests

  /** hstoreValidOldFormat: 0 not valid, 1 valid with space left over, 2 exactly valid. */
  method ValidOldFormat(h: HStore) returns (v: int)
    requires InStorage(h)
    ensures v == if !IsOld(h) then 0 else if h.size == 0 || h.vsize == CalcDataSize(h.size, OldStart(h, h.size)) then 2 else 1
  {
    hide OldNull, OldKeyLen, OldValLen, OldPos;
    var count := h.size;
    if NewVersion(h) { return 0; }
    if count == 0 { return 2; }
    if count > 0xFFF_FFFF { return 0; }
    if CalcDataSize(count, 0) > h.vsize { return 0; }
    if OldPos(h.entries[1]) != 0 {
      assert OldStart(h, 0) == 0 && OldPos(h.entries[2 * 0 + 1]) != OldStart(h, 0);
      return 0;
    }
    for i := 1 to count
      invariant KeyLensAscend(h, i)
    {
      if OldKeyLen(h.entries[2 * i]) < OldKeyLen(h.entries[2 * i - 2]) { return 0; }
    }
    var lastpos := 0;
    for i := 0 to count
      invariant Contiguous(h, i) && lastpos == OldStart(h, i)
    {
      if OldPos(h.entries[2 * i + 1]) != lastpos { return 0; }
      lastpos := lastpos + OldKeyLen(h.entries[2 * i])
        + if OldNull(h.entries[2 * i + 1]) then 0 else OldValLen(h.entries[2 * i]);
    }
    var vsize := CalcDataSize(count, lastpos);
    if vsize > h.vsize { return 0; }
    if vsize != h.vsize { return 1; }
    return 2;
  }

  ghost predicate PositionsAscend(h: HStore, n: nat)
    requires n <= |h.entries|
  {
    forall k :: 1 <= k < n ==> !IsFirst(h.entries[k]) && EndPos(h.entries[k - 1]) <= EndPos(h.entries[k])
  }

  ghost predicate NewKeysAscend(h: HStore, n: nat)
    requires 2 * n <= |h.entries| && (n > 0 ==> IsFirst(h.entries[0]))
  {
    forall i :: 1 <= i < n ==> Len(h, 2 * i - 2) <= Len(h, 2 * i) && !IsNull(h.entries[2 * i])
  }

  /** The checks that the new format must pass. */
  ghost predicate NewChecks(h: HStore)
    requires |h.entries| == 2 * Count(h)
  {
    Count(h) > 0 ==>
      && IsFirst(h.entries[0]) && Start(h, |h.entries|) <= |h.str|
      && PositionsAscend(h, |h.entries|) && NewKeysAscend(h, Count(h))
  }

  /** hstoreValidNewFormat: 0 not valid, 1 valid with space left over, 2 exactly valid. */
  method ValidNewFormat(h: HStore) returns (v: int)
    requires InStorage(h)
    ensures v == if NewVersion(h) then 2 else if !NewChecks(h) then 0 else if Count(h) == 0 || |h.str| == Start(h, |h.entries|) then 2 else 1
  {
    hide IsFirst, IsNull, EndPos;
    var count := Count(h);
    if NewVersion(h) { return 2; }
    if count == 0 { return 2; }
    var vsize := CalcDataSize(count, EndPos(h.entries[2 * count - 1]));
    if !IsFirst(h.entries[0]) { return 0; }
    if vsize > h.vsize { return 0; }
    for i := 1 to 2 * count
      invariant PositionsAscend(h, i)
    {
      if IsFirst(h.entries[i]) || EndPos(h.entries[i]) < EndPos(h.entries[i - 1]) { return 0; }
    }
    for i := 1 to count
      invariant NewKeysAscend(h, i)
    {
      if Len(h, 2 * i) < Len(h, 2 * (i - 1)) { return 0; }
      if IsNull(h.entries[2 * i]) { return 0; }
    }
    if vsize != h.vsize { return 1; }
    return 2;
  }

  // ---------------------------------------------------------------- the rewrite

  /** A value, or the error for one that is valid in neither format. */
  datatype Upgraded = Value(hs: HStore) | InvalidError

  lemma {:induction false} OldFits(h: HStore, i: nat)
    requires IsOld(h) && i < h.size
    ensures OldStart(h, i) <= OldStart(h, i + 1) <= |h.str| && OldPos(h.entries[2 * i + 1]) == OldStart(h, i)
  {
    hide OldPos, OldStart, KeyLensAscend;
    OldStartsAscend(h, i, i + 1);
    OldStartsAscend(h, i + 1, h.size);
  }

  /** The new entries of one more pair. */
  lemma {:induction false} OldEntries(h: HStore, i: nat)
    requires 2 * i + 1 < |h.entries| && OldStart(h, i) <= OldStart(h, i + 1) <= |h.str|
    ensures RawEntries(PiecesOf(OldPairs(h, i + 1))) == RawEntries(PiecesOf(OldPairs(h, i)))
      + [Entry(OldStart(h, i) + OldKeyLen(h.entries[2 * i]), false)]
      + [Entry(OldStart(h, i) + OldKeyLen(h.entries[2 * i]) + OldBytesOfVal(h, i), OldNull(h.entries[2 * i + 1]))]
  {
    hide Bytes, OldNull, OldKeyLen, OldValLen, RawEntries, PiecesOf, Entry, OldPair, OldBytesOfVal;
    assert OldStart(h, i + 1) == OldStart(h, i) + OldKeyLen(h.entries[2 * i]) + OldBytesOfVal(h, i);
    assert OldPairs(h, i + 1) == OldPairs(h, i) + [OldPair(h, i)];
    hide OldStart, OldPairs;
    OldBytes(h, i);
    OldBytes(h, i + 1);
    OldPairLen(h, i);
    EntriesSnoc(OldPairs(h, i), OldPair(h, i));
  }

  lemma {:induction false} NoEntries(h: HStore)
    ensures RawEntries(PiecesOf(OldPairs(h, 0))) == []
  {
  }

  method RewriteEntry(words: array<nat>, i: nat)
    requires 2 * i + 1 < words.Length
    modifies words
    ensures var w, x := old(words[2 * i]), old(words[2 * i + 1]);
      words[..2 * (i + 1)] == old(words[..2 * i]) + [Entry(OldPos(x) + OldKeyLen(w), false)]
        + [Entry(OldPos(x) + OldKeyLen(w) + (if OldNull(x) then 0 else OldValLen(w)), OldNull(x))]
    ensures forall k :: 2 * i + 1 < k < words.Length ==> words[k] == old(words[k])
  {
    hide OldNull, OldKeyLen, OldValLen, OldPos, Entry;
    var pos, keylen, vallen := OldPos(words[2 * i + 1]), OldKeyLen(words[2 * i]), OldValLen(words[2 * i]);
    var isnull := OldNull(words[2 * i + 1]);
    if isnull { vallen := 0; }
    words[2 * i] := Entry(pos + keylen, false);
    words[2 * i + 1] := Entry(pos + keylen + vallen, isnull);
  }

  /** The entries rewritten in place: each pair of words is read in the old format before it is overwritten
      in the new. */
  method Rewrite(h: HStore) returns (out: HStore)
    requires InStorage(h) && IsOld(h)
    ensures out == Encode(OldPairs(h, h.size))
  {
    hide Bytes, OldNull, OldKeyLen, OldValLen, OldPos, RawEntries, PiecesOf, Entry, OldPair, EndPos, Marked;
    hide OldPairs, Contiguous, KeyLensAscend;
    var count := h.size;
    var words := new nat[2 * count];
    forall k | 0 <= k < 2 * count { words[k] := h.entries[k]; }
    NoEntries(h);
    assert words[..0] == [];
    for i := 0 to count
      invariant OldStart(h, i) <= |h.str| && words[..2 * i] == RawEntries(PiecesOf(OldPairs(h, i)))
      invariant forall k :: 2 * i <= k < 2 * count ==> words[k] == h.entries[k]
    {
      OldFits(h, i);
      OldEntries(h, i);
      RewriteEntry(words, i);
    }
    ghost var raw := words[..2 * count];
    if count > 0 { words[0] := Marked(words[0]); }
    assert words[..] == Flagged(raw);
    out := HStore(h.vsize, count + NEWVERSION, words[..], h.str);
    RewrittenSize(h, out);
    out := FixSize(out);
  }

  lemma {:induction false} RewrittenSize(h: HStore, out: HStore)
    requires InStorage(h) && IsOld(h)
    requires out == HStore(h.vsize, h.size + NEWVERSION, Flagged(RawEntries(PiecesOf(OldPairs(h, h.size)))), h.str)
    ensures |out.entries| == 2 * Count(out) && Start(out, |out.entries|) <= |out.str|
    ensures FixSize(out) == Encode(OldPairs(h, h.size))
  {
    hide Bytes, RawEntries, PiecesOf, Marked, OldPairs, EndPos, Join, OldStart, Flagged, Entry;
    var ps := OldPairs(h, h.size);
    var xs := PiecesOf(ps);
    OldFitsWhole(h);
    CountOfNew(h.size);
    hide IsOld, InStorage;
    EncodedCount(xs);
    EncodedIsReadable(xs);
    var e := EncodePieces(xs);
    assert out.entries == e.entries && Start(out, |xs|) == Start(e, |xs|) == |Join(xs)|;
    assert FixSize(out).str == out.str[..|Join(xs)|];
  }

  lemma {:induction false} CountOfNew(n: nat)
    requires n < COUNTMASK
    ensures (n + NEWVERSION) % COUNTMASK == n && n % COUNTMASK == n
  {
  }

  lemma {:induction false} OldFitsWhole(h: HStore)
    requires InStorage(h) && IsOld(h)
    ensures Fits(OldPairs(h, h.size)) && Fit(PiecesOf(OldPairs(h, h.size)))
    ensures Join(PiecesOf(OldPairs(h, h.size))) == h.str[..OldStart(h, h.size)]
  {
    hide PiecesOf, OldPairs, OldStart, Join, Contiguous, KeyLensAscend;
    CountOfNew(h.size);
    OldBytes(h, h.size);
  }

  // ---------------------------------------------------------------- upgrading

  /** The test that returns a value as it is, without looking further. */
  predicate PassedOn(h: HStore)
    requires |h.entries| == 2 * Count(h)
  {
    NewVersion(h) || h.size == 0 || (h.vsize < 32768 && |h.entries| > 0 && IsFirst(h.entries[0]))
  }

  /** hstoreUpgrade, of a value that may be written in place or not. */
  method Upgrade(h: HStore, writable: bool) returns (r: Upgraded)
    requires InStorage(h)
    ensures PassedOn(h) ==> r == Value(h)
    ensures !PassedOn(h) && IsOld(h) ==> r == Value(Encode(OldPairs(h, h.size)))
    ensures !PassedOn(h) && !IsOld(h) && !NewChecks(h) ==> r == InvalidError
    ensures !PassedOn(h) && !IsOld(h) && NewChecks(h) ==>
              Start(h, |h.entries|) <= |h.str| && r == Value(if writable then FixSize(h) else h)
  {
    hide IsOld, NewChecks, IsFirst, Encode, OldPairs;
    if PassedOn(h) { return Value(h); }
    var validNew := ValidNewFormat(h);
    var validOld := ValidOldFormat(h);
    if validOld == 0 || h.size == 0 {
      if validNew > 0 {
        ChecksFit(h);
        if writable { return Value(FixSize(h)); }
        return Value(h);
      } else {
        return InvalidError;
      }
    }
    var out := Rewrite(h);
    return Value(out);
  }

  lemma {:induction false} ChecksFit(h: HStore)
    requires |h.entries| == 2 * Count(h) && NewChecks(h)
    ensures Start(h, |h.entries|) <= |h.str|
  {
  }

  /** The only old values passed on unread: a short one whose first value is null with 32768 or more in its
      unused length field. */
  lemma {:induction false} PassedOnOld(h: HStore)
    requires InStorage(h) && IsOld(h) && h.size > 0
    ensures PassedOn(h) <==> h.vsize < 32768 && OldValLen(h.entries[0]) >= 32768
    ensures PassedOn(h) ==> OldNull(h.entries[1]) && !IsNull(h.entries[1])
  {
    CountOfNew(h.size);
    FirstFlagIsLength(h.entries[0]);
    assert !NewVersion(h);
    hide IsFirst, IsNull, NewVersion, KeyLensAscend, OldValLen, OldKeyLen;
    if PassedOn(h) {
      OldStartsAscend(h, 1, h.size);
      assert OldStart(h, 0) == 0 && OldPos(h.entries[2 * 0 + 1]) == OldStart(h, 0);
      assert OldStart(h, 1) == OldStart(h, 0) + OldKeyLen(h.entries[0]) + OldBytesOfVal(h, 0);
      NullWordReadsAsText(h.entries[1]);
    }
  }

  lemma {:induction false} FirstFlagIsLength(w: nat)
    requires w < 0x1_0000_0000
    ensures IsFirst(w) <==> OldValLen(w) >= 32768
  {
  }

  lemma {:induction false} NullWordReadsAsText(w: nat)
    requires w < 0x1_0000_0000 && OldPos(w) == 0
    ensures w < 2 && !IsNull(w)
  {
  }

  /** The value returned for an old one has the same pairs, except in the case above. */
  lemma {:induction false} UpgradeKeepsPairs(h: HStore, r: Upgraded)
    requires InStorage(h) && IsOld(h)
    requires PassedOn(h) ==> r == Value(h)
    requires !PassedOn(h) ==> r == Value(Encode(OldPairs(h, h.size)))
    ensures Readable(r.hs) && Decode(r.hs) == OldPairs(h, h.size) <==>
            !(h.vsize < 32768 && h.size > 0 && OldValLen(h.entries[0]) >= 32768)
  {
    var ps := OldPairs(h, h.size);
    if !PassedOn(h) {
      OldFitsWhole(h);
      PiecesRoundTrip(PiecesOf(ps));
      PairsRoundTrip(ps);
      if h.size > 0 { PassedOnOld(h); }
    } else if h.size == 0 {
      CountOfNew(0);
      assert Decode(h) == [];
    } else {
      PassedOnOld(h);
      FirstOldPair(h, h.size);
      if Readable(h) {
        CountOfNew(h.size);
        assert Decode(h)[0] == PairOf(PiecesIn(h), 0);
        assert PiecesIn(h)[1] == PieceAt(h, 1);
      }
    }
  }

  const MISREAD := HStore(17, 1, [0x8000_0001, 1], "a")

  /** One such value: a key with a null value, read as the same key with an empty text. */
  lemma {:induction false} MisreadExample()
    ensures InStorage(MISREAD) && IsOld(MISREAD) && OldPairs(MISREAD, 1) == [Pair("a", Null)]
    ensures PassedOn(MISREAD) && Readable(MISREAD) && Decode(MISREAD) == [Pair("a", Text(""))]
  {
    var h := MISREAD;
    assert Count(h) == 1;
    assert OldStart(h, 0) == 0 && OldStart(h, 1) == 1;
    assert OldPos(h.entries[2 * 0 + 1]) == 0;
    assert OldPair(h, 0) == Pair(h.str[0..1], Null);
    assert OldPairs(h, 1) == OldPairs(h, 0) + [OldPair(h, 0)];
    assert h.str[0..1] == "a" && h.str[1..1] == "";
    assert Start(h, 0) == 0 && Start(h, 1) == 1 && Start(h, 2) == 1;
    assert PieceAt(h, 0) == Piece("a", false) && PieceAt(h, 1) == Piece("", false);
    assert PiecesIn(h) == [PieceAt(h, 0), PieceAt(h, 1)];
    assert Decode(h) == [PairOf(PiecesIn(h), 0)];
  }

  lemma {:induction false} FirstOldPair(h: HStore, n: nat)
    requires 0 < n && 2 * n <= |h.entries| && OldStart(h, n) <= |h.str|
    ensures OldPairs(h, n)[0].val.Null? <==> OldNull(h.entries[1])
  {
    hide OldNull, OldKeyLen, OldValLen;
    OldPairAt(h, n, 0);
  }

  lemma {:induction false} OldPairAt(h: HStore, n: nat, i: nat)
    requires i < n && 2 * n <= |h.entries| && OldStart(h, n) <= |h.str|
    ensures OldStart(h, i + 1) <= |h.str| && OldPairs(h, n)[i] == OldPair(h, i)
  {
    hide OldNull, OldKeyLen, OldValLen, OldPair;
    OldStartsAscend(h, i + 1, n);
    if i < n - 1 { OldPairAt(h, n - 1, i); }
  }

  lemma {:induction false} EncodedKeyLen(ps: seq<Pair>, i: nat)
    requires Fits(ps) && i < |ps|
    ensures var e := Encode(ps);
      |e.entries| == 2 * |ps| && IsFirst(e.entries[0]) && Len(e, 2 * i) == |ps[i].key| && !IsNull(e.entries[2 * i])
  {
    hide Join, IsNull, IsFirst, PiecesOf, PieceAt, Start, Readable, Off, Len, Flagged, RawEntries;
    var xs := PiecesOf(ps);
    PiecesRoundTrip(xs);
    EncodedCount(xs);
    PiecesAt(ps, i);
    ReadItem(Encode(ps), 2 * i);
  }

  /** The rewritten value passes the checks of the new format, and is canonical if its keys are in order. */
  lemma {:induction false} UpgradedPassesChecks(h: HStore)
    requires InStorage(h) && IsOld(h)
    ensures var e := Encode(OldPairs(h, h.size));
      && |e.entries| == 2 * Count(e) && NewChecks(e) && |e.str| == Start(e, |e.entries|)
      && (SortedKeys(OldPairs(h, h.size)) ==> Canonical(e))
  {
    hide Join, IsNull, IsFirst, PiecesOf, EndPos, Len, OldPairs, OldKeyLen, Flagged, RawEntries, SortedKeys, Canonical, Contiguous, OldPair;
    var n := h.size;
    var ps := OldPairs(h, n);
    var xs, e := PiecesOf(ps), Encode(ps);
    OldFitsWhole(h);
    EncodedIsReadable(xs);
    EncodedCount(xs);
    assert e.str == Join(xs);
    if SortedKeys(ps) { EncodedIsCanonical(ps); }
    hide Encode;
    assert PositionsAscend(e, |e.entries|) by {
      forall k | 1 <= k < |e.entries| ensures !IsFirst(e.entries[k]) && EndPos(e.entries[k - 1]) <= EndPos(e.entries[k]) {
        assert Start(e, k) <= Start(e, k + 1);
      }
    }
    hide Readable, Start;
    forall i | 1 <= i < n ensures Len(e, 2 * i - 2) <= Len(e, 2 * i) && !IsNull(e.entries[2 * i]) {
      EncodedKeyLen(ps, i - 1);
      EncodedKeyLen(ps, i);
      KeyLensOf(h, i);
    }
    if n > 0 { EncodedKeyLen(ps, 0); }
  }

  /** Every canonical value passes the checks of the new format, with no space left over. */
  lemma {:induction false} CanonicalPassesChecks(h: HStore)
    requires Canonical(h)
    ensures |h.entries| == 2 * Count(h) && NewChecks(h) && |h.str| == Start(h, |h.entries|)
  {
    CanonicalIsEncoded(h);
    CanonicalIsReadable(h);
    WholeString(h);
    ReadableAscends(h);
    var ps := Decode(h);
    hide Canonical, Decode, Encode, SortedKeys, KeyCompare, Len, IsNull, IsFirst, EndPos, Fits, Readable, Start, PositionsAscend;
    forall i | 1 <= i < |ps| ensures Len(h, 2 * i - 2) <= Len(h, 2 * i) && !IsNull(h.entries[2 * i]) {
      EncodedKeyLen(ps, i - 1);
      EncodedKeyLen(ps, i);
      InLengthOrder(ps, i - 1, i);
    }
    if |ps| > 0 { EncodedKeyLen(ps, 0); }
  }

  lemma {:induction false} WholeString(h: HStore)
    requires Canonical(h)
    ensures |h.str| == Start(h, |h.entries|)
  {
    hide SortedKeys;
  }

  lemma {:induction false} ReadableAscends(h: HStore)
    requires Readable(h)
    ensures |h.entries| == 2 * Count(h) && PositionsAscend(h, |h.entries|) && Start(h, |h.entries|) <= |h.str|
  {
    hide IsFirst, EndPos;
    forall k | 1 <= k < |h.entries| ensures !IsFirst(h.entries[k]) && EndPos(h.entries[k - 1]) <= EndPos(h.entries[k]) {
      assert Start(h, k) <= Start(h, k + 1);
    }
  }

  lemma {:induction false} InLengthOrder(ps: seq<Pair>, i: nat, j: nat)
    requires SortedKeys(ps) && i < j < |ps|
    ensures |ps[i].key| <= |ps[j].key|
  {
  }

  lemma {:induction false} KeyLensOf(h: HStore, i: nat)
    requires IsOld(h) && 1 <= i < h.size
    ensures |OldPairs(h, h.size)[i - 1].key| <= |OldPairs(h, h.size)[i].key|
  {
    hide OldKeyLen, OldPairs, Contiguous, OldPair;
    OldPairAt(h, h.size, i - 1);
    OldPairAt(h, h.size, i);
    OldPairLen(h, i - 1);
    OldPairLen(h, i);
    assert h.entries[2 * i - 2] == h.entries[2 * (i - 1)];
  }
}
