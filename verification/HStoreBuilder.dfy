/** contrib/hstore/hstore.h: the macros that read a stored value and those that write one, as a builder over
    the entry array and the byte buffer of the value under construction. */
module HStoreBuilder {
  import opened HStoreLayout

  // ---------------------------------------------------------------- reading

  /** HSE_OFF and HSE_LEN. */
  function Off(h: HStore, k: nat): nat
    requires k < |h.entries| && (k == 0 ==> IsFirst(h.entries[0]))
  {
    if IsFirst(h.entries[k]) then 0 else EndPos(h.entries[k - 1])
  }

  function Len(h: HStore, k: nat): int
    requires k < |h.entries| && (k == 0 ==> IsFirst(h.entries[0]))
  {
    if IsFirst(h.entries[k]) then EndPos(h.entries[k]) else EndPos(h.entries[k]) - EndPos(h.entries[k - 1])
  }

  lemma {:induction false} ReadItem(h: HStore, k: nat)
    requires Readable(h) && k < |h.entries|
    ensures IsFirst(h.entries[0]) && Off(h, k) == Start(h, k) && Off(h, k) + Len(h, k) == Start(h, k + 1)
    ensures Len(h, k) >= 0 && Start(h, k + 1) <= |h.str|
    ensures h.str[Off(h, k)..Off(h, k) + Len(h, k)] == PiecesIn(h)[k].text && PiecesIn(h)[k].isnull == IsNull(h.entries[k])
  {
    StartsAscend(h, k, k + 1);
    hide EndPos, IsFirst, IsNull;
    assert PiecesIn(h)[k] == PieceAt(h, k);
  }

  /** The macros find the bytes of every key and value, each value right after its key. */
  lemma {:induction false} ReadPair(h: HStore, i: nat)
    requires Canonical(h) && i < Count(h)
    ensures |h.entries| == 2 * Count(h) && IsFirst(h.entries[0]) && |Decode(h)| == Count(h)
    ensures Len(h, 2 * i) == |Decode(h)[i].key| && Len(h, 2 * i + 1) == |ValueText(Decode(h)[i].val)|
    ensures Off(h, 2 * i + 1) == Off(h, 2 * i) + Len(h, 2 * i) && Off(h, 2 * i + 1) + Len(h, 2 * i + 1) <= |h.str|
    ensures h.str[Off(h, 2 * i)..Off(h, 2 * i + 1)] == Decode(h)[i].key
    ensures h.str[Off(h, 2 * i + 1)..Off(h, 2 * i + 1) + Len(h, 2 * i + 1)] == ValueText(Decode(h)[i].val)
    ensures IsNull(h.entries[2 * i + 1]) <==> Decode(h)[i].val.Null?
  {
    var xs := PiecesIn(h);
    ReadItem(h, 2 * i);
    ReadItem(h, 2 * i + 1);
    assert xs[2 * i + 1].isnull ==> xs[2 * i + 1].text == "";
    hide SortedKeys, Off, Len, IsFirst, IsNull, Start, PieceAt, NullsFit;
    assert Decode(h)[i] == PairOf(xs, i);
  }

  /** HS_FIXSIZE and HS_SETCOUNT: the length that the last entry gives, and the bytes up to there. */
  function FixSize(h: HStore): HStore
    requires |h.entries| == 2 * Count(h) && Start(h, |h.entries|) <= |h.str|
  {
    var bl := if Count(h) > 0 then EndPos(h.entries[2 * Count(h) - 1]) else 0;
    HStore(CalcDataSize(Count(h), bl), Count(h) + NEWVERSION, h.entries, h.str[..bl])
  }

  lemma {:induction false} FixSizeKeepsCanonical(h: HStore)
    requires Canonical(h)
    ensures |h.entries| == 2 * Count(h) && Start(h, |h.entries|) <= |h.str| && FixSize(h) == h
  {
    hide SortedKeys, PiecesIn, NullsFit;
    assert h.str[..|h.str|] == h.str;
  }

  // ---------------------------------------------------------------- writing

  /** A value under construction: how far its entries and bytes are written. */
  class Builder {
    const entries: array<nat>
    const buf: array<char>
    var dent: nat
    var dptr: nat
    ghost var built: seq<Pair>

    ghost predicate Valid()
      reads this, entries, buf
    {
      && dent == 2 * |built| <= entries.Length && dptr == |Bytes(built)| <= buf.Length
      && entries[..dent] == RawEntries(PiecesOf(built))
      && buf[..dptr] == Bytes(built)
    }

    constructor (slots: nat, room: nat)
      ensures Valid() && built == [] && entries.Length == 2 * slots && buf.Length == room
      ensures fresh(entries) && fresh(buf)
    {
      entries := new nat[2 * slots];
      buf := new char[room];
      dent, dptr := 0, 0;
      built := [];
    }

    /** memcpy to the end of what is written. */
    method Write(text: string)
      requires dptr + |text| <= buf.Length
      modifies `dptr, buf
      ensures dptr == old(dptr) + |text| && buf[..dptr] == old(buf[..dptr]) + text
    {
      forall k | 0 <= k < |text| { buf[dptr + k] := text[k]; }
      dptr := dptr + |text|;
    }

    /** HS_COPYITEM: one pair whose key and value lie together at the given place. */
    method CopyItem(src: string, at: nat, klen: nat, vlen: nat, vnull: bool)
      requires Valid() && at + klen + vlen <= |src| && (vnull ==> vlen == 0)
      requires dptr + klen + vlen <= buf.Length && dent + 2 <= entries.Length
      modifies this, entries, buf
      ensures Valid()
      ensures built == old(built) +
                [Pair(src[at..at + klen], if vnull then Null else Text(src[at + klen..at + klen + vlen]))]
    {
      hide Bytes, RawEntries, PiecesOf, Entry;
      ghost var was, p := built, Pair(src[at..at + klen], if vnull then Null else Text(src[at + klen..at + klen + vlen]));
      Adjacent(src, at, klen, vlen);
      assert src[at..at + klen + vlen] == p.key + ValueText(p.val);
      Write(src[at..at + klen + vlen]);
      assert buf[..dptr] == Bytes(was) + p.key + ValueText(p.val);
      entries[dent] := Entry(dptr - vlen, false);
      entries[dent + 1] := Entry(dptr, vnull);
      assert entries[..dent + 2] == old(entries[..dent]) + [Entry(dptr - vlen, false)] + [Entry(dptr, vnull)];
      dent := dent + 2;
      built := built + [p];
      EntriesSnoc(was, p);
    }

    /** HS_ADDITEM: one pair from the list of pairs. */
    method AddItem(p: Pair)
      requires Valid()
      requires dptr + |p.key| + |ValueText(p.val)| <= buf.Length && dent + 2 <= entries.Length
      modifies this, entries, buf
      ensures Valid() && built == old(built) + [p]
    {
      hide Bytes, RawEntries, PiecesOf, Entry;
      ghost var was := built;
      Write(p.key);
      entries[dent] := Entry(dptr, false);
      if p.val.Null? {
        entries[dent + 1] := Entry(dptr, true);
      } else {
        Write(p.val.text);
        entries[dent + 1] := Entry(dptr, false);
      }
      assert entries[..dent + 2] == old(entries[..dent]) + [Entry(old(dptr) + |p.key|, false)] + [Entry(dptr, p.val.Null?)];
      dent := dent + 2;
      built := built + [p];
      EntriesSnoc(was, p);
    }

    /** HS_FINALIZE: flags the first entry and sets count and size from what was written. */
    method Finalize(count: nat) returns (h: HStore)
      requires Valid() && dent == 2 * count
      modifies entries
      ensures |built| == count && h == Encode(built)
    {
      var size := CalcDataSize(count, dptr);
      ghost var raw := entries[..dent];
      if count > 0 { entries[0] := Marked(entries[0]); }
      assert entries[..dent] == Flagged(raw);
      h := HStore(size, count + NEWVERSION, entries[..dent], buf[..dptr]);
    }
  }

  lemma {:induction false} Adjacent(src: string, at: nat, k: nat, v: nat)
    requires at + k + v <= |src|
    ensures src[at..at + k + v] == src[at..at + k] + src[at + k..at + k + v]
  {
  }

  /** What appending a pair adds to the entries. */
  lemma {:induction false} EntriesSnoc(ps: seq<Pair>, p: Pair)
    ensures Bytes(ps + [p]) == Bytes(ps) + p.key + ValueText(p.val)
    ensures RawEntries(PiecesOf(ps + [p])) ==
              RawEntries(PiecesOf(ps)) + [Entry(|Bytes(ps)| + |p.key|, false)] + [Entry(|Bytes(ps + [p])|, p.val.Null?)]
  {
    hide RawEntries, PiecesOf, Entry, Join;
    var xs, x, y := PiecesOf(ps), Piece(p.key, false), Piece(ValueText(p.val), p.val.Null?);
    PiecesSnoc(ps, p);
    RawSnoc(xs, x);
    RawSnoc(xs + [x], y);
    JoinSnoc(xs, x);
  }
}
