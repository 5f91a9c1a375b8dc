/** The bounded table of contrib/pg_stat_statements/pg_stat_statements.c and what is done to it under
    the exclusive lock: finding or creating an entry, evicting the least used, removing all. */
module StatTable {

  /** userid, dbid, encoding and (clipped) query text. */
  datatype Key = Key(userid: int, dbid: int, encoding: int, query: string)

  /** The counters; the eight block counters, which are added to like `rows`, are left out. */
  datatype Counters = Counters(calls: int, totalTime: real, rows: int, usage: real)

  const USAGE_INIT := 1.0
  const USAGE_EXEC := 1.0
  const USAGE_DECREASE_FACTOR := 0.99
  const USAGE_DEALLOC_PERCENT := 5

  const FRESH := Counters(0, 0.0, 0, USAGE_INIT)

  type Table = map<Key, Counters>

  function Decayed(c: Counters): Counters {
    c.(usage := c.usage * USAGE_DECREASE_FACTOR)
  }

  function DecayedAll(t: Table): Table {
    map k | k in t :: Decayed(t[k])
  }

  function Max(a: int, b: int): int { if a >= b then a else b }
  function Min(a: int, b: int): int { if a <= b then a else b }

  /** How many entries one eviction removes from a table of n. */
  function VictimCount(n: nat): (v: nat)
    ensures v <= n && (n > 0 ==> v > 0)
  {
    Min(Max(10, n * USAGE_DEALLOC_PERCENT / 100), n)
  }

  /** A set of victims a sort by usage can yield: as many as are due, none used more than a survivor. */
  ghost predicate AreVictims(t: Table, victims: set<Key>) {
    && victims <= t.Keys
    && |victims| == VictimCount(|t|)
    && forall v, k :: v in victims && k in t && k !in victims ==> t[v].usage <= t[k].usage
  }

  ghost predicate Evicts(before: Table, after: Table, victims: set<Key>) {
    && AreVictims(DecayedAll(before), victims)
    && after == DecayedAll(before) - victims
  }

  /** An eviction takes nothing from the entries that stay but a hundredth of their usage. */
  lemma {:induction false} SurvivorsKeepCounters(before: Table, after: Table, victims: set<Key>)
    requires Evicts(before, after, victims)
    ensures forall k :: k in after <==> k in before && k !in victims
    ensures forall k :: k in after ==>
      && after[k].calls == before[k].calls && after[k].totalTime == before[k].totalTime && after[k].rows == before[k].rows
      && after[k].usage == before[k].usage * 0.99
      && (before[k].usage > 0.0 ==> after[k].usage < before[k].usage)
  {
    hide AreVictims;
  }

  /** All of up to ten entries go, ten of up to 200, and of more one in twenty. */
  lemma {:induction false} VictimNumbers(before: Table, after: Table, victims: set<Key>)
    requires Evicts(before, after, victims)
    ensures |before| <= 10 ==> |victims| == |before|
    ensures 10 <= |before| < 220 ==> |victims| == 10
    ensures |before| >= 200 ==> |victims| == |before| / 20
  {
    DecayKeepsKeys(before);
  }

  /** Ascending usage. */
  ghost predicate ByUsage(t: Table, keys: seq<Key>) {
    && (forall k :: k in keys ==> k in t)
    && forall i, j :: 0 <= i < j < |keys| ==> t[keys[i]].usage <= t[keys[j]].usage
  }

  ghost predicate Distinct(keys: seq<Key>) {
    forall i, j :: 0 <= i < j < |keys| ==> keys[i] != keys[j]
  }

  /** Every key once. */
  ghost predicate Lists(keys: seq<Key>, all: set<Key>) {
    Distinct(keys) && (forall k :: k in keys <==> k in all)
  }

  function KeySet(keys: seq<Key>): set<Key> {
    set k | k in keys
  }

  lemma {:induction false} DistinctCount(keys: seq<Key>)
    requires Distinct(keys)
    ensures |KeySet(keys)| == |keys|
  {
    if keys != [] {
      var init, last := keys[..|keys| - 1], keys[|keys| - 1];
      DistinctCount(init);
      assert keys == init + [last];
      assert KeySet(keys) == KeySet(init) + {last};
    }
  }

  /** The first so many of a list in ascending usage are victims. */
  lemma {:induction false} PrefixAreVictims(t: Table, keys: seq<Key>)
    requires Lists(keys, t.Keys) && ByUsage(t, keys)
    ensures |keys| == |t| && AreVictims(t, KeySet(keys[..VictimCount(|t|)]))
  {
    DistinctCount(keys);
    assert KeySet(keys) == t.Keys;
    var n := VictimCount(|t|);
    DistinctCount(keys[..n]);
    var victims := KeySet(keys[..n]);
    forall v, k | v in victims && k in t && k !in victims
      ensures t[v].usage <= t[k].usage
    {
      var i :| 0 <= i < n && keys[..n][i] == v;
      var j :| 0 <= j < |keys| && keys[j] == k;
    }
  }

  lemma {:induction false} LeastUsed(t: Table, keys: set<Key>) returns (least: Key)
    requires keys != {} && keys <= t.Keys
    ensures least in keys && forall k :: k in keys ==> t[least].usage <= t[k].usage
    decreases keys
  {
    var first :| first in keys;
    var rest := keys - {first};
    assert forall k :: k in keys ==> k == first || k in rest;
    least := first;
    if rest != {} {
      var other := LeastUsed(t, rest);
      if t[other].usage < t[first].usage { least := other; }
    }
  }

  lemma {:induction false} ListSnoc(t: Table, sorted: seq<Key>, all: set<Key>, key: Key)
    requires Lists(sorted, all) && ByUsage(t, sorted) && key in t && key !in all
    requires forall k :: k in all ==> t[k].usage <= t[key].usage
    ensures Lists(sorted + [key], all + {key}) && ByUsage(t, sorted + [key])
  {
  }

  /** qsort by usage: any order that is ascending. */
  method SortByUsage(t: Table, keys: seq<Key>) returns (sorted: seq<Key>)
    requires Lists(keys, t.Keys)
    ensures Lists(sorted, t.Keys) && ByUsage(t, sorted)
  {
    hide Lists, ByUsage;
    sorted := [];
    var rest := t.Keys;
    EmptyList(t);
    while rest != {}
      invariant rest <= t.Keys && Lists(sorted, t.Keys - rest) && ByUsage(t, sorted)
      invariant forall k, j :: k in t.Keys - rest && j in rest ==> t[k].usage <= t[j].usage
      decreases rest
    {
      ghost var least := LeastUsed(t, rest);
      var k :| k in rest && forall j :: j in rest ==> t[k].usage <= t[j].usage;
      ListSnoc(t, sorted, t.Keys - rest, k);
      assert t.Keys - rest + {k} == t.Keys - (rest - {k});
      sorted, rest := sorted + [k], rest - {k};
    }
    assert t.Keys - {} == t.Keys;
  }

  lemma {:induction false} EmptyList(t: Table)
    ensures Lists([], t.Keys - t.Keys) && ByUsage(t, [])
  {
  }

  lemma {:induction false} DecayKeepsKeys(t: Table)
    ensures DecayedAll(t).Keys == t.Keys && |DecayedAll(t)| == |t|
  {
    assert DecayedAll(t).Keys == t.Keys;
    assert |DecayedAll(t)| == |DecayedAll(t).Keys| && |t| == |t.Keys|;
  }

  lemma {:induction false} VictimsLeave(t: Table, victims: set<Key>)
    requires AreVictims(t, victims)
    ensures |t - victims| == |t| - VictimCount(|t|)
  {
    assert (t - victims).Keys == t.Keys - victims;
    assert |t - victims| == |(t - victims).Keys| && |t| == |t.Keys|;
  }

  // ---------------------------------------------------------------- the table itself

  function FindOrCreate(t: Table, key: Key): Table {
    if key in t then t else t[key := FRESH]
  }

  class SharedTable {
    const max: nat
    var table: Table

    ghost predicate Valid()
      reads this
    {
      0 < max && |table| <= max
    }

    constructor (max: nat)
      requires max > 0
      ensures Valid() && table == map[] && this.max == max
    {
      this.max, this.table := max, map[];
    }

    /** The hash scan, in whatever order it comes. */
    method Scan() returns (keys: seq<Key>)
      ensures Lists(keys, table.Keys)
    {
      keys := [];
      var rest := table.Keys;
      while rest != {}
        invariant Lists(keys, table.Keys - rest) && rest <= table.Keys
        decreases rest
      {
        var k :| k in rest;
        keys, rest := keys + [k], rest - {k};
      }
    }

    /** entry_dealloc: age every entry, then remove the least used. */
    method EntryDealloc()
      requires Valid()
      modifies this
      ensures Valid() && |table| == old(|table|) - VictimCount(old(|table|))
      ensures exists victims :: Evicts(old(table), table, victims)
    {
      hide Lists, ByUsage, AreVictims;
      var entries := Scan();
      DecayKeepsKeys(table);
      table := DecayedAll(table);
      ghost var aged := table;
      entries := SortByUsage(table, entries);
      PrefixAreVictims(aged, entries);
      var nvictims := VictimCount(|entries|);
      RemoveAll(entries[..nvictims]);
      ghost var victims := KeySet(entries[..nvictims]);
      VictimsLeave(aged, victims);
      assert Evicts(old(table), table, victims);
    }

    method RemoveAll(keys: seq<Key>)
      modifies this
      ensures table == old(table) - KeySet(keys)
    {
      for i := 0 to |keys|
        invariant table == old(table) - KeySet(keys[..i])
      {
        assert keys[..i + 1] == keys[..i] + [keys[i]];
        table := table - {keys[i]};
      }
      assert keys[..|keys|] == keys;
    }

    /** entry_alloc: make space, then find or create. */
    method EntryAlloc(key: Key)
      requires Valid()
      modifies this
      ensures Valid() && key in table
      ensures old(|table|) < max ==> table == FindOrCreate(old(table), key)
      ensures old(|table|) == max ==>
              exists victims, mid :: Evicts(old(table), mid, victims) && table == FindOrCreate(mid, key)
    {
      while |table| >= max
        invariant Valid()
        invariant table == old(table) || (old(|table|) == max && |table| < max && exists victims :: Evicts(old(table), table, victims))
        decreases |table|
      {
        EntryDealloc();
      }
      ghost var mid := table;
      if key !in table {
        table := table[key := FRESH];
        assert table.Keys == mid.Keys + {key};
      }
    }

    /** entry_reset */
    method EntryReset()
      modifies this
      ensures table == map[]
    {
      var entries := Scan();
      RemoveAll(entries);
    }
  }
}
