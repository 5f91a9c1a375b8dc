/** What the protocol of pg_stat_statements keeps of its past: every store ends up under the key and with the
    amounts it began with, and every row a reader returns was in the table. The history is taken from the steps
    alone. */
module StatHistory {
  import opened StatTable
  import opened StatProtocol

  /** A run with the steps that made it. */
  ghost predicate IsTrace(run: seq<State>, steps: seq<Step>) {
    && |run| == |steps| + 1 && Init(run[0])
    && forall i :: 0 <= i < |steps| ==> Enabled(run[i], steps[i]) && run[i + 1] == Do(run[i], steps[i])
  }

  lemma {:induction false} RunHasTrace(run: seq<State>) returns (steps: seq<Step>)
    requires IsRun(run)
    ensures IsTrace(run, steps)
    decreases |run|
  {
    hide Enabled, Do;
    if |run| == 1 {
      steps := [];
    } else {
      var init := run[..|run| - 1];
      steps := RunHasTrace(init);
      assert Next(run[|run| - 2], run[|run| - 1]);
      var step :| Enabled(run[|run| - 2], step) && run[|run| - 1] == Do(run[|run| - 2], step);
      steps := steps + [step];
    }
  }

  /** The trace without its last step, with what that step was. */
  lemma {:induction false} LastStep(run: seq<State>, steps: seq<Step>)
    requires IsTrace(run, steps) && steps != []
    ensures var n := |steps|;
      && |run| == n + 1 && IsTrace(run[..n], steps[..n - 1]) && run[..n][n - 1] == run[n - 1]
      && Enabled(run[n - 1], steps[n - 1]) && run[n] == Do(run[n - 1], steps[n - 1])
  {
    hide Enabled, Do;
    assert steps[|steps| - 1] in steps;
  }

  lemma {:induction false} TraceKeepsInv(run: seq<State>, steps: seq<Step>)
    requires IsTrace(run, steps)
    ensures IsRun(run) && Inv(run[|steps|])
  {
    hide Enabled, Do, Inv;
    forall i | 0 < i < |run| ensures Next(run[i - 1], run[i]) { assert Enabled(run[i - 1], steps[i - 1]); }
    RunKeepsInv(run, |steps|);
  }

  // ---------------------------------------------------------------- what a backend began

  predicate Begins(step: Step, p: Pid) {
    (step.BeginStore? || step.BeginRead? || step.BeginReset?) && step.p == p
  }

  /** What a backend began last. */
  function LastBegin(steps: seq<Step>, p: Pid): Option<Step> {
    if steps == [] then None
    else if Begins(steps[|steps| - 1], p) then Some(steps[|steps| - 1])
    else LastBegin(steps[..|steps| - 1], p)
  }

  /** The last step ends the store that its backend began last. */
  predicate FinishesStore(steps: seq<Step>)
    requires steps != []
  {
    var step := steps[|steps| - 1];
    step.UnlockEntry? && var began := LastBegin(steps[..|steps| - 1], step.p); began.Some? && began.value.BeginStore?
  }

  function StoreFinished(steps: seq<Step>): (began: Step)
    requires steps != [] && FinishesStore(steps)
    ensures began.BeginStore?
  {
    LastBegin(steps[..|steps| - 1], steps[|steps| - 1].p).value
  }

  predicate IsStore(pc: PC) {
    pc.WantShared? || pc.Lookup? || pc.Missed? || pc.WantExclusive? || pc.MakeRoom? || pc.HaveEntry? || pc.Updating?
  }

  predicate IsReader(pc: PC) {
    pc.Scanning? || pc.AtEntry? || pc.Copying?
  }

  /** The place of a backend goes with what it began last. */
  predicate BeganOk(pc: PC, p: Pid, began: Option<Step>) {
    && (IsStore(pc) ==> began == Some(BeginStore(p, pc.key, pc.delta)))
    && (pc.Updated? ==> began.Some? && began.value.BeginStore?)
    && (pc.ReaderWants? || IsReader(pc) ==> began == Some(BeginRead(p)))
    && (pc.ResetWants? || pc.Resetting? ==> began == Some(BeginReset(p)))
  }

  predicate IsLoad(step: Step) {
    step.LoadEvict? || step.LoadOne?
  }

  lemma {:induction false} OthersStay(s: State, step: Step, q: Pid)
    requires Enabled(s, step) && (IsLoad(step) || step.p != q)
    ensures PcOf(Do(s, step), q) == PcOf(s, q)
  {
    hide AreVictims, DecayedAll, View, LoadField, StoreField;
  }

  /** Between its first step and its end a store keeps its key and its amounts. */
  lemma {:induction false} StoreGoesOn(s: State, step: Step, began: Option<Step>)
    requires Enabled(s, step) && !IsLoad(step) && BeganOk(PcOf(s, step.p), step.p, began)
    ensures BeganOk(PcOf(Do(s, step), step.p), step.p, if Begins(step, step.p) then Some(step) else began)
  {
    if Works(step) { WorkGoesOn(s, step, began); } else { SearchGoesOn(s, step, began); }
  }

  /** Steps at an entry. */
  predicate Works(step: Step) {
    step.LockEntry? || step.TouchField? || step.UnlockEntry?
  }

  lemma {:induction false} WorkGoesOn(s: State, step: Step, began: Option<Step>)
    requires Enabled(s, step) && Works(step) && BeganOk(PcOf(s, step.p), step.p, began)
    ensures BeganOk(PcOf(Do(s, step), step.p), step.p, began)
  {
    hide AreVictims, DecayedAll, View, LoadField, StoreField;
  }

  lemma {:induction false} SearchGoesOn(s: State, step: Step, began: Option<Step>)
    requires Enabled(s, step) && !IsLoad(step) && !Works(step) && BeganOk(PcOf(s, step.p), step.p, began)
    ensures BeganOk(PcOf(Do(s, step), step.p), step.p, if Begins(step, step.p) then Some(step) else began)
  {
    hide AreVictims, DecayedAll, View, Spun, Touched, Unspun;
  }

  lemma {:induction false} BeganHolds(run: seq<State>, steps: seq<Step>, p: Pid)
    requires IsTrace(run, steps)
    ensures BeganOk(PcOf(run[|steps|], p), p, LastBegin(steps, p))
    decreases |steps|
  {
    hide Enabled, Do, BeganOk;
    if steps == [] {
      IdleAtFirst(run[0], p);
    } else {
      LastStep(run, steps);
      var n := |steps|;
      BeganHolds(run[..n], steps[..n - 1], p);
      if IsLoad(steps[n - 1]) || steps[n - 1].p != p {
        OthersStay(run[n - 1], steps[n - 1], p);
      } else {
        StoreGoesOn(run[n - 1], steps[n - 1], LastBegin(steps[..n - 1], p));
      }
    }
  }

  lemma {:induction false} IdleAtFirst(s: State, p: Pid)
    requires Init(s)
    ensures BeganOk(PcOf(s, p), p, None)
  {
  }

  // ---------------------------------------------------------------- stores are counted under their keys

  /** How many stores of a key were begun. */
  function Begun(steps: seq<Step>, key: Key): nat {
    if steps == [] then 0
    else
      var step := steps[|steps| - 1];
      Begun(steps[..|steps| - 1], key) + if step.BeginStore? && step.key == key then 1 else 0
  }

  predicate FinishesUnder(steps: seq<Step>, key: Key)
    requires steps != []
  {
    FinishesStore(steps) && StoreFinished(steps).key == key
  }

  /** How many stores that began with the key were finished. */
  function Finished(steps: seq<Step>, key: Key): nat {
    if steps == [] then 0
    else Finished(steps[..|steps| - 1], key) + if FinishesUnder(steps, key) then 1 else 0
  }

  /** The backends at work on a store under a key. */
  function Working(s: State, key: Key): set<Pid> {
    set p | p in s.pcs && IsStore(s.pcs[p]) && s.pcs[p].key == key
  }

  /** A step that ends a store by its place is one by what was begun, under the same key and with the same amounts. */
  lemma {:induction false} FinishedHere(run: seq<State>, steps: seq<Step>)
    requires IsTrace(run, steps) && steps != []
    ensures var s, step := run[|steps| - 1], steps[|steps| - 1];
      && (FinishesStore(steps) <==> step.UnlockEntry? && PcOf(s, step.p).Updating?)
      && (FinishesStore(steps) ==> StoreFinished(steps) == BeginStore(step.p, PcOf(s, step.p).key, PcOf(s, step.p).delta))
  {
    hide Do;
    LastStep(run, steps);
    var n := |steps|;
    if steps[n - 1].UnlockEntry? {
      BeganHolds(run[..n], steps[..n - 1], steps[n - 1].p);
    }
  }

  lemma {:induction false} WorkingStep(s: State, step: Step, key: Key)
    requires Enabled(s, step)
    ensures Working(Do(s, step), key) ==
      if step.BeginStore? && step.key == key then Working(s, key) + {step.p}
      else if step.UnlockEntry? && PcOf(s, step.p).Updating? && PcOf(s, step.p).key == key then Working(s, key) - {step.p}
      else Working(s, key)
    ensures step.BeginStore? ==> step.p !in Working(s, key)
    ensures step.UnlockEntry? && PcOf(s, step.p).Updating? && PcOf(s, step.p).key == key ==> step.p in Working(s, key)
  {
    forall q: Pid
      ensures q in Working(Do(s, step), key) <==>
        if !IsLoad(step) && step.p == q then StaysAtWork(s, step, key) else q in Working(s, key)
    {
      if IsLoad(step) || step.p != q {
        OthersStay(s, step, q);
        WorkingAt(s, key, q);
        WorkingAt(Do(s, step), key, q);
      } else {
        WorkingAt(Do(s, step), key, q);
        ActorWorks(s, step, key);
      }
    }
    hide Do, Enabled;
    if !IsLoad(step) { WorkingAt(s, key, step.p); }
  }

  lemma {:induction false} WorkingAt(s: State, key: Key, p: Pid)
    ensures p in Working(s, key) <==> IsStore(PcOf(s, p)) && PcOf(s, p).key == key
  {
  }

  predicate StaysAtWork(s: State, step: Step, key: Key)
    requires !IsLoad(step)
  {
    if step.BeginStore? then step.key == key
    else !step.UnlockEntry? && IsStore(PcOf(s, step.p)) && PcOf(s, step.p).key == key
  }

  lemma {:induction false} ActorWorks(s: State, step: Step, key: Key)
    requires Enabled(s, step) && !IsLoad(step)
    ensures IsStore(PcOf(Do(s, step), step.p)) && PcOf(Do(s, step), step.p).key == key <==> StaysAtWork(s, step, key)
  {
    hide AreVictims, DecayedAll, View, LoadField, StoreField;
  }

  /** In every run, the stores begun with a key are those finished under it and those at work for it. */
  lemma {:induction false} StoresAreAccountedFor(run: seq<State>, steps: seq<Step>, key: Key)
    requires IsTrace(run, steps)
    ensures Begun(steps, key) == Finished(steps, key) + |Working(run[|steps|], key)|
    decreases |steps|
  {
    hide Enabled, Do;
    if steps == [] {
      assert Working(run[0], key) == {};
    } else {
      var n := |steps|;
      LastStep(run, steps);
      StoresAreAccountedFor(run[..n], steps[..n - 1], key);
      FinishedHere(run, steps);
      WorkingStep(run[n - 1], steps[n - 1], key);
    }
  }

  // ---------------------------------------------------------------- counters are sums

  /** What the entry of a key held when it was made or last loaded. */
  ghost function Origin(run: seq<State>, steps: seq<Step>, key: Key): Counters
    requires |run| == |steps| + 1
  {
    if steps == [] then Counters(0, 0.0, 0, 1.0)
    else
      var n := |steps|;
      if steps[n - 1].LoadOne? && steps[n - 1].key == key then steps[n - 1].counters
      else if key !in run[n - 1].table then Counters(0, 0.0, 0, 1.0)
      else Origin(run[..n], steps[..n - 1], key)
  }

  /** What the stores finished under a key since then began with. */
  ghost function Amounts(run: seq<State>, steps: seq<Step>, key: Key): seq<Delta>
    requires |run| == |steps| + 1
  {
    if steps == [] then []
    else
      var n := |steps|;
      if (steps[n - 1].LoadOne? && steps[n - 1].key == key) || key !in run[n - 1].table then []
      else Amounts(run[..n], steps[..n - 1], key) + if FinishesUnder(steps, key) then [StoreFinished(steps).delta] else []
  }

  function TotalTime(ds: seq<Delta>): real {
    if ds == [] then 0.0 else TotalTime(ds[..|ds| - 1]) + ds[|ds| - 1].time
  }

  function TotalRows(ds: seq<Delta>): int {
    if ds == [] then 0 else TotalRows(ds[..|ds| - 1]) + ds[|ds| - 1].rows
  }

  /** One for each store, and a hundredth less for each eviction survived. */
  ghost function Usage(run: seq<State>, steps: seq<Step>, key: Key): real
    requires |run| == |steps| + 1
  {
    if steps == [] then 1.0
    else
      var n := |steps|;
      if steps[n - 1].LoadOne? && steps[n - 1].key == key then steps[n - 1].counters.usage
      else if key !in run[n - 1].table then 1.0
      else
        var before := Usage(run[..n], steps[..n - 1], key);
        if steps[n - 1].Evict? || steps[n - 1].LoadEvict? then before * 0.99
        else if FinishesUnder(steps, key) then before + 1.0
        else before
  }

  /** The counters that the history of a key asks for. */
  ghost function Owed(run: seq<State>, steps: seq<Step>, key: Key): Counters
    requires |run| == |steps| + 1
  {
    var origin, ds := Origin(run, steps, key), Amounts(run, steps, key);
    Counters(origin.calls + |ds|, origin.totalTime + TotalTime(ds), origin.rows + TotalRows(ds), Usage(run, steps, key))
  }

  ghost predicate HasEntryFor(s: State, key: Key) {
    key in s.table && s.table[key] in s.entries
  }

  ghost function StableOf(s: State, key: Key): Counters
    requires HasEntryFor(s, key)
  {
    s.entries[s.table[key]].stable
  }

  /** What one step makes of the counters of a key that are not being worked on. */
  ghost function StableAfter(s: State, step: Step, key: Key): Counters
    requires HasEntryFor(s, key) || (step.LoadOne? && step.key == key) || key !in s.table
  {
    if step.LoadOne? && step.key == key then step.counters
    else if key !in s.table then Counters(0, 0.0, 0, 1.0)
    else
      var c := StableOf(s, key);
      if step.Evict? || step.LoadEvict? then Counters(c.calls, c.totalTime, c.rows, c.usage * 0.99)
      else if step.UnlockEntry? && PcOf(s, step.p).Updating? && PcOf(s, step.p).key == key then
        var d := PcOf(s, step.p).delta;
        Counters(c.calls + 1, c.totalTime + d.time, c.rows + d.rows, c.usage + 1.0)
      else c
  }

  ghost predicate StableBecomes(t: State, key: Key, c: Counters) {
    key in t.table ==> HasEntryFor(t, key) && StableOf(t, key) == c
  }

  lemma {:induction false} EvictedStable(s: State, victims: set<Key>, key: Key)
    requires TableInv(s) && key in s.table
    ensures var c := StableOf(s, key);
      StableBecomes(Drop(Aged(s), victims), key, Counters(c.calls, c.totalTime, c.rows, c.usage * 0.99))
  {
    AgedAt(s, key);
    hide Aged;
  }

  lemma {:induction false} AgedAt(s: State, key: Key)
    requires TableInv(s) && key in s.table
    ensures var c := StableOf(s, key);
      && Aged(s).table == s.table && HasEntryFor(Aged(s), key)
      && StableOf(Aged(s), key) == Counters(c.calls, c.totalTime, c.rows, c.usage * 0.99)
  {
  }

  lemma {:induction false} DroppedStable(s: State, keys: set<Key>, key: Key)
    requires HasEntryFor(s, key)
    ensures StableBecomes(Drop(s, keys), key, StableOf(s, key))
  {
  }

  lemma {:induction false} EnteredStable(s: State, other: Key, slot: Slot, key: Key)
    requires TableInv(s) && (other !in s.table ==> !IsLive(s, slot))
    ensures key in s.table ==> StableBecomes(Entered(s, other, slot), key, StableOf(s, key))
    ensures key !in s.table ==> StableBecomes(Entered(s, other, slot), key, Counters(0, 0.0, 0, 1.0))
  {
  }

  lemma {:induction false} LoadedStable(s: State, other: Key, counters: Counters, slot: Slot, key: Key)
    requires TableInv(s) && (other !in s.table ==> !IsLive(s, slot))
    ensures key == other ==> StableBecomes(Loaded(s, other, counters, slot), key, counters)
    ensures key != other && key in s.table ==> StableBecomes(Loaded(s, other, counters, slot), key, StableOf(s, key))
    ensures key != other && key !in s.table ==> key !in Loaded(s, other, counters, slot).table
  {
  }

  lemma {:induction false} WorkedStable(s: State, step: Step, key: Key)
    requires Enabled(s, step) && (step.LockEntry? || step.TouchField?) && HasEntryFor(s, key)
    ensures StableBecomes(Do(s, step), key, StableOf(s, key))
  {
    hide AreVictims, LoadField, StoreField;
  }

  lemma {:induction false} UnlockedStable(s: State, p: Pid, key: Key)
    requires Inv(s) && Enabled(s, UnlockEntry(p)) && HasEntryFor(s, key)
    ensures StableBecomes(Unspun(s, p), key, StableAfter(s, UnlockEntry(p), key))
  {
    InvAt(s, p);
    KeyOfEntry(s, key);
    KeyOfEntry(s, PcOf(s, p).key);
    hide Inv, LockInv, BackendInv, HistoryInv, EntryInv, TableInv, AreVictims;
    var pc := PcOf(s, p);
    if pc.Updating? {
      StoreAdded(s, p);
      hide Added;
      assert pc.slot == s.table[key] <==> pc.key == key;
    }
  }

  /** At its end a store has added its amounts, one field after the other. */
  lemma {:induction false} StoreAdded(s: State, p: Pid)
    requires BackendOk(s, p, PcOf(s, p)) && PcOf(s, p).Updating? && PcOf(s, p).step == 2 * FIELDS
    ensures var pc := PcOf(s, p); var e := s.entries[pc.slot];
      e.counters == Counters(e.stable.calls + 1, e.stable.totalTime + pc.delta.time,
                             e.stable.rows + pc.delta.rows, e.stable.usage + 1.0)
  {
  }

  lemma {:induction false} SameTableKey(s: State, t: State, key: Key)
    requires t.table == s.table && t.entries == s.entries
    ensures HasEntryFor(s, key) ==> StableBecomes(t, key, StableOf(s, key))
  {
  }

  lemma {:induction false} StableStep(s: State, step: Step, key: Key)
    requires Inv(s) && Enabled(s, step)
    ensures key in s.table ==> HasEntryFor(s, key)
    ensures StableBecomes(Do(s, step), key, StableAfter(s, step, key))
  {
    hide LockInv, BackendInv, HistoryInv, EntryInv, Enabled, Do, StableBecomes, StableAfter;
    if key in s.table {
      KeyOfEntry(s, key);
      KeptStable(s, step, key);
    } else {
      NewStable(s, step, key);
    }
  }

  lemma {:induction false} KeptStable(s: State, step: Step, key: Key)
    requires Inv(s) && Enabled(s, step) && HasEntryFor(s, key)
    ensures StableBecomes(Do(s, step), key, StableAfter(s, step, key))
  {
    hide LockInv, BackendInv, HistoryInv, EntryInv, TableInv, AreVictims, DecayedAll, View;
    hide Drop, Aged, Entered, Touched, Spun, Unspun, Loaded, StableBecomes, StableOf;
    if OnlyGoes(step) {
      GoesOnly(s, step);
      SameTableKey(s, Do(s, step), key);
    } else if step.Evict? || step.LoadEvict? {
      EvictedStable(s, step.victims, key);
    } else if step.Enter? {
      EnteredStable(s, PcOf(s, step.p).key, step.slot, key);
      GotoKeepsStable(Entered(s, PcOf(s, step.p).key, step.slot), Do(s, step), key, StableOf(s, key));
    } else if step.LockEntry? || step.TouchField? {
      WorkedStable(s, step, key);
    } else if step.UnlockEntry? {
      UnlockedStable(s, step.p, key);
    } else if step.RemoveOne? {
      DroppedStable(s, {step.key}, key);
    } else {
      LoadedStable(s, step.key, step.counters, step.slot, key);
    }
  }

  lemma {:induction false} NewStable(s: State, step: Step, key: Key)
    requires Inv(s) && Enabled(s, step) && key !in s.table
    ensures StableBecomes(Do(s, step), key, StableAfter(s, step, key))
  {
    hide LockInv, BackendInv, HistoryInv, EntryInv, TableInv, AreVictims, DecayedAll, View;
    hide Drop, Aged, Entered, Touched, Spun, Unspun, Loaded;
    if step.Enter? {
      EnteredStable(s, PcOf(s, step.p).key, step.slot, key);
      GotoKeepsStable(Entered(s, PcOf(s, step.p).key, step.slot), Do(s, step), key, StableAfter(s, step, key));
    } else if step.LoadOne? {
      LoadedStable(s, step.key, step.counters, step.slot, key);
    } else {
      KeptOut(s, step, key);
    }
  }

  lemma {:induction false} KeptOut(s: State, step: Step, key: Key)
    requires Enabled(s, step) && key !in s.table && !step.Enter? && !step.LoadOne?
    ensures key !in Do(s, step).table
  {
    hide AreVictims, DecayedAll, View, Drop, Aged, Entered, Touched, Spun, Unspun, Loaded;
    if OnlyGoes(step) {
      GoesOnly(s, step);
    } else if Works(step) {
      WorkKeepsTable(s, step);
    } else if step.RemoveOne? {
      DropKeepsOut(s, {step.key}, key);
    } else {
      DropsKeepOut(s, step.victims, key);
    }
  }

  lemma {:induction false} GotoKeepsStable(s: State, t: State, key: Key, c: Counters)
    requires t.table == s.table && t.entries == s.entries && StableBecomes(s, key, c)
    ensures StableBecomes(t, key, c)
  {
  }

  lemma {:induction false} DropKeepsOut(s: State, keys: set<Key>, key: Key)
    requires key !in s.table
    ensures key !in Drop(s, keys).table
  {
  }

  lemma {:induction false} DropsKeepOut(s: State, victims: set<Key>, key: Key)
    requires key !in s.table
    ensures key !in Drop(Aged(s), victims).table
  {
  }

  lemma {:induction false} WorkKeepsTable(s: State, step: Step)
    requires Enabled(s, step) && Works(step)
    ensures Do(s, step).table == s.table
  {
    hide AreVictims, LoadField, StoreField;
  }

  /** In every run, what an entry shows while nobody works on it is what its key's history asks for. */
  lemma {:induction false} HistoryIsShown(run: seq<State>, steps: seq<Step>, key: Key)
    requires IsTrace(run, steps) && key in run[|steps|].table
    ensures HasEntryFor(run[|steps|], key) && StableOf(run[|steps|], key) == Owed(run, steps, key)
    decreases |steps|
  {
    hide Enabled, Do, Inv, Owed, IsTrace, StableBecomes, StableAfter;
    var n := |steps|;
    if n == 0 {
      EmptyAtFirst(run, steps);
    } else {
      LastStep(run, steps);
      TraceKeepsInv(run[..n], steps[..n - 1]);
      StableStep(run[n - 1], steps[n - 1], key);
      if key in run[n - 1].table { HistoryIsShown(run[..n], steps[..n - 1], key); }
      OwedAfter(run, steps, key);
      Became(run[n], key, Owed(run, steps, key));
    }
  }

  lemma {:induction false} EmptyAtFirst(run: seq<State>, steps: seq<Step>)
    requires IsTrace(run, steps) && steps == []
    ensures run[0].table == map[]
  {
  }

  lemma {:induction false} Became(t: State, key: Key, c: Counters)
    requires StableBecomes(t, key, c) && key in t.table
    ensures HasEntryFor(t, key) && StableOf(t, key) == c
  {
  }

  lemma {:induction false} OwedAfter(run: seq<State>, steps: seq<Step>, key: Key)
    requires IsTrace(run, steps) && steps != []
    requires key in run[|steps| - 1].table ==>
      HasEntryFor(run[|steps| - 1], key) && StableOf(run[|steps| - 1], key) == Owed(run[..|steps|], steps[..|steps| - 1], key)
    ensures Owed(run, steps, key) == StableAfter(run[|steps| - 1], steps[|steps| - 1], key)
  {
    FinishedHere(run, steps);
    hide IsTrace, Owed, FinishesStore, StoreFinished;
    OwedStep(run, steps, key);
  }

  lemma {:induction false} OwedStep(run: seq<State>, steps: seq<Step>, key: Key)
    requires |run| == |steps| + 1 && steps != [] && (FinishesStore(steps) ==> steps[|steps| - 1].UnlockEntry?)
    ensures var n := |steps|; var step := steps[n - 1];
      Owed(run, steps, key) ==
      if step.LoadOne? && step.key == key then step.counters
      else if key !in run[n - 1].table then Counters(0, 0.0, 0, 1.0)
      else
        var c := Owed(run[..n], steps[..n - 1], key);
        if step.Evict? || step.LoadEvict? then Counters(c.calls, c.totalTime, c.rows, c.usage * 0.99)
        else if FinishesUnder(steps, key) then
          var d := StoreFinished(steps).delta;
          Counters(c.calls + 1, c.totalTime + d.time, c.rows + d.rows, c.usage + 1.0)
        else c
  {
    var n := |steps|;
    var ds := Amounts(run[..n], steps[..n - 1], key);
    assert ds + [] == ds;
    if FinishesUnder(steps, key) { AddsUp(ds, StoreFinished(steps).delta); }
  }

  lemma {:induction false} AddsUp(ds: seq<Delta>, d: Delta)
    ensures TotalTime(ds + [d]) == TotalTime(ds) + d.time && TotalRows(ds + [d]) == TotalRows(ds) + d.rows
  {
    assert (ds + [d])[..|ds|] == ds;
  }

  /** In every run an entry whose spinlock is free shows the calls, times and rows of the stores that began with
      its key and finished since it was made or loaded, on top of what it was made or loaded with. */
  lemma {:induction false} UnlockedCountersAreSums(run: seq<State>, steps: seq<Step>, key: Key)
    requires IsTrace(run, steps) && key in run[|steps|].table
    ensures var s := run[|steps|]; var origin, ds := Origin(run, steps, key), Amounts(run, steps, key);
      && HasEntryFor(s, key)
      && var e := s.entries[s.table[key]];
         e.mutex == None ==>
           && e.counters.calls == origin.calls + |ds|
           && e.counters.totalTime == origin.totalTime + TotalTime(ds)
           && e.counters.rows == origin.rows + TotalRows(ds)
           && e.counters.usage == Usage(run, steps, key)
  {
    TraceKeepsInv(run, steps);
    HistoryIsShown(run, steps, key);
    assert EntryOk(run[|steps|], run[|steps|].table[key]);
  }

  // ---------------------------------------------------------------- rows were in the table

  ghost predicate ReadsThroughout(run: seq<State>, j: nat, i: nat, p: Pid)
    requires j <= i < |run|
  {
    forall m :: j <= m <= i ==> IsReader(PcOf(run[m], p))
  }

  /** The row was the entry of the key, at rest, at some moment since the reader took the lock. */
  ghost predicate Seen(run: seq<State>, j: nat, i: nat, p: Pid, key: Key, row: Counters)
    requires j <= i < |run|
  {
    && ReadsThroughout(run, j, i, p) && HasEntryFor(run[j], key)
    && row == run[j].entries[run[j].table[key]].counters == run[j].entries[run[j].table[key]].stable
  }

  ghost predicate WasSeen(run: seq<State>, i: nat, p: Pid, key: Key, row: Counters)
    requires i < |run|
  {
    exists j: nat :: j <= i && Seen(run, j, i, p, key, row)
  }

  /** What one step makes of a reader's rows: none at first, and one more from its copy. */
  lemma {:induction false} RowsStep(s: State, step: Step, p: Pid)
    requires Enabled(s, step) && IsReader(PcOf(Do(s, step), p))
    ensures var pc, next := PcOf(s, p), PcOf(Do(s, step), p);
      || (!IsReader(pc) && next.rows == map[])
      || (IsReader(pc) && next.rows == pc.rows)
      || (pc.Copying? && pc.step == FIELDS && next.rows == pc.rows[pc.key := pc.local])
  {
    if IsLoad(step) || step.p != p {
      OthersStay(s, step, p);
    } else if Works(step) {
      hide AreVictims, DecayedAll, View, LoadField, StoreField;
    } else {
      hide AreVictims, DecayedAll, View, Spun, Touched, Unspun;
    }
  }

  lemma {:induction false} StillSeen(run: seq<State>, i: nat, p: Pid, key: Key, row: Counters)
    requires i + 1 < |run| && WasSeen(run, i, p, key, row) && IsReader(PcOf(run[i + 1], p))
    ensures WasSeen(run, i + 1, p, key, row)
  {
    var j: nat :| j <= i && Seen(run, j, i, p, key, row);
    assert Seen(run, j, i + 1, p, key, row);
  }

  lemma {:induction false} CopiedIsSeen(run: seq<State>, i: nat, p: Pid)
    requires IsRun(run) && i + 1 < |run| && PcOf(run[i], p).Copying? && PcOf(run[i], p).step == FIELDS
    requires IsReader(PcOf(run[i + 1], p))
    ensures WasSeen(run, i + 1, p, PcOf(run[i], p).key, PcOf(run[i], p).local)
  {
    RunKeepsInv(run, i);
    RowsAreNotTorn(run, i, p);
    CountersAreProtected(run, i, p);
    hide Inv, IsRun;
    assert Seen(run, i, i + 1, p, PcOf(run[i], p).key, PcOf(run[i], p).local);
  }

  lemma {:induction false} RowsWereSeen(run: seq<State>, i: nat, p: Pid)
    requires IsRun(run) && i < |run| && IsReader(PcOf(run[i], p))
    ensures forall k :: k in PcOf(run[i], p).rows ==> WasSeen(run, i, p, k, PcOf(run[i], p).rows[k])
    decreases i
  {
    hide Enabled, Do, WasSeen;
    if i > 0 {
      assert Next(run[i - 1], run[i]);
      var step :| Enabled(run[i - 1], step) && run[i] == Do(run[i - 1], step);
      RowsStep(run[i - 1], step, p);
      var pc, next := PcOf(run[i - 1], p), PcOf(run[i], p);
      if IsReader(pc) {
        RowsWereSeen(run, i - 1, p);
        forall k | k in next.rows ensures WasSeen(run, i, p, k, next.rows[k]) {
          if k in pc.rows && next.rows[k] == pc.rows[k] {
            StillSeen(run, i - 1, p, k, pc.rows[k]);
          } else {
            CopiedIsSeen(run, i - 1, p);
          }
        }
      }
    }
  }

  /** A reader that has finished has one row for every key in the table, and each row is what its entry held,
      with no store under way, at some moment since the reader took the lock. */
  lemma {:induction false} FinishedReaderSawRows(run: seq<State>, i: nat, p: Pid)
    requires IsRun(run) && i < |run| && PcOf(run[i], p).Scanning? && PcOf(run[i], p).todo == {}
    ensures var rows := PcOf(run[i], p).rows;
      rows.Keys == run[i].table.Keys && forall k :: k in rows ==> WasSeen(run, i, p, k, rows[k])
  {
    hide WasSeen;
    RowsCoverTable(run, i, p);
    RowsWereSeen(run, i, p);
  }
}
