/** That the backends of pg_stat_statements get on: each operation takes a bounded number of its own steps, and
    unless all backends are idle one of them can take its next. */
module StatProgress {
  import opened StatTable
  import opened StatProtocol
  import opened StatHistory

  // ---------------------------------------------------------------- every step of an operation brings its end nearer

  /** How many steps of its own a backend has at most before it is idle again. */
  function Rank(s: State, p: Pid): int {
    match PcOf(s, p)
    case Idle => 0
    case WantShared(_, _) => 22
    case Lookup(_, _) => 21
    case Missed(_, _) => 20
    case WantExclusive(_, _) => 19
    case MakeRoom(_, _) => if |s.table| >= s.max then 18 else 17
    case HaveEntry(_, _, _, _) => 16
    case Updating(_, _, _, _, step, _) => 14 - step
    case Updated(_) => 2
    case ReaderWants => 10 * s.max + 12
    case Scanning(todo, _) => 10 * |todo| + 1
    case AtEntry(todo, _, _, _) => 10 * |todo| + 9
    case Copying(todo, _, _, _, step, _) => 10 * |todo| + 8 - step
    case ResetWants => s.max + 2
    case Resetting => |s.table| + 1
  }

  lemma {:induction false} RankIsNatural(s: State, p: Pid)
    requires Inv(s)
    ensures 0 <= Rank(s, p) <= 10 * s.max + 22 && (Rank(s, p) == 0 <==> PcOf(s, p) == Idle)
  {
    InvAt(s, p);
    hide Inv, LockInv, BackendInv, EntryInv, HistoryInv;
    var pc := PcOf(s, p);
    if IsReader(pc) {
      assert pc.todo <= s.table.Keys;
      Fewer(pc.todo, s.table.Keys);
      assert |s.table.Keys| == |s.table|;
    }
  }

  lemma {:induction false} Fewer<T>(a: set<T>, b: set<T>)
    requires a <= b
    ensures |a| <= |b|
  {
    assert b == a + (b - a);
  }

  lemma {:induction false} WorkGetsNearer(s: State, step: Step)
    requires Enabled(s, step) && Works(step)
    ensures Rank(Do(s, step), step.p) < Rank(s, step.p)
  {
    WorkKeepsTable(s, step);
    hide AreVictims, DecayedAll, View, LoadField, StoreField;
  }

  lemma {:induction false} EvictionGetsNearer(s: State, p: Pid, victims: set<Key>)
    requires Inv(s) && Enabled(s, Evict(p, victims))
    ensures Rank(Do(s, Evict(p, victims)), p) < Rank(s, p)
  {
    hide LockInv, BackendInv, EntryInv, HistoryInv, AreVictims, DecayedAll, View;
    ExclusiveIsUndisturbed(s, p);
    KeepsEviction(s, victims);
    OwnPlaceStays(s, p, victims);
  }

  lemma {:induction false} OwnPlaceStays(s: State, p: Pid, victims: set<Key>)
    ensures PcOf(Drop(Aged(s), victims), p) == PcOf(s, p) && Drop(Aged(s), victims).max == s.max
  {
  }

  lemma {:induction false} RemovalGetsNearer(s: State, p: Pid, key: Key)
    requires Enabled(s, RemoveOne(p, key))
    ensures Rank(Do(s, RemoveOne(p, key)), p) < Rank(s, p)
  {
    hide AreVictims, DecayedAll, View, Drop;
    DropsOne(s, p, key);
  }

  lemma {:induction false} DropsOne(s: State, p: Pid, key: Key)
    requires key in s.table
    ensures PcOf(Drop(s, {key}), p) == PcOf(s, p) && |Drop(s, {key}).table| == |s.table| - 1
  {
    var t := Drop(s, {key});
    assert t.table.Keys == s.table.Keys - {key};
    assert |t.table| == |t.table.Keys| && |s.table| == |s.table.Keys|;
  }

  lemma {:induction false} PickGetsNearer(s: State, p: Pid, key: Key)
    requires Enabled(s, PickEntry(p, key))
    ensures Rank(Do(s, PickEntry(p, key)), p) < Rank(s, p)
  {
    var todo := PcOf(s, p).todo;
    assert |todo - {key}| == |todo| - 1;
    hide AreVictims, DecayedAll, View, Drop, Aged, Entered, Spun, Touched, Unspun, Loaded;
  }

  lemma {:induction false} LockGetsNearer(s: State, step: Step)
    requires TableInv(s) && Enabled(s, step) && (step.AcquireShared? || step.AcquireExclusive?)
    ensures Rank(Do(s, step), step.p) < Rank(s, step.p)
  {
    hide AreVictims, DecayedAll, View;
    assert |s.table.Keys| == |s.table|;
  }

  /** Every step of a backend after its first brings its operation nearer to its end. */
  lemma {:induction false} OperationsEnd(s: State, step: Step)
    requires Inv(s) && Enabled(s, step) && !IsLoad(step) && !Begins(step, step.p)
    ensures Rank(Do(s, step), step.p) < Rank(s, step.p)
  {
    hide Do, Enabled, Rank, LockInv, BackendInv, EntryInv, HistoryInv, TableInv;
    if Works(step) {
      WorkGetsNearer(s, step);
    } else if step.Evict? {
      EvictionGetsNearer(s, step.p, step.victims);
    } else if step.RemoveOne? {
      RemovalGetsNearer(s, step.p, step.key);
    } else if step.PickEntry? {
      PickGetsNearer(s, step.p, step.key);
    } else if step.AcquireShared? || step.AcquireExclusive? {
      LockGetsNearer(s, step);
    } else {
      RestGetsNearer(s, step);
    }
  }

  lemma {:induction false} RestGetsNearer(s: State, step: Step)
    requires Enabled(s, step) && (step.Find? || step.ReleaseAfterMiss? || step.Enter? || step.Release?)
    ensures Rank(Do(s, step), step.p) < Rank(s, step.p)
  {
    hide AreVictims, DecayedAll, View, Entered;
  }

  /** No step of another backend takes it further away. */
  lemma {:induction false} OthersDoNotDelay(s: State, step: Step, p: Pid)
    requires Inv(s) && Enabled(s, step) && !IsLoad(step) && step.p != p
    ensures Rank(Do(s, step), p) <= Rank(s, p)
  {
    hide Do, Enabled, Rank, LockInv, BackendInv, EntryInv, HistoryInv, TableInv;
    OthersStay(s, step, p);
    MaxStays(s, step);
    if HoldsExclusive(PcOf(s, p)) {
      OnlyOneHolds(s, p, step.p);
      AloneKeepsTable(s, step);
    }
    SameRank(s, Do(s, step), p);
  }

  lemma {:induction false} OnlyOneHolds(s: State, p: Pid, q: Pid)
    requires Inv(s) && HoldsExclusive(PcOf(s, p)) && p != q
    ensures !HoldsExclusive(PcOf(s, q))
  {
    InvAt(s, p);
    InvAt(s, q);
    hide Inv, BackendOk, EntryOk;
  }

  lemma {:induction false} SameRank(s: State, t: State, p: Pid)
    requires PcOf(t, p) == PcOf(s, p) && t.max == s.max && (HoldsExclusive(PcOf(s, p)) ==> t.table == s.table)
    ensures Rank(t, p) == Rank(s, p)
  {
  }

  lemma {:induction false} MaxStays(s: State, step: Step)
    requires Enabled(s, step)
    ensures Do(s, step).max == s.max
  {
    hide AreVictims, DecayedAll, View, LoadField, StoreField;
  }

  lemma {:induction false} AloneKeepsTable(s: State, step: Step)
    requires Enabled(s, step) && !IsLoad(step) && !HoldsExclusive(PcOf(s, step.p))
    ensures Do(s, step).table == s.table
  {
    if Works(step) { WorkKeepsTable(s, step); }
    hide AreVictims, DecayedAll, View, Spun, Touched, Unspun, LoadField, StoreField;
  }

  // ---------------------------------------------------------------- someone can always go on

  /** A backend that waits for the table lock or for an entry's spinlock. */
  ghost predicate WaitsForTable(s: State, p: Pid) {
    var pc := PcOf(s, p);
    || ((pc.WantShared? || pc.ReaderWants?) && s.exclusive.Some?)
    || ((pc.WantExclusive? || pc.ResetWants?) && (s.exclusive.Some? || s.shared != {}))
  }

  ghost predicate WaitsForEntry(s: State, p: Pid) {
    var pc := PcOf(s, p);
    (pc.HaveEntry? || pc.AtEntry?) && pc.slot in s.entries && s.entries[pc.slot].mutex.Some?
  }

  ghost predicate CanGoOn(s: State, p: Pid) {
    exists step :: Enabled(s, step) && !IsLoad(step) && step.p == p && !Begins(step, p)
  }

  lemma {:induction false} FreeSlot(slots: set<Slot>) returns (slot: Slot)
    ensures slot !in slots
  {
    slot := 0;
    var rest := slots;
    while rest != {}
      invariant rest <= slots && forall x :: x in slots && x !in rest ==> x < slot
      decreases rest
    {
      var x :| x in rest;
      rest := rest - {x};
      if slot <= x { slot := x + 1; }
    }
  }

  lemma {:induction false} RoomCanBeMade(s: State, p: Pid)
    requires Inv(s) && PcOf(s, p).MakeRoom?
    ensures CanGoOn(s, p)
  {
    hide LockInv, BackendInv, EntryInv, HistoryInv;
    if |s.table| >= s.max {
      var aged := DecayedAll(View(s));
      var sorted := SortedListExists(aged, aged.Keys);
      PrefixAreVictims(aged, sorted);
      assert Enabled(s, Evict(p, KeySet(sorted[..VictimCount(|aged|)])));
    } else {
      var slot := FreeSlot(s.entries.Keys);
      assert Enabled(s, Enter(p, slot));
    }
  }

  lemma {:induction false} WorkerCanGoOn(s: State, p: Pid)
    requires Inv(s) && HoldsMutex(PcOf(s, p))
    ensures CanGoOn(s, p)
  {
    hide Inv, CanGoOn, Enabled, EntryOk;
    InvAt(s, p);
    var pc := PcOf(s, p);
    StepLeft(s, p, if (pc.Updating? && pc.step < 2 * FIELDS) || (pc.Copying? && pc.step < FIELDS) then TouchField(p) else UnlockEntry(p));
  }

  lemma {:induction false} StepLeft(s: State, p: Pid, step: Step)
    requires var pc := PcOf(s, p);
      && HoldsMutex(pc) && pc.slot in s.entries
      && (step == TouchField(p) || step == UnlockEntry(p))
      && (pc.Updating? ==> pc.step <= 2 * FIELDS && (step.TouchField? <==> pc.step < 2 * FIELDS))
      && (pc.Copying? ==> pc.step <= FIELDS && (step.TouchField? <==> pc.step < FIELDS))
    ensures CanGoOn(s, p)
  {
    hide AreVictims, DecayedAll, View;
    assert Enabled(s, step);
  }

  lemma {:induction false} ScannerCanGoOn(s: State, p: Pid)
    requires BackendOk(s, p, PcOf(s, p)) && PcOf(s, p).Scanning?
    ensures CanGoOn(s, p)
  {
    hide AreVictims, DecayedAll, View;
    var todo := PcOf(s, p).todo;
    if todo == {} {
      assert Enabled(s, Release(p));
    } else {
      var key :| key in todo;
      assert key in s.table.Keys;
      assert Enabled(s, PickEntry(p, key));
    }
  }

  lemma {:induction false} ResetterCanGoOn(s: State, p: Pid)
    requires PcOf(s, p).Resetting?
    ensures CanGoOn(s, p)
  {
    hide AreVictims, DecayedAll, View;
    if s.table == map[] {
      assert Enabled(s, Release(p));
    } else {
      assert s.table.Keys != {};
      var key :| key in s.table.Keys;
      assert Enabled(s, RemoveOne(p, key));
    }
  }

  lemma {:induction false} AtTheTable(s: State, p: Pid)
    requires PcOf(s, p).Updated? || PcOf(s, p).Lookup? || PcOf(s, p).Missed?
    ensures CanGoOn(s, p)
  {
    hide AreVictims, DecayedAll, View;
    var pc := PcOf(s, p);
    if pc.Lookup? {
      assert Enabled(s, Find(p));
    } else if pc.Missed? {
      assert Enabled(s, ReleaseAfterMiss(p));
    } else {
      assert Enabled(s, Release(p));
    }
  }

  lemma {:induction false} TakesSpinlock(s: State, p: Pid)
    requires (PcOf(s, p).HaveEntry? || PcOf(s, p).AtEntry?) && PcOf(s, p).slot in s.entries
    ensures CanGoOn(s, p) || WaitsForEntry(s, p)
  {
    hide AreVictims, DecayedAll, View;
    if s.entries[PcOf(s, p).slot].mutex == None { assert Enabled(s, LockEntry(p)); }
  }

  lemma {:induction false} TakesTableLock(s: State, p: Pid)
    requires var pc := PcOf(s, p); pc.WantShared? || pc.ReaderWants? || pc.WantExclusive? || pc.ResetWants?
    ensures CanGoOn(s, p) || WaitsForTable(s, p)
  {
    hide AreVictims, DecayedAll, View;
    if !WaitsForTable(s, p) {
      var pc := PcOf(s, p);
      assert Enabled(s, if pc.WantShared? || pc.ReaderWants? then AcquireShared(p) else AcquireExclusive(p));
    }
  }

  /** A backend that is not idle can take its next step unless it waits for a lock. */
  lemma {:induction false} OnlyLocksHoldUp(s: State, p: Pid)
    requires Inv(s) && PcOf(s, p) != Idle
    ensures CanGoOn(s, p) || WaitsForTable(s, p) || WaitsForEntry(s, p)
  {
    hide CanGoOn, WaitsForTable, WaitsForEntry, Inv, EntryOk;
    var pc := PcOf(s, p);
    if pc.MakeRoom? {
      RoomCanBeMade(s, p);
    } else if HoldsMutex(pc) {
      WorkerCanGoOn(s, p);
    } else if pc.HaveEntry? || pc.AtEntry? {
      InvAt(s, p);
      TakesSpinlock(s, p);
    } else if pc.WantShared? || pc.ReaderWants? || pc.WantExclusive? || pc.ResetWants? {
      TakesTableLock(s, p);
    } else if pc.Scanning? {
      InvAt(s, p);
      ScannerCanGoOn(s, p);
    } else if pc.Resetting? {
      ResetterCanGoOn(s, p);
    } else {
      AtTheTable(s, p);
    }
  }

  /** Whoever holds up a backend can go on, or is held up at an entry by one who can. */
  lemma {:induction false} HolderOfEntry(s: State, p: Pid) returns (q: Pid)
    requires Inv(s) && WaitsForEntry(s, p)
    ensures CanGoOn(s, q)
  {
    var slot := PcOf(s, p).slot;
    q := s.entries[slot].mutex.value;
    assert EntryOk(s, slot);
    WorkerCanGoOn(s, q);
  }

  lemma {:induction false} HolderOfTable(s: State, p: Pid) returns (q: Pid)
    requires Inv(s) && WaitsForTable(s, p)
    ensures HoldsShared(PcOf(s, q)) || HoldsExclusive(PcOf(s, q))
  {
    if s.exclusive.Some? { q := s.exclusive.value; } else { q :| q in s.shared; }
    InvAt(s, q);
  }

  /** No deadlock: in every state of every run in which some backend is not idle, some backend can go on. */
  lemma {:induction false} SomeoneCanGoOn(run: seq<State>, i: nat, p: Pid)
    requires IsRun(run) && i < |run| && PcOf(run[i], p) != Idle
    ensures exists q :: CanGoOn(run[i], q)
  {
    hide CanGoOn, Inv, IsRun;
    RunKeepsInv(run, i);
    var s := run[i];
    OnlyLocksHoldUp(s, p);
    if WaitsForTable(s, p) {
      var q := HolderOfTable(s, p);
      OnlyLocksHoldUp(s, q);
      if WaitsForEntry(s, q) { var r := HolderOfEntry(s, q); }
    } else if WaitsForEntry(s, p) {
      var q := HolderOfEntry(s, p);
    }
  }
}
