/** The shared table of pg_stat_statements as seen by interleaved backends: one lock over the table,
    one spinlock per entry, entries at reusable places in shared memory. Every step of a backend
    touches shared memory at most once. */
module StatProtocol {
  import opened StatTable
  import opened MapSum

  type Pid = nat

  /** The place of an entry in shared memory. A removed entry's place may be used again. */
  type Slot = nat

  datatype Option<+A> = None | Some(value: A)

  /** What one execution adds. */
  datatype Delta = Delta(time: real, rows: int)

  /** `stable` is a history variable: the counters when the spinlock was last free. */
  datatype Entry = Entry(key: Key, counters: Counters, stable: Counters, mutex: Option<Pid>)

  // ---------------------------------------------------------------- counters, field by field

  const FIELDS := 4

  function LoadField(local: Counters, c: Counters, field: nat): Counters {
    if field == 0 then local.(calls := c.calls)
    else if field == 1 then local.(totalTime := c.totalTime)
    else if field == 2 then local.(rows := c.rows)
    else local.(usage := c.usage)
  }

  /** Writes back one loaded field, increased. */
  function StoreField(c: Counters, local: Counters, d: Delta, field: nat): Counters {
    if field == 0 then c.(calls := local.calls + 1)
    else if field == 1 then c.(totalTime := local.totalTime + d.time)
    else if field == 2 then c.(rows := local.rows + d.rows)
    else c.(usage := local.usage + USAGE_EXEC)
  }

  predicate SameField(a: Counters, b: Counters, field: nat) {
    if field == 0 then a.calls == b.calls
    else if field == 1 then a.totalTime == b.totalTime
    else if field == 2 then a.rows == b.rows
    else a.usage == b.usage
  }

  /** The counters with one execution added in their first so many fields. */
  function Added(c: Counters, d: Delta, fields: nat): Counters {
    Counters(if fields > 0 then c.calls + 1 else c.calls,
             if fields > 1 then c.totalTime + d.time else c.totalTime,
             if fields > 2 then c.rows + d.rows else c.rows,
             if fields > 3 then c.usage + USAGE_EXEC else c.usage)
  }

  // ---------------------------------------------------------------- backends

  /** Where a backend is. `step` counts loads and stores of counter fields. */
  datatype PC =
    | Idle
    | WantShared(key: Key, delta: Delta)
    | Lookup(key: Key, delta: Delta)
    | Missed(key: Key, delta: Delta)
    | WantExclusive(key: Key, delta: Delta)
    | MakeRoom(key: Key, delta: Delta)
    | HaveEntry(key: Key, delta: Delta, slot: Slot, exclusive: bool)
    | Updating(key: Key, delta: Delta, slot: Slot, exclusive: bool, step: nat, local: Counters)
    | Updated(exclusive: bool)
    | ReaderWants
    | Scanning(todo: set<Key>, rows: map<Key, Counters>)
    | AtEntry(todo: set<Key>, rows: map<Key, Counters>, key: Key, slot: Slot)
    | Copying(todo: set<Key>, rows: map<Key, Counters>, key: Key, slot: Slot, step: nat, local: Counters)
    | ResetWants
    | Resetting

  predicate HoldsShared(pc: PC) {
    pc.Lookup? || pc.Missed? || pc.Scanning? || pc.AtEntry? || pc.Copying? ||
    ((pc.HaveEntry? || pc.Updating? || pc.Updated?) && !pc.exclusive)
  }

  predicate HoldsExclusive(pc: PC) {
    pc.MakeRoom? || pc.Resetting? || ((pc.HaveEntry? || pc.Updating? || pc.Updated?) && pc.exclusive)
  }

  /** The backend keeps a pointer to an entry. */
  predicate HasEntry(pc: PC) {
    pc.HaveEntry? || pc.Updating? || pc.AtEntry? || pc.Copying?
  }

  /** The backend reads or writes the counters of its entry. */
  predicate HoldsMutex(pc: PC) {
    pc.Updating? || pc.Copying?
  }

  /** `since`, `completed`, `discarded` and `loaded` are history variables: the calls a key ought to show
      since its entry was last removed, the stores finished, and the calls removed and loaded so far. */
  datatype State = State(
    max: nat,
    table: map<Key, Slot>,
    entries: map<Slot, Entry>,
    exclusive: Option<Pid>,
    shared: set<Pid>,
    pcs: map<Pid, PC>,
    since: map<Key, int>,
    completed: int,
    discarded: int,
    loaded: int)

  function PcOf(s: State, p: Pid): PC {
    if p in s.pcs then s.pcs[p] else Idle
  }

  function Goto(s: State, p: Pid, pc: PC): State {
    s.(pcs := s.pcs[p := pc])
  }

  // ---------------------------------------------------------------- steps

  datatype Step =
    | BeginStore(p: Pid, key: Key, delta: Delta)
    | BeginRead(p: Pid)
    | BeginReset(p: Pid)
    | AcquireShared(p: Pid)
    | AcquireExclusive(p: Pid)
    | Find(p: Pid)
    | ReleaseAfterMiss(p: Pid)
    | Evict(p: Pid, victims: set<Key>)
    | Enter(p: Pid, slot: Slot)
    | LockEntry(p: Pid)
    | TouchField(p: Pid)
    | UnlockEntry(p: Pid)
    | PickEntry(p: Pid, key: Key)
    | RemoveOne(p: Pid, key: Key)
    | Release(p: Pid)
    | LoadEvict(victims: set<Key>)
    | LoadOne(key: Key, counters: Counters, slot: Slot)

  /** The table as a map from keys to counters. */
  function View(s: State): Table {
    map k | k in s.table && s.table[k] in s.entries :: s.entries[s.table[k]].counters
  }

  predicate IsLive(s: State, slot: Slot) {
    slot in s.entries && s.entries[slot].key in s.table && s.table[s.entries[slot].key] == slot
  }

  ghost predicate Quiet(s: State) {
    s.exclusive == None && s.shared == {} && forall p: Pid :: PcOf(s, p) == Idle
  }

  ghost predicate Enabled(s: State, step: Step) {
    match step
    case BeginStore(p, _, _) => PcOf(s, p) == Idle
    case BeginRead(p) => PcOf(s, p) == Idle
    case BeginReset(p) => PcOf(s, p) == Idle
    case AcquireShared(p) => (PcOf(s, p).WantShared? || PcOf(s, p).ReaderWants?) && s.exclusive == None
    case AcquireExclusive(p) =>
      (PcOf(s, p).WantExclusive? || PcOf(s, p).ResetWants?) && s.exclusive == None && s.shared == {}
    case Find(p) => PcOf(s, p).Lookup?
    case ReleaseAfterMiss(p) => PcOf(s, p).Missed?
    case Evict(p, victims) => PcOf(s, p).MakeRoom? && |s.table| >= s.max && AreVictims(DecayedAll(View(s)), victims)
    case Enter(p, slot) =>
      PcOf(s, p).MakeRoom? && |s.table| < s.max && (PcOf(s, p).key !in s.table ==> !IsLive(s, slot))
    case LockEntry(p) =>
      (PcOf(s, p).HaveEntry? || PcOf(s, p).AtEntry?) && PcOf(s, p).slot in s.entries && s.entries[PcOf(s, p).slot].mutex == None
    case TouchField(p) =>
      HasEntry(PcOf(s, p)) && PcOf(s, p).slot in s.entries &&
      ((PcOf(s, p).Updating? && PcOf(s, p).step < 2 * FIELDS) || (PcOf(s, p).Copying? && PcOf(s, p).step < FIELDS))
    case UnlockEntry(p) =>
      HasEntry(PcOf(s, p)) && PcOf(s, p).slot in s.entries &&
      ((PcOf(s, p).Updating? && PcOf(s, p).step == 2 * FIELDS) || (PcOf(s, p).Copying? && PcOf(s, p).step == FIELDS))
    case PickEntry(p, key) => PcOf(s, p).Scanning? && key in PcOf(s, p).todo && key in s.table
    case RemoveOne(p, key) => PcOf(s, p).Resetting? && key in s.table
    case Release(p) =>
      PcOf(s, p).Updated? || (PcOf(s, p).Scanning? && PcOf(s, p).todo == {}) || (PcOf(s, p).Resetting? && s.table == map[])
    case LoadEvict(victims) => Quiet(s) && |s.table| >= s.max && AreVictims(DecayedAll(View(s)), victims)
    case LoadOne(key, _, slot) => Quiet(s) && |s.table| < s.max && (key !in s.table ==> !IsLive(s, slot))
  }

  /** Removes keys from the table; their calls leave the books as discarded. */
  ghost function Drop(s: State, keys: set<Key>): State {
    s.(table := s.table - keys,
       since := s.since - keys,
       discarded := s.discarded + Sum(map k | k in keys && k in s.since :: s.since[k]))
  }

  /** entry_dealloc: every live entry ages, the victims go. */
  function Aged(s: State): State {
    s.(entries := map sl | sl in s.entries ::
                    if IsLive(s, sl)
                    then s.entries[sl].(counters := Decayed(s.entries[sl].counters), stable := Decayed(s.entries[sl].stable))
                    else s.entries[sl])
  }

  /** The hash search that finds a key's entry or sets up a new one at a free place. */
  function Entered(s: State, key: Key, slot: Slot): State {
    if key in s.table then s
    else s.(table := s.table[key := slot],
            entries := s.entries[slot := Entry(key, FRESH, FRESH, None)],
            since := if key in s.since then s.since else s.since[key := 0])
  }

  function SetEntry(s: State, slot: Slot, e: Entry): State {
    s.(entries := s.entries[slot := e])
  }

  function TakeShared(s: State, p: Pid): State
    requires PcOf(s, p).WantShared? || PcOf(s, p).ReaderWants?
  {
    var pc := PcOf(s, p);
    Goto(s.(shared := s.shared + {p}), p,
         if pc.WantShared? then Lookup(pc.key, pc.delta) else Scanning(s.table.Keys, map[]))
  }

  function TakeExclusive(s: State, p: Pid): State
    requires PcOf(s, p).WantExclusive? || PcOf(s, p).ResetWants?
  {
    var pc := PcOf(s, p);
    Goto(s.(exclusive := Some(p)), p, if pc.WantExclusive? then MakeRoom(pc.key, pc.delta) else Resetting)
  }

  function Searched(s: State, p: Pid): State
    requires PcOf(s, p).Lookup?
  {
    var pc := PcOf(s, p);
    Goto(s, p, if pc.key in s.table then HaveEntry(pc.key, pc.delta, s.table[pc.key], false) else Missed(pc.key, pc.delta))
  }

  function LetGo(s: State, p: Pid, next: PC): State {
    Goto(s.(shared := s.shared - {p}, exclusive := if s.exclusive == Some(p) then None else s.exclusive), p, next)
  }

  function Allocated(s: State, p: Pid, slot: Slot): State
    requires PcOf(s, p).MakeRoom?
  {
    var pc := PcOf(s, p);
    var t := Entered(s, pc.key, slot);
    Goto(t, p, HaveEntry(pc.key, pc.delta, t.table[pc.key], true))
  }

  function Spun(s: State, p: Pid): State
    requires (PcOf(s, p).HaveEntry? || PcOf(s, p).AtEntry?) && PcOf(s, p).slot in s.entries
  {
    var pc := PcOf(s, p);
    Goto(SetEntry(s, pc.slot, s.entries[pc.slot].(mutex := Some(p))), p,
         if pc.HaveEntry? then Updating(pc.key, pc.delta, pc.slot, pc.exclusive, 0, FRESH)
         else Copying(pc.todo, pc.rows, pc.key, pc.slot, 0, FRESH))
  }

  /** One load or store of a counter field: a writer alternates, a reader only loads. */
  function Touched(s: State, p: Pid): State
    requires HoldsMutex(PcOf(s, p)) && PcOf(s, p).slot in s.entries
  {
    var pc := PcOf(s, p);
    var e := s.entries[pc.slot];
    if pc.Copying? then
      Goto(s, p, Copying(pc.todo, pc.rows, pc.key, pc.slot, pc.step + 1, LoadField(pc.local, e.counters, pc.step)))
    else if pc.step % 2 == 0 then
      Goto(s, p, Updating(pc.key, pc.delta, pc.slot, pc.exclusive, pc.step + 1, LoadField(pc.local, e.counters, pc.step / 2)))
    else
      Goto(SetEntry(s, pc.slot, e.(counters := StoreField(e.counters, pc.local, pc.delta, pc.step / 2))), p,
           Updating(pc.key, pc.delta, pc.slot, pc.exclusive, pc.step + 1, pc.local))
  }

  function Unspun(s: State, p: Pid): State
    requires HoldsMutex(PcOf(s, p)) && PcOf(s, p).slot in s.entries
  {
    var pc := PcOf(s, p);
    var e := s.entries[pc.slot];
    if pc.Copying? then
      Goto(SetEntry(s, pc.slot, e.(mutex := None)), p, Scanning(pc.todo, pc.rows[pc.key := pc.local]))
    else
      Goto(SetEntry(s, pc.slot, e.(mutex := None, stable := e.counters)), p, Updated(pc.exclusive))
        .(since := if pc.key in s.since then s.since[pc.key := s.since[pc.key] + 1] else s.since, completed := s.completed + 1)
  }

  function Loaded(s: State, key: Key, counters: Counters, slot: Slot): State {
    var t := Entered(s, key, slot);
    SetEntry(t, t.table[key], Entry(key, counters, counters, None))
      .(loaded := s.loaded + counters.calls,
        discarded := s.discarded + (if key in s.since then s.since[key] else 0),
        since := s.since[key := counters.calls])
  }

  ghost function Do(s: State, step: Step): State
    requires Enabled(s, step)
  {
    match step
    case BeginStore(p, key, delta) => Goto(s, p, WantShared(key, delta))
    case BeginRead(p) => Goto(s, p, ReaderWants)
    case BeginReset(p) => Goto(s, p, ResetWants)
    case AcquireShared(p) => TakeShared(s, p)
    case AcquireExclusive(p) => TakeExclusive(s, p)
    case Find(p) => Searched(s, p)
    case ReleaseAfterMiss(p) => LetGo(s, p, WantExclusive(PcOf(s, p).key, PcOf(s, p).delta))
    case Evict(p, victims) => Drop(Aged(s), victims)
    case Enter(p, slot) => Allocated(s, p, slot)
    case LockEntry(p) => Spun(s, p)
    case TouchField(p) => Touched(s, p)
    case UnlockEntry(p) => Unspun(s, p)
    case PickEntry(p, key) => Goto(s, p, AtEntry(PcOf(s, p).todo - {key}, PcOf(s, p).rows, key, s.table[key]))
    case RemoveOne(p, key) => Drop(s, {key})
    case Release(p) => LetGo(s, p, Idle)
    case LoadEvict(victims) => Drop(Aged(s), victims)
    case LoadOne(key, counters, slot) => Loaded(s, key, counters, slot)
  }

  // ---------------------------------------------------------------- invariants

  /** Each key leads to an entry of that key, and the table keeps its bound. */
  ghost predicate TableInv(s: State) {
    && s.max > 0 && |s.table| <= s.max
    && forall k :: k in s.table ==> s.table[k] in s.entries && s.entries[s.table[k]].key == k
  }

  /** The lock is held by those whose place says so, and never shared and exclusively at once. */
  ghost predicate LockInv(s: State) {
    && (s.exclusive.Some? ==> s.shared == {})
    && (forall p: Pid :: p in s.shared <==> HoldsShared(PcOf(s, p)))
    && (forall p: Pid :: s.exclusive == Some(p) <==> HoldsExclusive(PcOf(s, p)))
  }

  /** A backend's pointer is the entry in the table for its key. */
  predicate PointerOk(s: State, pc: PC) {
    HasEntry(pc) ==> pc.key in s.table && s.table[pc.key] == pc.slot && pc.slot in s.entries
  }

  /** How far a backend has got with the counters of its entry, whose spinlock it holds. */
  ghost predicate WorkOk(s: State, p: Pid, pc: PC)
    requires PointerOk(s, pc)
  {
    && (HoldsMutex(pc) ==> s.entries[pc.slot].mutex == Some(p))
    && (pc.Updating? ==>
          var e := s.entries[pc.slot];
          && pc.step <= 2 * FIELDS
          && e.counters == Added(e.stable, pc.delta, pc.step / 2)
          && (pc.step % 2 == 1 ==> SameField(pc.local, e.counters, pc.step / 2)))
    && (pc.Copying? ==>
          var e := s.entries[pc.slot];
          && pc.step <= FIELDS && e.counters == e.stable
          && forall f: nat :: f < pc.step ==> SameField(pc.local, e.stable, f))
  }

  /** A reader's rows and the keys still to come make up the table. */
  predicate ScanOk(s: State, pc: PC) {
    && (pc.Scanning? ==> pc.todo + pc.rows.Keys == s.table.Keys)
    && (pc.AtEntry? || pc.Copying? ==> pc.todo + pc.rows.Keys + {pc.key} == s.table.Keys)
  }

  ghost predicate BackendOk(s: State, p: Pid, pc: PC) {
    PointerOk(s, pc) && WorkOk(s, p, pc) && ScanOk(s, pc)
  }

  /** An entry whose spinlock is free is stable; otherwise the backend at work on it holds it. */
  predicate EntryOk(s: State, slot: Slot)
    requires slot in s.entries
  {
    var e := s.entries[slot];
    match e.mutex
    case None => e.counters == e.stable
    case Some(q) => HoldsMutex(PcOf(s, q)) && PcOf(s, q).slot == slot
  }

  /** Each key shows the calls it ought to, and no call is lost from the books. */
  ghost predicate HistoryInv(s: State)
    requires TableInv(s)
  {
    && s.since.Keys == s.table.Keys
    && (forall k :: k in s.table ==> s.since[k] == s.entries[s.table[k]].stable.calls)
    && Sum(s.since) + s.discarded == s.completed + s.loaded
  }

  ghost predicate BackendInv(s: State) {
    forall p: Pid :: BackendOk(s, p, PcOf(s, p))
  }

  ghost predicate EntryInv(s: State) {
    forall sl :: sl in s.entries ==> EntryOk(s, sl)
  }

  ghost predicate Inv(s: State) {
    TableInv(s) && LockInv(s) && BackendInv(s) && EntryInv(s) && HistoryInv(s)
  }

  // ---------------------------------------------------------------- steps of one backend

  ghost predicate Moves(s: State, t: State, p: Pid, pc: PC) {
    t.pcs == s.pcs[p := pc] && t.max == s.max && t.table == s.table
  }

  /** Only the place of p, and perhaps the lock, changed. */
  ghost predicate OnlyMoves(s: State, t: State, p: Pid, pc: PC) {
    && Moves(s, t, p, pc) && t.entries == s.entries && t.since == s.since
    && t.completed == s.completed && t.discarded == s.discarded && t.loaded == s.loaded
  }

  lemma {:induction false} LockStep(s: State, t: State, p: Pid, pc: PC)
    requires LockInv(s) && t.pcs == s.pcs[p := pc]
    requires HoldsShared(pc) ==> s.exclusive == None || s.exclusive == Some(p)
    requires HoldsExclusive(pc) ==> s.shared <= {p} && (s.exclusive == None || s.exclusive == Some(p))
    requires t.shared == if HoldsShared(pc) then s.shared + {p} else s.shared - {p}
    requires t.exclusive == if HoldsExclusive(pc) then Some(p) else if s.exclusive == Some(p) then None else s.exclusive
    ensures LockInv(t)
  {
    assert forall q: Pid :: PcOf(t, q) == if q == p then pc else PcOf(s, q);
  }

  lemma {:induction false} SameMemoryBackend(s: State, t: State, q: Pid, pc: PC)
    requires BackendOk(s, q, pc) && t.table == s.table && t.entries == s.entries
    ensures BackendOk(t, q, pc)
  {
  }

  lemma {:induction false} SameBooks(s: State, t: State)
    requires TableInv(s) && HistoryInv(s) && t.max == s.max && t.table == s.table && t.entries == s.entries && t.since == s.since
    requires t.completed == s.completed && t.discarded == s.discarded && t.loaded == s.loaded
    ensures TableInv(t) && HistoryInv(t)
  {
    hide Sum;
  }

  lemma {:induction false} MoveStep(s: State, t: State, p: Pid, pc: PC)
    requires Inv(s) && OnlyMoves(s, t, p, pc) && LockInv(t) && BackendOk(t, p, pc)
    requires HoldsMutex(PcOf(s, p)) ==> HoldsMutex(pc) && pc.slot == PcOf(s, p).slot
    ensures Inv(t)
  {
    hide LockInv, TableInv, HistoryInv, BackendOk;
    SameBooks(s, t);
    assert forall q: Pid :: PcOf(t, q) == if q == p then pc else PcOf(s, q);
    forall q: Pid ensures BackendOk(t, q, PcOf(t, q)) {
      assert BackendOk(s, q, PcOf(s, q));
      if q != p { SameMemoryBackend(s, t, q, PcOf(s, q)); }
    }
    forall sl | sl in t.entries ensures EntryOk(t, sl) { assert EntryOk(s, sl); }
  }

  /** The place of p and the entry it works on changed. */
  lemma {:induction false} EntryStep(s: State, t: State, p: Pid, pc: PC, slot: Slot, e: Entry)
    requires Inv(s) && Moves(s, t, p, pc) && LockInv(t)
    requires slot in s.entries && t.entries == s.entries[slot := e] && e.key == s.entries[slot].key
    requires s.entries[slot].mutex == None || s.entries[slot].mutex == Some(p)
    requires HasEntry(PcOf(s, p)) && PcOf(s, p).slot == slot
    requires BackendOk(t, p, pc) && EntryOk(t, slot) && TableInv(t) && HistoryInv(t)
    ensures Inv(t)
  {
    hide LockInv, HistoryInv, TableInv;
    assert forall q: Pid :: PcOf(t, q) == if q == p then pc else PcOf(s, q);
    forall q: Pid ensures BackendOk(t, q, PcOf(t, q)) {
      assert BackendOk(s, q, PcOf(s, q));
      if q != p { OtherBackend(s, t, slot, e, q, PcOf(s, q)); }
    }
    forall sl | sl in t.entries ensures EntryOk(t, sl) { assert EntryOk(s, sl); }
  }

  lemma {:induction false} OtherBackend(s: State, t: State, slot: Slot, e: Entry, q: Pid, pc: PC)
    requires BackendOk(s, q, pc) && t.table == s.table && slot in s.entries && t.entries == s.entries[slot := e]
    requires s.entries[slot].mutex != Some(q)
    ensures BackendOk(t, q, pc)
  {
    assert HoldsMutex(pc) ==> pc.slot != slot;
  }

  lemma {:induction false} BookKept(s: State, t: State, slot: Slot, e: Entry)
    requires TableInv(s) && HistoryInv(s) && t.table == s.table && t.max == s.max && t.since == s.since
    requires t.completed == s.completed && t.discarded == s.discarded && t.loaded == s.loaded
    requires slot in s.entries && t.entries == s.entries[slot := e]
    requires e.key == s.entries[slot].key && e.stable == s.entries[slot].stable
    ensures TableInv(t) && HistoryInv(t)
  {
    hide Sum;
  }

  /** What the invariants say of one backend and its entry. */
  lemma {:induction false} InvAt(s: State, p: Pid)
    requires Inv(s)
    ensures BackendOk(s, p, PcOf(s, p))
    ensures HasEntry(PcOf(s, p)) ==> EntryOk(s, PcOf(s, p).slot)
    ensures p in s.shared <==> HoldsShared(PcOf(s, p))
    ensures s.exclusive == Some(p) <==> HoldsExclusive(PcOf(s, p))
    ensures s.exclusive.Some? ==> s.shared == {}
  {
    assert BackendOk(s, p, PcOf(s, p));
  }

  lemma {:induction false} SameLock(s: State, t: State, p: Pid, pc: PC)
    requires LockInv(s) && t.pcs == s.pcs[p := pc] && t.shared == s.shared && t.exclusive == s.exclusive
    requires HoldsShared(pc) == HoldsShared(PcOf(s, p)) && HoldsExclusive(pc) == HoldsExclusive(PcOf(s, p))
    ensures LockInv(t)
  {
    assert forall q: Pid :: PcOf(t, q) == if q == p then pc else PcOf(s, q);
  }

  lemma {:induction false} KeepsSpun(s: State, p: Pid)
    requires Inv(s) && Enabled(s, LockEntry(p))
    ensures Inv(Spun(s, p))
  {
    hide LockInv, BackendInv, EntryInv, HistoryInv, TableInv;
    InvAt(s, p);
    var pc, t := PcOf(s, p), Spun(s, p);
    SameLock(s, t, p, PcOf(t, p));
    BookKept(s, t, pc.slot, t.entries[pc.slot]);
    EntryStep(s, t, p, PcOf(t, p), pc.slot, t.entries[pc.slot]);
  }

  lemma {:induction false} FieldLoaded(local: Counters, c: Counters, field: nat)
    requires field < FIELDS
    ensures SameField(LoadField(local, c, field), c, field)
    ensures forall f: nat :: f < FIELDS && f != field && SameField(local, c, f) ==> SameField(LoadField(local, c, field), c, f)
  {
  }

  lemma {:induction false} FieldStored(c: Counters, local: Counters, d: Delta, stable: Counters, field: nat)
    requires field < FIELDS && c == Added(stable, d, field) && SameField(local, c, field)
    ensures StoreField(c, local, d, field) == Added(stable, d, field + 1)
  {
  }

  lemma {:induction false} KeepsTouched(s: State, p: Pid)
    requires Inv(s) && Enabled(s, TouchField(p))
    ensures Inv(Touched(s, p))
  {
    hide LockInv, BackendInv, EntryInv, HistoryInv, TableInv, LoadField, StoreField, SameField, Added;
    InvAt(s, p);
    var pc, t := PcOf(s, p), Touched(s, p);
    var e := s.entries[pc.slot];
    SameLock(s, t, p, PcOf(t, p));
    if pc.Copying? {
      FieldLoaded(pc.local, e.counters, pc.step);
      MoveStep(s, t, p, PcOf(t, p));
    } else if pc.step % 2 == 0 {
      FieldLoaded(pc.local, e.counters, pc.step / 2);
      MoveStep(s, t, p, PcOf(t, p));
    } else {
      FieldStored(e.counters, pc.local, pc.delta, e.stable, pc.step / 2);
      BookKept(s, t, pc.slot, t.entries[pc.slot]);
      EntryStep(s, t, p, PcOf(t, p), pc.slot, t.entries[pc.slot]);
    }
  }

  /** A finished store is one more call under its key. */
  lemma {:induction false} StoreBooked(s: State, t: State, key: Key, slot: Slot, e: Entry)
    requires TableInv(s) && HistoryInv(s) && t.table == s.table && t.max == s.max
    requires key in s.table && slot == s.table[key] && t.entries == s.entries[slot := e]
    requires e.key == key && e.stable.calls == s.entries[slot].stable.calls + 1
    requires t.since == s.since[key := s.since[key] + 1] && t.completed == s.completed + 1
    requires t.discarded == s.discarded && t.loaded == s.loaded
    ensures TableInv(t) && HistoryInv(t)
  {
    hide Sum;
    SumPut(s.since, key, s.since[key] + 1);
  }

  lemma {:induction false} KeepsUnspun(s: State, p: Pid)
    requires Inv(s) && Enabled(s, UnlockEntry(p))
    ensures Inv(Unspun(s, p))
  {
    if PcOf(s, p).Copying? { KeepsRowTaken(s, p); } else { KeepsStoreFinished(s, p); }
  }

  lemma {:induction false} KeepsRowTaken(s: State, p: Pid)
    requires Inv(s) && Enabled(s, UnlockEntry(p)) && PcOf(s, p).Copying?
    ensures Inv(Unspun(s, p))
  {
    hide LockInv, BackendInv, EntryInv, TableInv, HistoryInv;
    InvAt(s, p);
    var pc, t := PcOf(s, p), Unspun(s, p);
    SameLock(s, t, p, PcOf(t, p));
    BookKept(s, t, pc.slot, t.entries[pc.slot]);
    EntryStep(s, t, p, PcOf(t, p), pc.slot, t.entries[pc.slot]);
  }

  lemma {:induction false} KeepsStoreFinished(s: State, p: Pid)
    requires Inv(s) && Enabled(s, UnlockEntry(p)) && PcOf(s, p).Updating?
    ensures Inv(Unspun(s, p))
  {
    hide LockInv, BackendInv, EntryInv, TableInv, HistoryInv;
    InvAt(s, p);
    var pc, t := PcOf(s, p), Unspun(s, p);
    SameLock(s, t, p, PcOf(t, p));
    KeyOfEntry(s, pc.key);
    assert s.since.Keys == s.table.Keys by { BookedKeys(s); }
    StoreBooked(s, t, pc.key, pc.slot, t.entries[pc.slot]);
    EntryStep(s, t, p, PcOf(t, p), pc.slot, t.entries[pc.slot]);
  }

  lemma {:induction false} BookedKeys(s: State)
    requires TableInv(s) && HistoryInv(s)
    ensures s.since.Keys == s.table.Keys
  {
  }

  lemma {:induction false} KeyOfEntry(s: State, key: Key)
    requires TableInv(s) && key in s.table
    ensures s.table[key] in s.entries && s.entries[s.table[key]].key == key
  {
  }

  lemma {:induction false} KeepsQuietMoves(s: State, p: Pid, pc: PC)
    requires Inv(s) && !HoldsMutex(PcOf(s, p)) && !HoldsMutex(pc)
    requires HoldsShared(pc) == HoldsShared(PcOf(s, p)) && HoldsExclusive(pc) == HoldsExclusive(PcOf(s, p))
    requires PointerOk(s, pc) && ScanOk(s, pc)
    ensures Inv(Goto(s, p, pc))
  {
    hide LockInv, BackendInv, EntryInv, HistoryInv, TableInv;
    SameLock(s, Goto(s, p, pc), p, pc);
    MoveStep(s, Goto(s, p, pc), p, pc);
  }

  lemma {:induction false} BystanderIsOk(s: State, p: Pid, pc: PC)
    requires Bystander(pc) || pc == Scanning(s.table.Keys, map[])
    ensures BackendOk(s, p, pc)
  {
  }

  lemma {:induction false} SharedTaken(s: State, p: Pid, pc: PC)
    requires Inv(s) && s.exclusive == None && !HoldsMutex(PcOf(s, p))
    requires pc.Lookup? || pc == Scanning(s.table.Keys, map[])
    ensures Inv(Goto(s.(shared := s.shared + {p}), p, pc))
  {
    hide LockInv, BackendInv, EntryInv, HistoryInv, TableInv, BackendOk;
    var t := Goto(s.(shared := s.shared + {p}), p, pc);
    BystanderIsOk(t, p, pc);
    LockStep(s, t, p, pc);
    MoveStep(s, t, p, pc);
  }

  lemma {:induction false} KeepsTakeShared(s: State, p: Pid)
    requires Inv(s) && Enabled(s, AcquireShared(p))
    ensures Inv(TakeShared(s, p))
  {
    hide Inv;
    var pc := PcOf(s, p);
    SharedTaken(s, p, if pc.WantShared? then Lookup(pc.key, pc.delta) else Scanning(s.table.Keys, map[]));
  }

  lemma {:induction false} KeepsTakeExclusive(s: State, p: Pid)
    requires Inv(s) && Enabled(s, AcquireExclusive(p))
    ensures Inv(TakeExclusive(s, p))
  {
    hide LockInv, BackendInv, EntryInv, HistoryInv, TableInv, BackendOk;
    InvAt(s, p);
    var t := TakeExclusive(s, p);
    BystanderIsOk(t, p, PcOf(t, p));
    LockStep(s, t, p, PcOf(t, p));
    MoveStep(s, t, p, PcOf(t, p));
  }

  lemma {:induction false} KeepsLetGo(s: State, p: Pid, pc: PC)
    requires Inv(s) && !HoldsMutex(PcOf(s, p)) && (pc == Idle || pc.WantExclusive?)
    ensures Inv(LetGo(s, p, pc))
  {
    hide LockInv, BackendInv, EntryInv, HistoryInv, TableInv, BackendOk;
    InvAt(s, p);
    var t := LetGo(s, p, pc);
    BystanderIsOk(t, p, pc);
    LockStep(s, t, p, pc);
    MoveStep(s, t, p, pc);
  }

  // ---------------------------------------------------------------- steps that need the table alone

  predicate Bystander(pc: PC) {
    !HasEntry(pc) && !pc.Scanning?
  }

  /** No backend keeps a pointer into the table or scans it. */
  ghost predicate Undisturbed(s: State) {
    forall p: Pid :: Bystander(PcOf(s, p))
  }

  lemma {:induction false} ExclusiveIsUndisturbed(s: State, p: Pid)
    requires LockInv(s) && (PcOf(s, p).MakeRoom? || PcOf(s, p).Resetting?)
    ensures Undisturbed(s)
  {
    assert s.exclusive == Some(p);
    forall q: Pid ensures Bystander(PcOf(s, q)) {
      assert q !in s.shared;
    }
  }

  /** With the table undisturbed, what happens to it leaves lock and backends in order. */
  lemma {:induction false} UndisturbedFrame(s: State, t: State)
    requires LockInv(s) && Undisturbed(s) && t.pcs == s.pcs && t.shared == s.shared && t.exclusive == s.exclusive
    ensures LockInv(t) && BackendInv(t) && Undisturbed(t)
  {
    assert forall q: Pid :: PcOf(t, q) == PcOf(s, q);
  }

  /** Undisturbed entries are unlocked. */
  lemma {:induction false} UndisturbedEntry(s: State, slot: Slot)
    requires EntryInv(s) && Undisturbed(s) && slot in s.entries
    ensures s.entries[slot].mutex == None && s.entries[slot].counters == s.entries[slot].stable
  {
    assert EntryOk(s, slot);
  }

  lemma {:induction false} SizeWithout<V>(m: map<Key, V>, keys: set<Key>)
    requires keys <= m.Keys
    ensures |m - keys| == |m| - |keys|
  {
    assert (m - keys).Keys == m.Keys - keys;
    assert |m - keys| == |(m - keys).Keys| && |m| == |m.Keys|;
  }

  lemma {:induction false} SizeWith<V>(m: map<Key, V>, key: Key, v: V)
    requires key !in m
    ensures |m[key := v]| == |m| + 1
  {
    assert m[key := v].Keys == m.Keys + {key};
    assert |m[key := v]| == |m[key := v].Keys| && |m| == |m.Keys|;
  }

  lemma {:induction false} DropBooked(s: State, keys: set<Key>)
    requires TableInv(s) && HistoryInv(s) && keys <= s.table.Keys
    ensures TableInv(Drop(s, keys)) && HistoryInv(Drop(s, keys))
  {
    hide Sum;
    var t := Drop(s, keys);
    SizeWithout(s.table, keys);
    assert TableInv(t);
    assert (map k | k in keys && k in s.since :: s.since[k]) == (map k | k in keys :: s.since[k]);
    SumSplit(s.since, keys);
  }

  lemma {:induction false} KeepsDrop(s: State, keys: set<Key>)
    requires Inv(s) && Undisturbed(s) && keys <= s.table.Keys
    ensures Inv(Drop(s, keys)) && Undisturbed(Drop(s, keys))
  {
    hide LockInv, BackendInv, HistoryInv, TableInv, EntryInv;
    var t := Drop(s, keys);
    DropBooked(s, keys);
    UndisturbedFrame(s, t);
    assert EntryInv(t) by { SameEntries(s, t); }
  }

  lemma {:induction false} SameEntries(s: State, t: State)
    requires EntryInv(s) && t.entries == s.entries && t.pcs == s.pcs
    ensures EntryInv(t)
  {
    forall sl | sl in t.entries ensures EntryOk(t, sl) { assert EntryOk(s, sl); }
  }

  lemma {:induction false} KeepsAged(s: State)
    requires Inv(s) && Undisturbed(s)
    ensures Inv(Aged(s)) && Undisturbed(Aged(s))
    ensures Aged(s).table == s.table && Aged(s).max == s.max
  {
    hide LockInv, BackendInv, EntryInv;
    var t := Aged(s);
    UndisturbedFrame(s, t);
    assert EntryInv(t) by { AgedEntries(s); }
  }

  lemma {:induction false} AgedEntries(s: State)
    requires EntryInv(s) && Undisturbed(s)
    ensures EntryInv(Aged(s))
  {
    hide EntryInv;
    var t := Aged(s);
    assert forall sl :: sl in t.entries ==> EntryOk(t, sl) by {
      forall sl | sl in t.entries ensures EntryOk(t, sl) { UndisturbedEntry(s, sl); }
    }
    EntriesOk(t);
  }

  lemma {:induction false} EntriesOk(t: State)
    requires forall sl :: sl in t.entries ==> EntryOk(t, sl)
    ensures EntryInv(t)
  {
  }

  lemma {:induction false} EnteredTable(s: State, key: Key, slot: Slot)
    requires TableInv(s) && |s.table| < s.max && key !in s.table && !IsLive(s, slot)
    ensures TableInv(Entered(s, key, slot))
    ensures forall k :: k in s.table ==> s.table[k] != slot
  {
    SizeWith(s.table, key, slot);
  }

  lemma {:induction false} EnteredBooked(s: State, key: Key, slot: Slot)
    requires TableInv(s) && HistoryInv(s) && |s.table| < s.max && key !in s.table && !IsLive(s, slot)
    ensures TableInv(Entered(s, key, slot)) && HistoryInv(Entered(s, key, slot))
  {
    hide Sum;
    EnteredTable(s, key, slot);
    var t := Entered(s, key, slot);
    assert t.since == s.since[key := 0];
    assert forall k :: k in s.table ==> t.entries[t.table[k]] == s.entries[s.table[k]];
    SumPut(s.since, key, 0);
  }

  lemma {:induction false} NewEntryOk(s: State, t: State, slot: Slot, e: Entry)
    requires EntryInv(s) && t.pcs == s.pcs && t.entries == s.entries[slot := e] && e.mutex == None && e.counters == e.stable
    ensures EntryInv(t)
  {
    forall sl | sl in t.entries ensures EntryOk(t, sl) { assert sl in s.entries ==> EntryOk(s, sl); }
  }

  lemma {:induction false} KeepsEntered(s: State, key: Key, slot: Slot)
    requires Inv(s) && Undisturbed(s) && |s.table| < s.max && (key !in s.table ==> !IsLive(s, slot))
    ensures Inv(Entered(s, key, slot)) && Undisturbed(Entered(s, key, slot))
    ensures key in Entered(s, key, slot).table
  {
    if key !in s.table {
      hide LockInv, BackendInv, HistoryInv, TableInv, EntryInv;
      var t := Entered(s, key, slot);
      EnteredBooked(s, key, slot);
      UndisturbedFrame(s, t);
      NewEntryOk(s, t, slot, Entry(key, FRESH, FRESH, None));
    }
  }

  lemma {:induction false} LoadedBooked(m: State, t: State, key: Key, counters: Counters)
    requires TableInv(m) && HistoryInv(m) && key in m.table && t.table == m.table && t.max == m.max
    requires t.entries == m.entries[m.table[key] := Entry(key, counters, counters, None)]
    requires t.since == m.since[key := counters.calls]
    requires t.completed == m.completed && t.loaded == m.loaded + counters.calls && t.discarded == m.discarded + m.since[key]
    ensures TableInv(t) && HistoryInv(t)
  {
    hide Sum;
    SumPut(m.since, key, counters.calls);
  }

  lemma {:induction false} KeepsLoaded(s: State, key: Key, counters: Counters, slot: Slot)
    requires Inv(s) && Undisturbed(s) && |s.table| < s.max && (key !in s.table ==> !IsLive(s, slot))
    ensures Inv(Loaded(s, key, counters, slot))
  {
    hide LockInv, BackendInv, HistoryInv, TableInv, EntryInv, Undisturbed;
    KeepsEntered(s, key, slot);
    BookedKeys(s);
    var m, t := Entered(s, key, slot), Loaded(s, key, counters, slot);
    LoadedOver(s, key, counters, slot);
    LoadedBooked(m, t, key, counters);
    UndisturbedFrame(m, t);
    NewEntryOk(m, t, m.table[key], Entry(key, counters, counters, None));
  }

  /** Loading is entering and then overwriting. */
  lemma {:induction false} LoadedOver(s: State, key: Key, counters: Counters, slot: Slot)
    requires s.since.Keys == s.table.Keys
    ensures var m, t := Entered(s, key, slot), Loaded(s, key, counters, slot);
            && key in m.table && key in m.since && t.table == m.table && t.max == m.max && t.pcs == m.pcs
            && t.shared == m.shared && t.exclusive == m.exclusive
            && t.entries == m.entries[m.table[key] := Entry(key, counters, counters, None)]
            && t.since == m.since[key := counters.calls] && t.completed == m.completed
            && t.loaded == m.loaded + counters.calls && t.discarded == m.discarded + m.since[key]
  {
    assert s.since[key := 0][key := counters.calls] == s.since[key := counters.calls];
  }

  lemma {:induction false} KeepsAllocated(s: State, p: Pid, slot: Slot)
    requires Inv(s) && Enabled(s, Enter(p, slot))
    ensures Inv(Allocated(s, p, slot))
  {
    hide LockInv, BackendInv, EntryInv, HistoryInv;
    ExclusiveIsUndisturbed(s, p);
    var pc := PcOf(s, p);
    KeepsEntered(s, pc.key, slot);
    var t := Entered(s, pc.key, slot);
    KeepsQuietMoves(t, p, HaveEntry(pc.key, pc.delta, t.table[pc.key], true));
  }

  lemma {:induction false} QuietIsUndisturbed(s: State)
    requires Quiet(s)
    ensures Undisturbed(s)
  {
    assert forall p: Pid :: PcOf(s, p) == Idle ==> Bystander(PcOf(s, p));
  }

  lemma {:induction false} KeepsEviction(s: State, victims: set<Key>)
    requires Inv(s) && Undisturbed(s) && AreVictims(DecayedAll(View(s)), victims)
    ensures Inv(Drop(Aged(s), victims))
    ensures |Drop(Aged(s), victims).table| == |s.table| - VictimCount(|s.table|)
  {
    hide LockInv, BackendInv, HistoryInv, EntryInv, Undisturbed;
    KeepsAged(s);
    assert DecayedAll(View(s)).Keys == s.table.Keys;
    assert |DecayedAll(View(s))| == |s.table.Keys| == |s.table|;
    KeepsDrop(Aged(s), victims);
    SizeWithout(s.table, victims);
  }

  lemma {:induction false} KeepsPick(s: State, p: Pid, key: Key)
    requires Inv(s) && Enabled(s, PickEntry(p, key))
    ensures Inv(Do(s, PickEntry(p, key)))
  {
    InvAt(s, p);
    KeyOfEntry(s, key);
    hide LockInv, BackendInv, HistoryInv, EntryInv, TableInv;
    var pc := PcOf(s, p);
    var next := AtEntry(pc.todo - {key}, pc.rows, key, s.table[key]);
    assert ScanOk(s, next) by { assert pc.todo - {key} + pc.rows.Keys + {key} == pc.todo + pc.rows.Keys; }
    KeepsQuietMoves(s, p, next);
  }

  lemma {:induction false} KeepsSearch(s: State, p: Pid)
    requires Inv(s) && Enabled(s, Find(p))
    ensures Inv(Searched(s, p))
  {
    hide LockInv, BackendInv, HistoryInv, EntryInv, TableInv;
    var pc := PcOf(s, p);
    if pc.key in s.table {
      KeyOfEntry(s, pc.key);
      KeepsQuietMoves(s, p, HaveEntry(pc.key, pc.delta, s.table[pc.key], false));
    } else {
      KeepsQuietMoves(s, p, Missed(pc.key, pc.delta));
    }
  }

  /** Every step of every backend keeps the invariants. */
  lemma {:induction false} StepKeepsInv(s: State, step: Step)
    requires Inv(s) && Enabled(s, step)
    ensures Inv(Do(s, step))
  {
    hide LockInv, BackendInv, HistoryInv, EntryInv, TableInv, AreVictims, DecayedAll, View, Undisturbed;
    match step
    case BeginStore(p, key, delta) => KeepsQuietMoves(s, p, WantShared(key, delta));
    case BeginRead(p) => KeepsQuietMoves(s, p, ReaderWants);
    case BeginReset(p) => KeepsQuietMoves(s, p, ResetWants);
    case AcquireShared(p) => KeepsTakeShared(s, p);
    case AcquireExclusive(p) => KeepsTakeExclusive(s, p);
    case Find(p) => KeepsSearch(s, p);
    case ReleaseAfterMiss(p) => KeepsLetGo(s, p, WantExclusive(PcOf(s, p).key, PcOf(s, p).delta));
    case Evict(p, victims) => ExclusiveIsUndisturbed(s, p); KeepsEviction(s, victims);
    case Enter(p, slot) => KeepsAllocated(s, p, slot);
    case LockEntry(p) => KeepsSpun(s, p);
    case TouchField(p) => KeepsTouched(s, p);
    case UnlockEntry(p) => KeepsUnspun(s, p);
    case PickEntry(p, key) => KeepsPick(s, p, key);
    case RemoveOne(p, key) => ExclusiveIsUndisturbed(s, p); KeepsDrop(s, {key});
    case Release(p) => KeepsLetGo(s, p, Idle);
    case LoadEvict(victims) => QuietIsUndisturbed(s); KeepsEviction(s, victims);
    case LoadOne(key, counters, slot) => QuietIsUndisturbed(s); KeepsLoaded(s, key, counters, slot);
  }

  // ---------------------------------------------------------------- runs

  ghost predicate Init(s: State) {
    s == State(s.max, map[], map[], None, {}, map[], map[], 0, 0, 0) && s.max > 0
  }

  ghost predicate Next(s: State, t: State) {
    exists step :: Enabled(s, step) && t == Do(s, step)
  }

  ghost predicate IsRun(run: seq<State>) {
    |run| > 0 && Init(run[0]) && forall i :: 0 < i < |run| ==> Next(run[i - 1], run[i])
  }

  lemma {:induction false} RunKeepsInv(run: seq<State>, i: nat)
    requires IsRun(run) && i < |run|
    ensures Inv(run[i])
  {
    if i == 0 {
      InitInv(run[0]);
    } else {
      hide Inv, Enabled, Do;
      RunKeepsInv(run, i - 1);
      assert Next(run[i - 1], run[i]);
      var step :| Enabled(run[i - 1], step) && run[i] == Do(run[i - 1], step);
      StepKeepsInv(run[i - 1], step);
    }
  }

  lemma {:induction false} InitInv(s: State)
    requires Init(s)
    ensures Inv(s)
  {
    assert forall p: Pid :: PcOf(s, p) == Idle;
    assert BackendInv(s);
  }

  /** In every run, a backend that adds to an entry's counters or copies them holds the table lock and the
      entry's spinlock, alone, and the entry is the one in the table for its key. */
  lemma {:induction false} CountersAreProtected(run: seq<State>, i: nat, p: Pid)
    requires IsRun(run) && i < |run| && HoldsMutex(PcOf(run[i], p))
    ensures var s, pc := run[i], PcOf(run[i], p);
            && (p in s.shared || s.exclusive == Some(p))
            && pc.key in s.table && s.table[pc.key] == pc.slot
            && pc.slot in s.entries && s.entries[pc.slot].key == pc.key && s.entries[pc.slot].mutex == Some(p)
    ensures forall q: Pid :: HoldsMutex(PcOf(run[i], q)) && PcOf(run[i], q).slot == PcOf(run[i], p).slot ==> q == p
  {
    RunKeepsInv(run, i);
    var s := run[i];
    InvAt(s, p);
    KeyOfEntry(s, PcOf(s, p).key);
    forall q: Pid | HoldsMutex(PcOf(s, q)) && PcOf(s, q).slot == PcOf(s, p).slot ensures q == p {
      InvAt(s, q);
    }
  }

  /** Who may change the counters of a key's entry: the backend that holds its spinlock and the table lock; one
      that makes room, without spinlocks, under the exclusive table lock; the loading before any backend is at work. */
  ghost predicate MayWrite(s: State, step: Step, key: Key)
    requires key in s.table && s.table[key] in s.entries
  {
    || (step.TouchField? && (step.p in s.shared || s.exclusive == Some(step.p)) &&
        s.entries[s.table[key]].mutex == Some(step.p))
    || (step.Evict? && s.exclusive == Some(step.p))
    || (step.LoadEvict? && Quiet(s))
    || (step.LoadOne? && step.key == key && Quiet(s))
  }

  /** The entry of the key, if still in the table, is at the same place with the same counters. */
  ghost predicate SameCounters(s: State, t: State, key: Key)
    requires key in s.table && s.table[key] in s.entries
  {
    key in t.table ==> t.table[key] == s.table[key] && t.table[key] in t.entries &&
                       t.entries[t.table[key]].counters == s.entries[s.table[key]].counters
  }

  lemma {:induction false} TouchedCounters(s: State, p: Pid, key: Key)
    requires Inv(s) && Enabled(s, TouchField(p)) && key in s.table && s.table[key] in s.entries
    ensures SameCounters(s, Touched(s, p), key) || MayWrite(s, TouchField(p), key)
  {
    InvAt(s, p);
    hide LockInv, BackendInv, HistoryInv, EntryInv, TableInv, LoadField, StoreField;
  }

  lemma {:induction false} EnteredCounters(s: State, other: Key, slot: Slot, key: Key)
    requires TableInv(s) && (other !in s.table ==> !IsLive(s, slot)) && key in s.table && s.table[key] in s.entries
    ensures SameCounters(s, Entered(s, other, slot), key)
  {
  }

  lemma {:induction false} LoadedCounters(s: State, other: Key, counters: Counters, slot: Slot, key: Key)
    requires TableInv(s) && (other !in s.table ==> !IsLive(s, slot)) && key in s.table && s.table[key] in s.entries && key != other
    ensures SameCounters(s, Loaded(s, other, counters, slot), key)
  {
  }

  lemma {:induction false} LockedCounters(s: State, step: Step, key: Key)
    requires Enabled(s, step) && (step.LockEntry? || step.UnlockEntry?) && key in s.table && s.table[key] in s.entries
    ensures SameCounters(s, Do(s, step), key)
  {
    hide LoadField, StoreField, AreVictims;
  }

  /** Steps that change only the place of a backend and the table lock. */
  predicate OnlyGoes(step: Step) {
    step.BeginStore? || step.BeginRead? || step.BeginReset? || step.AcquireShared? || step.AcquireExclusive? ||
    step.Find? || step.ReleaseAfterMiss? || step.PickEntry? || step.Release?
  }

  lemma {:induction false} GoesOnly(s: State, step: Step)
    requires Enabled(s, step) && OnlyGoes(step)
    ensures var t := Do(s, step); t.table == s.table && t.entries == s.entries && t.since == s.since
  {
    hide AreVictims, DecayedAll, View, Drop, Aged, Entered, Touched, Spun, Unspun, Loaded;
  }

  lemma {:induction false} MovedCounters(s: State, t: State, key: Key)
    requires t.table == s.table && t.entries == s.entries && key in s.table && s.table[key] in s.entries
    ensures SameCounters(s, t, key)
  {
  }

  lemma {:induction false} DroppedCounters(s: State, keys: set<Key>, key: Key)
    requires key in s.table && s.table[key] in s.entries
    ensures SameCounters(s, Drop(s, keys), key)
  {
    hide Sum;
  }

  /** Every step that changes the counters of an entry in the table is one that may. */
  lemma {:induction false} WritersAreProtected(s: State, step: Step, key: Key)
    requires Inv(s) && Enabled(s, step) && key in s.table && s.table[key] in s.entries
    ensures SameCounters(s, Do(s, step), key) || MayWrite(s, step, key)
  {
    hide LockInv, BackendInv, HistoryInv, EntryInv, TableInv, AreVictims, DecayedAll, View, SameCounters;
    hide Drop, Aged, Entered, Touched, Spun, Unspun, Loaded;
    if OnlyGoes(step) {
      GoesOnly(s, step);
      MovedCounters(s, Do(s, step), key);
    } else if step.Evict? {
      InvAt(s, step.p);
    } else if step.Enter? {
      EnteredCounters(s, PcOf(s, step.p).key, step.slot, key);
      StillSame(s, Entered(s, PcOf(s, step.p).key, step.slot), Do(s, step), key);
    } else if step.LockEntry? || step.UnlockEntry? {
      LockedCounters(s, step, key);
    } else if step.TouchField? {
      TouchedCounters(s, step.p, key);
    } else if step.RemoveOne? {
      DroppedCounters(s, {step.key}, key);
    } else if step.LoadOne? && step.key != key {
      LoadedCounters(s, step.key, step.counters, step.slot, key);
    }
  }

  lemma {:induction false} StillSame(s: State, t: State, u: State, key: Key)
    requires key in s.table && s.table[key] in s.entries && SameCounters(s, t, key)
    requires u.table == t.table && u.entries == t.entries
    ensures SameCounters(s, u, key)
  {
  }

  /** The step from s to t is one that may change the counters of the key's entry. */
  ghost predicate WrittenUnderLock(s: State, t: State, key: Key)
    requires key in s.table && s.table[key] in s.entries
  {
    exists step :: Enabled(s, step) && t == Do(s, step) && MayWrite(s, step, key)
  }

  lemma {:induction false} NextWrites(s: State, t: State, key: Key)
    requires Inv(s) && Next(s, t) && key in s.table && s.table[key] in s.entries
    ensures SameCounters(s, t, key) || WrittenUnderLock(s, t, key)
  {
    hide Inv, Enabled, Do, MayWrite, SameCounters;
    var step :| Enabled(s, step) && t == Do(s, step);
    WritersAreProtected(s, step, key);
  }

  /** In every run, counters of an entry in the table change only under the locks that protect them. */
  lemma {:induction false} CountersChangeUnderLock(run: seq<State>, i: nat, key: Key)
    requires IsRun(run) && 0 < i < |run| && key in run[i - 1].table && key in run[i].table
    ensures key in View(run[i - 1]) && key in View(run[i])
    ensures View(run[i])[key] != View(run[i - 1])[key] ==> WrittenUnderLock(run[i - 1], run[i], key)
  {
    hide LockInv, BackendInv, EntryInv, HistoryInv, Next, WrittenUnderLock;
    RunKeepsInv(run, i - 1);
    RunKeepsInv(run, i);
    KeyOfEntry(run[i - 1], key);
    KeyOfEntry(run[i], key);
    assert Next(run[i - 1], run[i]);
    NextWrites(run[i - 1], run[i], key);
  }

  /** The table lock: never held exclusively by two backends, nor exclusively and shared at once. */
  lemma {:induction false} ExclusiveIsExclusive(run: seq<State>, i: nat, p: Pid, q: Pid)
    requires IsRun(run) && i < |run| && p != q && HoldsExclusive(PcOf(run[i], p))
    ensures !HoldsExclusive(PcOf(run[i], q)) && !HoldsShared(PcOf(run[i], q))
  {
    RunKeepsInv(run, i);
    InvAt(run[i], p);
    InvAt(run[i], q);
  }

  ghost function CallsShown(s: State): map<Key, int>
    requires TableInv(s)
  {
    map k | k in s.table :: s.entries[s.table[k]].stable.calls
  }

  /** The calls in the shared counters themselves. */
  ghost function CallsNow(s: State): map<Key, int>
    requires TableInv(s)
  {
    map k | k in s.table :: s.entries[s.table[k]].counters.calls
  }

  /** A backend at work on this entry has counted its call but not let go of the entry. */
  predicate CountedAlready(s: State, e: Entry) {
    e.mutex.Some? && PcOf(s, e.mutex.value).Updating? && PcOf(s, e.mutex.value).step >= 2
  }

  ghost function Unfinished(s: State): set<Key>
    requires TableInv(s)
  {
    set k | k in s.table && CountedAlready(s, s.entries[s.table[k]])
  }

  lemma {:induction false} CallsOfEntry(s: State, key: Key)
    requires Inv(s) && key in s.table
    ensures CallsNow(s)[key] == CallsShown(s)[key] + if key in Unfinished(s) then 1 else 0
  {
    var slot := s.table[key];
    assert EntryOk(s, slot);
    if s.entries[slot].mutex.Some? { InvAt(s, s.entries[slot].mutex.value); }
    hide LockInv, BackendInv, HistoryInv, EntryInv;
  }

  /** In every state of every run the table keeps its bound, and the calls in its counters together with the
      calls removed or overwritten are the stores finished, the calls loaded, and one for each store under way
      that has already counted its call. */
  lemma {:induction false} BooksBalance(run: seq<State>, i: nat)
    requires IsRun(run) && i < |run|
    ensures TableInv(run[i]) && |run[i].table| <= run[i].max
    ensures Sum(CallsNow(run[i])) + run[i].discarded == run[i].completed + run[i].loaded + |Unfinished(run[i])|
  {
    var s := run[i];
    RunKeepsInv(run, i);
    assert CallsShown(s) == s.since;
    forall k | k in s.table ensures CallsNow(s)[k] == s.since[k] + if k in Unfinished(s) then 1 else 0 { CallsOfEntry(s, k); }
    hide Sum, Inv, LockInv, BackendInv, EntryInv;
    SumBumped(s.since, CallsNow(s), Unfinished(s));
  }

  /** Counters are what their key ought to show whenever nobody is at work on them. */
  lemma {:induction false} UnlockedCountersAreExact(run: seq<State>, i: nat, key: Key)
    requires IsRun(run) && i < |run| && key in run[i].table
    ensures var s := run[i];
            && s.table[key] in s.entries && key in s.since
            && (s.entries[s.table[key]].mutex == None ==> s.entries[s.table[key]].counters.calls == s.since[key])
  {
    RunKeepsInv(run, i);
    assert EntryOk(run[i], run[i].table[key]);
  }

  /** As long as a key stays in the table and is not loaded over, no step takes calls from it: a finished
      store adds one, everything else, another backend's search for room or entry included, leaves them. */
  lemma {:induction false} CallsAreNeverReset(s: State, step: Step, key: Key)
    requires Inv(s) && Enabled(s, step) && key in s.table && key in Do(s, step).table
    requires !(step.LoadOne? && step.key == key)
    ensures TableInv(Do(s, step))
    ensures CallsShown(Do(s, step))[key] == CallsShown(s)[key] +
            (if step.UnlockEntry? && PcOf(s, step.p).Updating? && PcOf(s, step.p).key == key then 1 else 0)
  {
    hide LockInv, BackendInv, EntryInv, Do, Enabled;
    StepKeepsInv(s, step);
    SinceStep(s, step, key);
  }

  lemma {:induction false} SinceStep(s: State, step: Step, key: Key)
    requires s.since.Keys == s.table.Keys && Enabled(s, step) && key in s.table && key in Do(s, step).table
    requires !(step.LoadOne? && step.key == key)
    ensures key in Do(s, step).since
    ensures Do(s, step).since[key] == s.since[key] +
            (if step.UnlockEntry? && PcOf(s, step.p).Updating? && PcOf(s, step.p).key == key then 1 else 0)
  {
    if step.UnlockEntry? {
      SinceUnspun(s, step.p, key);
    } else {
      SinceElse(s, step, key);
    }
  }

  lemma {:induction false} SinceUnspun(s: State, p: Pid, key: Key)
    requires Enabled(s, UnlockEntry(p)) && key in s.since
    ensures key in Unspun(s, p).since
    ensures Unspun(s, p).since[key] == s.since[key] + if PcOf(s, p).Updating? && PcOf(s, p).key == key then 1 else 0
  {
    hide AreVictims;
  }

  lemma {:induction false} SinceDrop(s: State, keys: set<Key>, key: Key)
    requires key in s.since && key in Drop(s, keys).table
    ensures key in Drop(s, keys).since && Drop(s, keys).since[key] == s.since[key]
  {
    hide Sum;
  }

  lemma {:induction false} SinceEntered(s: State, other: Key, slot: Slot, key: Key)
    requires key in s.since
    ensures key in Entered(s, other, slot).since && Entered(s, other, slot).since[key] == s.since[key]
  {
  }

  lemma {:induction false} SinceElse(s: State, step: Step, key: Key)
    requires s.since.Keys == s.table.Keys && Enabled(s, step) && key in s.table && key in Do(s, step).table
    requires !(step.LoadOne? && step.key == key) && !step.UnlockEntry?
    ensures key in Do(s, step).since && Do(s, step).since[key] == s.since[key]
  {
    hide AreVictims, DecayedAll, View, Drop, Entered, Unspun, LoadField, StoreField;
    if OnlyGoes(step) {
      GoesOnly(s, step);
    } else if step.Evict? || step.LoadEvict? {
      SinceDrop(Aged(s), step.victims, key);
    } else if step.Enter? {
      SinceEntered(s, PcOf(s, step.p).key, step.slot, key);
    } else if step.RemoveOne? {
      SinceDrop(s, {step.key}, key);
    }
  }

  // ---------------------------------------------------------------- making room

  lemma {:induction false} SortedListExists(t: Table, keys: set<Key>) returns (sorted: seq<Key>)
    requires keys <= t.Keys
    ensures Lists(sorted, keys) && ByUsage(t, sorted)
    decreases keys
  {
    if keys == {} {
      sorted := [];
    } else {
      var most := MostUsed(t, keys);
      var rest := SortedListExists(t, keys - {most});
      ListSnoc(t, rest, keys - {most}, most);
      assert keys - {most} + {most} == keys;
      sorted := rest + [most];
    }
  }

  lemma {:induction false} MostUsed(t: Table, keys: set<Key>) returns (most: Key)
    requires keys != {} && keys <= t.Keys
    ensures most in keys && forall k :: k in keys ==> t[k].usage <= t[most].usage
    decreases keys
  {
    var first :| first in keys;
    var rest := keys - {first};
    assert forall k :: k in keys ==> k == first || k in rest;
    most := first;
    if rest != {} {
      var other := MostUsed(t, rest);
      if t[other].usage > t[first].usage { most := other; }
    }
  }

  /** A backend that finds the table full can always evict, and one eviction is enough: after it the
      table has room, so the loop that makes space ends. */
  lemma {:induction false} OneEvictionMakesRoom(run: seq<State>, i: nat, p: Pid)
    requires IsRun(run) && i < |run| && PcOf(run[i], p).MakeRoom? && |run[i].table| >= run[i].max
    ensures exists victims :: Enabled(run[i], Evict(p, victims))
    ensures forall victims :: Enabled(run[i], Evict(p, victims)) ==>
              |Do(run[i], Evict(p, victims)).table| < run[i].max
  {
    RunKeepsInv(run, i);
    var s := run[i];
    var aged := DecayedAll(View(s));
    var sorted := SortedListExists(aged, aged.Keys);
    PrefixAreVictims(aged, sorted);
    assert Enabled(s, Evict(p, KeySet(sorted[..VictimCount(|aged|)])));
    forall victims | Enabled(s, Evict(p, victims))
      ensures |Do(s, Evict(p, victims)).table| < s.max
    {
      ExclusiveIsUndisturbed(s, p);
      KeepsEviction(s, victims);
    }
  }

  lemma {:induction false} AgedView(s: State)
    requires TableInv(s)
    ensures View(Aged(s)) == DecayedAll(View(s))
  {
  }

  lemma {:induction false} DropView(s: State, keys: set<Key>)
    ensures View(Drop(s, keys)) == View(s) - keys
  {
    hide Sum;
  }

  lemma {:induction false} EnteredView(s: State, key: Key, slot: Slot)
    requires TableInv(s) && |s.table| < s.max && (key !in s.table ==> !IsLive(s, slot))
    ensures View(Entered(s, key, slot)) == FindOrCreate(View(s), key)
  {
    if key !in s.table {
      EnteredTable(s, key, slot);
    }
  }

  /** Seen as maps from keys to counters, the eviction and entry steps are what entry_dealloc and
      entry_alloc do to the table. */
  lemma {:induction false} EvictStepIsDealloc(s: State, p: Pid, victims: set<Key>)
    requires Inv(s) && Enabled(s, Evict(p, victims))
    ensures Evicts(View(s), View(Do(s, Evict(p, victims))), victims)
  {
    hide LockInv, BackendInv, EntryInv, HistoryInv, TableInv, AreVictims, View, Drop, Aged, DecayedAll;
    AgedView(s);
    DropView(Aged(s), victims);
  }

  lemma {:induction false} EnterStepIsAlloc(s: State, p: Pid, slot: Slot)
    requires Inv(s) && Enabled(s, Enter(p, slot))
    ensures View(Do(s, Enter(p, slot))) == FindOrCreate(View(s), PcOf(s, p).key)
  {
    hide LockInv, BackendInv, EntryInv, HistoryInv, TableInv, Entered;
    EnteredView(s, PcOf(s, p).key, slot);
  }

  // ---------------------------------------------------------------- readers

  /** A row a reader takes is the whole of its entry's counters at one moment, no store half done. */
  lemma {:induction false} RowsAreNotTorn(run: seq<State>, i: nat, p: Pid)
    requires IsRun(run) && i < |run| && PcOf(run[i], p).Copying? && PcOf(run[i], p).step == FIELDS
    ensures var s, pc := run[i], PcOf(run[i], p);
            pc.slot in s.entries && pc.local == s.entries[pc.slot].counters == s.entries[pc.slot].stable
  {
    RunKeepsInv(run, i);
    InvAt(run[i], p);
    var pc := PcOf(run[i], p);
    var e := run[i].entries[pc.slot];
    assert SameField(pc.local, e.stable, 0) && SameField(pc.local, e.stable, 1);
    assert SameField(pc.local, e.stable, 2) && SameField(pc.local, e.stable, 3);
  }

  /** A reader that has finished has a row for every key in the table and for no other. */
  lemma {:induction false} RowsCoverTable(run: seq<State>, i: nat, p: Pid)
    requires IsRun(run) && i < |run| && PcOf(run[i], p).Scanning? && PcOf(run[i], p).todo == {}
    ensures PcOf(run[i], p).rows.Keys == run[i].table.Keys
  {
    RunKeepsInv(run, i);
    InvAt(run[i], p);
    assert {} + PcOf(run[i], p).rows.Keys == PcOf(run[i], p).rows.Keys;
  }
}
