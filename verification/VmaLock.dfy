/**
 The per-VMA lock of include/linux/mm.h as interleaved atomic steps of any number of threads.

 A reader takes a VMA without the mmap lock by comparing two sequence numbers; a writer holds the
 mmap lock and marks each VMA it locks with the current number. Both locks (`mmap_lock` and the
 read-write semaphore of each VMA) are read off the program counters of the threads that hold them.

 `m` is the number of distinct sequence numbers; 0 stands for numbers that never wrap around.
 `epoch` and `stamp` are history variables: how often the mmap write lock has been given up, and when
 a VMA was last write-locked. The protocol compares only `mmSeq` and `lockSeq`.
 */
module VmaLock {
  import opened Options

  type Tid = int
  type VmaId = int
  type Flags = set<nat>

  datatype Vma = Vma(lockSeq: int, stamp: int, flags: Flags)

  datatype Pc =
    | Idle
      // vma_start_read, vma_end_read
    | Probe(v: VmaId, q: int)        // vm_lock_seq loaded without a lock
    | TryLock(v: VmaId)              // the early check passed
    | ReadLocked(v: VmaId)           // down_read_trylock succeeded
    | Recheck(v: VmaId, q: int)      // vm_lock_seq loaded under the read lock
    | Backoff(v: VmaId)              // the second check failed, up_read is next
    | Reading(v: VmaId, seen: Flags) // vma_start_read returned true when the flags were `seen`
      // the fallback: the mmap lock for reading
    | MmapReading(all: map<VmaId, Flags>)
      // a holder of the mmap lock for writing
    | Writing
    | Entering(v: VmaId, q: int)     // vma_start_write: mm_lock_seq loaded
    | Waiting(v: VmaId, q: int)      // not write-locked yet, down_write is next
    | Stamping(v: VmaId, q: int)     // down_write succeeded
    | Stamped(v: VmaId)              // vm_lock_seq stored, up_write is next
    | Modify(v: VmaId)               // vma_start_write returned
    | Releasing                      // mm_lock_seq bumped, mmap lock still held

  datatype State = State(epoch: int, mmSeq: int, vmas: map<VmaId, Vma>, pcs: map<Tid, Pc>)

  datatype Event =
    | ReadProbe(t: Tid, v: VmaId) | ReadCheck(t: Tid) | ReadTry(t: Tid, ok: bool) | ReadLoad(t: Tid)
    | ReadDecide(t: Tid) | ReadBackoff(t: Tid) | ReadEnd(t: Tid)
    | MmapReadLock(t: Tid) | MmapReadUnlock(t: Tid)
    | MmapWriteLock(t: Tid) | EndWriteAll(t: Tid) | MmapWriteUnlock(t: Tid) | MmapDowngrade(t: Tid)
    | StartWrite(t: Tid, v: VmaId) | StartCheck(t: Tid) | DownWrite(t: Tid) | StoreSeq(t: Tid) | UpWrite(t: Tid)
    | StartDone(t: Tid) | SetFlags(t: Tid, f: Flags) | ClearFlags(t: Tid, f: Flags) | ModFlags(t: Tid, f: Flags, clear: Flags)
    | ResetFlags(t: Tid, v: VmaId, f: Flags) | Attach(t: Tid, v: VmaId, f: Flags)

  /** The increment of mm_lock_seq. */
  function Bump(m: nat, q: int): int {
    if m > 0 && q + 1 == m then 0 else q + 1
  }

  /** The number in use after `e` increments from 0; -1 is the number before 0. */
  function Number(m: nat, e: int): int
    requires -1 <= e
  {
    if e == -1 then (if m == 0 then -1 else m - 1)
    else if e == 0 then 0
    else Bump(m, Number(m, e - 1))
  }

  predicate HoldsMmapWrite(pc: Pc) {
    pc.Writing? || pc.Entering? || pc.Waiting? || pc.Stamping? || pc.Stamped? || pc.Modify? || pc.Releasing?
  }

  predicate HoldsRead(pc: Pc, v: VmaId) {
    (pc.ReadLocked? || pc.Recheck? || pc.Backoff? || pc.Reading?) && pc.v == v
  }

  predicate HoldsWrite(pc: Pc, v: VmaId) {
    (pc.Stamping? || pc.Stamped?) && pc.v == v
  }

  function FlagsOf(s: State): map<VmaId, Flags> {
    map v | v in s.vmas :: s.vmas[v].flags
  }

  function WithFlags(s: State, t: Tid, v: VmaId, f: Flags): State
    requires v in s.vmas
  {
    s.(vmas := s.vmas[v := s.vmas[v].(flags := f)], pcs := s.pcs[t := Writing])
  }

  ghost predicate Init(m: nat, s: State) {
    && s.epoch == 0 && s.mmSeq == 0
    && (forall v <- s.vmas :: s.vmas[v].stamp == -1 && s.vmas[v].lockSeq == Number(m, -1))
    && (forall t <- s.pcs :: s.pcs[t] == Idle)
  }

  ghost predicate Next(m: nat, s: State, e: Event, s': State) {
    && e.t in s.pcs
    && var pc := s.pcs[e.t];
       match e
       case ReadProbe(t, v) =>
         pc.Idle? && v in s.vmas && s' == s.(pcs := s.pcs[t := Probe(v, s.vmas[v].lockSeq)])
       case ReadCheck(t) =>
         pc.Probe? && s' == s.(pcs := s.pcs[t := if pc.q == s.mmSeq then Idle else TryLock(pc.v)])
       case ReadTry(t, ok) =>
         && pc.TryLock?
         && (ok ==> forall u <- s.pcs :: !HoldsWrite(s.pcs[u], pc.v))
         && s' == s.(pcs := s.pcs[t := if ok then ReadLocked(pc.v) else Idle])
       case ReadLoad(t) =>
         pc.ReadLocked? && pc.v in s.vmas && s' == s.(pcs := s.pcs[t := Recheck(pc.v, s.vmas[pc.v].lockSeq)])
       case ReadDecide(t) =>
         && pc.Recheck? && pc.v in s.vmas
         && s' == s.(pcs := s.pcs[t := if pc.q == s.mmSeq then Backoff(pc.v) else Reading(pc.v, s.vmas[pc.v].flags)])
       case ReadBackoff(t) => pc.Backoff? && s' == s.(pcs := s.pcs[t := Idle])
       case ReadEnd(t) => pc.Reading? && s' == s.(pcs := s.pcs[t := Idle])
       case MmapReadLock(t) =>
         && pc.Idle? && (forall u <- s.pcs :: !HoldsMmapWrite(s.pcs[u]))
         && s' == s.(pcs := s.pcs[t := MmapReading(FlagsOf(s))])
       case MmapReadUnlock(t) => pc.MmapReading? && s' == s.(pcs := s.pcs[t := Idle])
       case MmapWriteLock(t) =>
         && pc.Idle? && (forall u <- s.pcs :: !HoldsMmapWrite(s.pcs[u]) && !s.pcs[u].MmapReading?)
         && s' == s.(pcs := s.pcs[t := Writing])
       case EndWriteAll(t) =>
         && pc.Writing?
         && s' == s.(epoch := s.epoch + 1, mmSeq := Bump(m, s.mmSeq), pcs := s.pcs[t := Releasing])
       case MmapWriteUnlock(t) => pc.Releasing? && s' == s.(pcs := s.pcs[t := Idle])
       case MmapDowngrade(t) => pc.Releasing? && s' == s.(pcs := s.pcs[t := MmapReading(FlagsOf(s))])
       case StartWrite(t, v) =>
         pc.Writing? && v in s.vmas && s' == s.(pcs := s.pcs[t := Entering(v, s.mmSeq)])
       case StartCheck(t) =>
         && pc.Entering? && pc.v in s.vmas
         && s' == s.(pcs := s.pcs[t := if s.vmas[pc.v].lockSeq == pc.q then Modify(pc.v) else Waiting(pc.v, pc.q)])
       case DownWrite(t) =>
         && pc.Waiting?
         && (forall u <- s.pcs :: !HoldsRead(s.pcs[u], pc.v) && !HoldsWrite(s.pcs[u], pc.v))
         && s' == s.(pcs := s.pcs[t := Stamping(pc.v, pc.q)])
       case StoreSeq(t) =>
         && pc.Stamping? && pc.v in s.vmas
         && s' == s.(vmas := s.vmas[pc.v := s.vmas[pc.v].(lockSeq := pc.q, stamp := s.epoch)], pcs := s.pcs[t := Stamped(pc.v)])
       case UpWrite(t) => pc.Stamped? && s' == s.(pcs := s.pcs[t := Modify(pc.v)])
       case StartDone(t) => pc.Modify? && s' == s.(pcs := s.pcs[t := Writing])
       case SetFlags(t, f) => pc.Modify? && pc.v in s.vmas && s' == WithFlags(s, t, pc.v, s.vmas[pc.v].flags + f)
       case ClearFlags(t, f) => pc.Modify? && pc.v in s.vmas && s' == WithFlags(s, t, pc.v, s.vmas[pc.v].flags - f)
       case ModFlags(t, f, clear) => pc.Modify? && pc.v in s.vmas && s' == WithFlags(s, t, pc.v, s.vmas[pc.v].flags + f - clear)
       case ResetFlags(t, v, f) =>
         pc.Writing? && v in s.vmas && s.vmas[v].lockSeq == s.mmSeq && s' == WithFlags(s, t, v, f)
       case Attach(t, v, f) =>
         pc.Writing? && v !in s.vmas && s' == s.(vmas := s.vmas[v := Vma(Number(m, -1), -1, f)])
  }

  ghost predicate Run(m: nat, states: seq<State>, events: seq<Event>) {
    && |states| == |events| + 1
    && Init(m, states[0])
    && forall i :: 0 <= i < |events| ==> Next(m, states[i], events[i], states[i + 1])
  }

  /** The sequence numbers used so far, counting the initial -1, are all different. */
  predicate NoWrap(m: nat, epoch: int) {
    m == 0 || epoch + 1 < m
  }

  // ---------------------------------------------------------------------------------------------
  // The invariant

  ghost predicate Numbers(m: nat, s: State) {
    && 0 <= s.epoch && s.mmSeq == Number(m, s.epoch)
    && forall v <- s.vmas :: -1 <= s.vmas[v].stamp <= s.epoch && s.vmas[v].lockSeq == Number(m, s.vmas[v].stamp)
  }

  ghost predicate MmapLock(s: State) {
    forall t, u :: t in s.pcs && u in s.pcs && t != u && HoldsMmapWrite(s.pcs[t])
      ==> !HoldsMmapWrite(s.pcs[u]) && !s.pcs[u].MmapReading?
  }

  ghost predicate VmaLocks(s: State) {
    forall t, u, v :: t in s.pcs && u in s.pcs && HoldsWrite(s.pcs[t], v) ==> !HoldsRead(s.pcs[u], v)
  }

  /** What each thread may rely on at its program counter. */
  ghost predicate Knows(s: State, pc: Pc) {
    match pc
    case Idle => true
    case Probe(v, _) => v in s.vmas
    case TryLock(v) => v in s.vmas
    case ReadLocked(v) => v in s.vmas
    case Recheck(v, q) => v in s.vmas && q == s.vmas[v].lockSeq
    case Backoff(v) => v in s.vmas
    case Reading(v, seen) => v in s.vmas && s.vmas[v].stamp < s.epoch && s.vmas[v].flags == seen
    case MmapReading(all) => all == FlagsOf(s)
    case Writing => true
    case Entering(v, q) => v in s.vmas && q == s.mmSeq
    case Waiting(v, q) => v in s.vmas && q == s.mmSeq
    case Stamping(v, q) => v in s.vmas && q == s.mmSeq
    case Stamped(v) => v in s.vmas && s.vmas[v].stamp == s.epoch
    case Modify(v) => v in s.vmas && s.vmas[v].stamp == s.epoch
    case Releasing => forall v <- s.vmas :: s.vmas[v].stamp < s.epoch
  }

  ghost predicate LockHeld(s: State) {
    exists t :: t in s.pcs && HoldsMmapWrite(s.pcs[t]) && !s.pcs[t].Releasing?
  }

  /** Only while the mmap lock is held for writing can a VMA carry the current stamp. */
  ghost predicate StampsNeedLock(s: State) {
    forall v <- s.vmas :: s.vmas[v].stamp == s.epoch ==> LockHeld(s)
  }

  ghost predicate Inv(m: nat, s: State) {
    && Numbers(m, s) && MmapLock(s) && VmaLocks(s) && StampsNeedLock(s)
    && forall t <- s.pcs :: Knows(s, s.pcs[t])
  }

  lemma {:induction false} NumberIsEpoch(m: nat, e: int)
    requires 0 <= e && (m == 0 || e < m)
    ensures Number(m, e) == e
  {
    if e > 0 {
      NumberIsEpoch(m, e - 1);
    }
  }

  /** With m numbers they are 0 to m - 1, and the same one comes round after m increments; without a bound they never do. */
  lemma {:induction false} NumbersComeRound(m: nat, e: int)
    requires -1 <= e
    ensures m > 0 ==> 0 <= Number(m, e) < m && Number(m, e + m) == Number(m, e)
    ensures m == 0 ==> Number(m, e) == e
  {
    if e > 0 {
      NumbersComeRound(m, e - 1);
    } else if e == 0 {
      NumbersComeRound(m, -1);
    } else if m > 0 {
      NumberIsEpoch(m, m - 1);
    }
  }

  lemma SameNumberSameEpoch(m: nat, epoch: int, stamp: int)
    requires NoWrap(m, epoch) && -1 <= stamp <= epoch && 0 <= epoch
    ensures Number(m, stamp) == Number(m, epoch) <==> stamp == epoch
  {
    NumberIsEpoch(m, epoch);
    if stamp >= 0 {
      NumberIsEpoch(m, stamp);
    }
  }

  /** The steps that change more than a program counter. */
  predicate Changes(e: Event) {
    e.StoreSeq? || e.SetFlags? || e.ClearFlags? || e.ModFlags? || e.ResetFlags? || e.Attach? || e.EndWriteAll?
  }

  lemma OnlyMoves(m: nat, s: State, e: Event, s': State)
    requires Next(m, s, e, s') && !Changes(e)
    ensures s'.vmas == s.vmas && s'.epoch == s.epoch && s'.mmSeq == s.mmSeq
  {
  }

  lemma NextKeepsNumbers(m: nat, s: State, e: Event, s': State)
    requires Inv(m, s) && Next(m, s, e, s')
    ensures Numbers(m, s')
  {
    if Changes(e) {
      ChangeKeepsNumbers(m, s, e, s');
    } else {
      OnlyMoves(m, s, e, s');
    }
  }

  lemma ChangeKeepsNumbers(m: nat, s: State, e: Event, s': State)
    requires Inv(m, s) && Next(m, s, e, s') && Changes(e)
    ensures Numbers(m, s')
  {
    assert Knows(s, s.pcs[e.t]);
  }

  lemma NextKeepsMmapLock(m: nat, s: State, e: Event, s': State)
    requires MmapLock(s) && Next(m, s, e, s')
    ensures MmapLock(s')
  {
    var pc := s.pcs[e.t];
    assert HoldsMmapWrite(s'.pcs[e.t]) ==> HoldsMmapWrite(pc) || e.MmapWriteLock?;
    assert s'.pcs[e.t].MmapReading? ==> pc.MmapReading? || HoldsMmapWrite(pc) || e.MmapReadLock?;
    assert forall t <- s'.pcs :: t != e.t ==> t in s.pcs && s'.pcs[t] == s.pcs[t];
  }

  lemma NextKeepsVmaLocks(m: nat, s: State, e: Event, s': State)
    requires VmaLocks(s) && Next(m, s, e, s')
    ensures VmaLocks(s')
  {
    var pc := s.pcs[e.t];
    assert forall v :: HoldsWrite(s'.pcs[e.t], v) ==> HoldsWrite(pc, v) || (e.DownWrite? && pc.v == v);
    assert forall v :: HoldsRead(s'.pcs[e.t], v) ==> HoldsRead(pc, v) || (e.ReadTry? && e.ok && pc.v == v);
    assert forall t <- s'.pcs :: t != e.t ==> t in s.pcs && s'.pcs[t] == s.pcs[t];
  }

  /** The one place where wrapping matters: a VMA that carries the current number was locked in the current epoch. */
  lemma LockedMeansStamped(m: nat, s: State, v: VmaId)
    requires Numbers(m, s) && NoWrap(m, s.epoch) && v in s.vmas
    ensures s.vmas[v].lockSeq == s.mmSeq <==> s.vmas[v].stamp == s.epoch
  {
    SameNumberSameEpoch(m, s.epoch, s.vmas[v].stamp);
  }

  lemma NextKeepsKnowledge(m: nat, s: State, e: Event, s': State, t: Tid)
    requires Inv(m, s) && NoWrap(m, s.epoch) && Next(m, s, e, s') && t in s'.pcs
    ensures Knows(s', s'.pcs[t])
  {
    if t == e.t {
      OwnKnowledge(m, s, e, s');
    } else if Changes(e) {
      OthersKnowWriter(m, s, e, s', t);
    } else {
      OnlyMoves(m, s, e, s');
      assert Knows(s, s.pcs[t]);
    }
  }

  lemma ReaderKnowledge(m: nat, s: State, e: Event, s': State)
    requires Inv(m, s) && NoWrap(m, s.epoch) && Next(m, s, e, s')
    requires e.ReadProbe? || e.ReadCheck? || e.ReadTry? || e.ReadLoad? || e.ReadDecide? || e.ReadBackoff? || e.ReadEnd?
    ensures e.t in s'.pcs && Knows(s', s'.pcs[e.t])
  {
    var pc := s.pcs[e.t];
    assert Knows(s, pc);
    if e.ReadDecide? {
      LockedMeansStamped(m, s, pc.v);
    }
  }

  lemma MmapKnowledge(m: nat, s: State, e: Event, s': State)
    requires Inv(m, s) && Next(m, s, e, s')
    requires e.MmapReadLock? || e.MmapReadUnlock? || e.MmapWriteLock? || e.EndWriteAll? || e.MmapWriteUnlock? || e.MmapDowngrade?
    ensures e.t in s'.pcs && Knows(s', s'.pcs[e.t])
  {
    assert Knows(s, s.pcs[e.t]);
  }

  lemma StartWriteKnowledge(m: nat, s: State, e: Event, s': State)
    requires Inv(m, s) && NoWrap(m, s.epoch) && Next(m, s, e, s')
    requires e.StartWrite? || e.StartCheck? || e.DownWrite? || e.StoreSeq? || e.UpWrite?
    ensures e.t in s'.pcs && Knows(s', s'.pcs[e.t])
  {
    var pc := s.pcs[e.t];
    assert Knows(s, pc);
    if e.StartCheck? {
      LockedMeansStamped(m, s, pc.v);
    }
  }

  lemma ChangeKnowledge(m: nat, s: State, e: Event, s': State)
    requires Inv(m, s) && Next(m, s, e, s')
    requires e.StartDone? || e.SetFlags? || e.ClearFlags? || e.ModFlags? || e.ResetFlags? || e.Attach?
    ensures e.t in s'.pcs && Knows(s', s'.pcs[e.t])
  {
    assert s'.pcs[e.t] == Writing;
  }

  /** The thread that steps knows what its new program counter says. */
  lemma OwnKnowledge(m: nat, s: State, e: Event, s': State)
    requires Inv(m, s) && NoWrap(m, s.epoch) && Next(m, s, e, s')
    ensures e.t in s'.pcs && Knows(s', s'.pcs[e.t])
  {
    if e.StartDone? || e.SetFlags? || e.ClearFlags? || e.ModFlags? || e.ResetFlags? || e.Attach? {
      ChangeKnowledge(m, s, e, s');
    } else if e.StartWrite? || e.StartCheck? || e.DownWrite? || e.StoreSeq? || e.UpWrite? {
      StartWriteKnowledge(m, s, e, s');
    } else if e.MmapReadLock? || e.MmapReadUnlock? || e.MmapWriteLock? || e.EndWriteAll? || e.MmapWriteUnlock? || e.MmapDowngrade? {
      MmapKnowledge(m, s, e, s');
    } else {
      ReaderKnowledge(m, s, e, s');
    }
  }

  /** A step of the writer that changes VMAs or the number leaves true what every other thread knows. */
  lemma OthersKnowWriter(m: nat, s: State, e: Event, s': State, t: Tid)
    requires Inv(m, s) && NoWrap(m, s.epoch) && Next(m, s, e, s') && t in s.pcs && t != e.t
    requires Changes(e)
    ensures Knows(s', s.pcs[t])
  {
    var pc := s.pcs[e.t];
    assert Knows(s, s.pcs[t]) && Knows(s, pc);
    assert !HoldsMmapWrite(s.pcs[t]) && !s.pcs[t].MmapReading?;
    match e
    case ResetFlags(_, v, _) => LockedMeansStamped(m, s, v);
    case StoreSeq(_) => assert HoldsWrite(pc, pc.v);
    case _ =>
  }

  /** Only the end of the write section, which also ends the epoch, gives the lock up. */
  lemma LockKept(m: nat, s: State, e: Event, s': State)
    requires Next(m, s, e, s') && !e.EndWriteAll? && LockHeld(s)
    ensures LockHeld(s')
  {
    var t :| t in s.pcs && HoldsMmapWrite(s.pcs[t]) && !s.pcs[t].Releasing?;
    assert t in s'.pcs && HoldsMmapWrite(s'.pcs[t]) && !s'.pcs[t].Releasing?;
  }

  lemma NextKeepsStamps(m: nat, s: State, e: Event, s': State)
    requires Inv(m, s) && Next(m, s, e, s')
    ensures StampsNeedLock(s')
  {
    if Changes(e) {
      ChangeKeepsStamps(m, s, e, s');
    } else {
      OnlyMoves(m, s, e, s');
      if LockHeld(s) {
        LockKept(m, s, e, s');
      }
    }
  }

  lemma ChangeKeepsStamps(m: nat, s: State, e: Event, s': State)
    requires Inv(m, s) && Next(m, s, e, s') && Changes(e)
    ensures StampsNeedLock(s')
  {
    assert Knows(s, s.pcs[e.t]);
    if !e.EndWriteAll? {
      assert LockHeld(s) by {
        assert HoldsMmapWrite(s.pcs[e.t]) && !s.pcs[e.t].Releasing?;
      }
      LockKept(m, s, e, s');
    }
  }

  lemma NextKeepsInv(m: nat, s: State, e: Event, s': State)
    requires Inv(m, s) && NoWrap(m, s.epoch) && Next(m, s, e, s')
    ensures Inv(m, s')
  {
    NextKeepsNumbers(m, s, e, s');
    NextKeepsMmapLock(m, s, e, s');
    NextKeepsVmaLocks(m, s, e, s');
    NextKeepsStamps(m, s, e, s');
    forall t | t in s'.pcs
      ensures Knows(s', s'.pcs[t])
    {
      NextKeepsKnowledge(m, s, e, s', t);
    }
  }

  lemma {:induction false} EpochGrows(m: nat, states: seq<State>, events: seq<Event>, i: nat, j: nat)
    requires Run(m, states, events) && i <= j < |states|
    ensures states[i].epoch <= states[j].epoch
  {
    if i < j {
      EpochGrows(m, states, events, i, j - 1);
      assert Next(m, states[j - 1], events[j - 1], states[j]);
    }
  }

  lemma {:induction false} RunKeepsInv(m: nat, states: seq<State>, events: seq<Event>, n: nat)
    requires Run(m, states, events) && n < |states| && NoWrap(m, states[n].epoch)
    ensures Inv(m, states[n])
  {
    if n > 0 {
      EpochGrows(m, states, events, n - 1, n);
      RunKeepsInv(m, states, events, n - 1);
      NextKeepsInv(m, states[n - 1], events[n - 1], states[n]);
    }
  }

  // ---------------------------------------------------------------------------------------------
  // What the protocol guarantees

  /** No thread that vma_start_read let in overlaps a write-lock of that VMA. */
  lemma ReadersExcludeWriters(m: nat, states: seq<State>, events: seq<Event>, n: nat, t: Tid, u: Tid)
    requires Run(m, states, events) && n < |states| && NoWrap(m, states[n].epoch)
    requires t in states[n].pcs && states[n].pcs[t].Reading? && u in states[n].pcs
    ensures var s := states[n];
            var v := s.pcs[t].v;
            && v in s.vmas && s.vmas[v].lockSeq != s.mmSeq
            && s.pcs[u] != Modify(v) && s.pcs[u] != Stamped(v) && !HoldsWrite(s.pcs[u], v)
  {
    RunKeepsInv(m, states, events, n);
    var s := states[n];
    assert Knows(s, s.pcs[t]) && Knows(s, s.pcs[u]);
    LockedMeansStamped(m, s, s.pcs[t].v);
    assert HoldsRead(s.pcs[t], s.pcs[t].v);
  }

  lemma {:induction false} ReaderStays(m: nat, states: seq<State>, events: seq<Event>, i: nat, j: nat, t: Tid)
    requires Run(m, states, events) && i <= j < |states|
    requires forall k :: i <= k <= j ==> t in states[k].pcs && states[k].pcs[t].Reading?
    ensures states[j].pcs[t] == states[i].pcs[t]
  {
    if i < j {
      ReaderStays(m, states, events, i, j - 1, t);
      assert Next(m, states[j - 1], events[j - 1], states[j]);
    }
  }

  /** From vma_start_read to vma_end_read the flags do not change. */
  lemma ReaderSeesStableFlags(m: nat, states: seq<State>, events: seq<Event>, i: nat, j: nat, t: Tid)
    requires Run(m, states, events) && i <= j < |states| && NoWrap(m, states[j].epoch)
    requires forall k :: i <= k <= j ==> t in states[k].pcs && states[k].pcs[t].Reading?
    ensures var v := states[i].pcs[t].v;
            v in states[i].vmas && v in states[j].vmas && states[j].vmas[v].flags == states[i].vmas[v].flags
    ensures states[j].pcs[t] == states[i].pcs[t]
  {
    EpochGrows(m, states, events, i, j);
    RunKeepsInv(m, states, events, i);
    RunKeepsInv(m, states, events, j);
    ReaderStays(m, states, events, i, j, t);
    assert Knows(states[i], states[i].pcs[t]) && Knows(states[j], states[j].pcs[t]);
  }

  /** A holder of the mmap lock for reading sees every VMA unchanged, and no VMA is write-locked under it. */
  lemma MmapReadersExcludeWriters(m: nat, states: seq<State>, events: seq<Event>, n: nat, t: Tid, v: VmaId)
    requires Run(m, states, events) && n < |states| && NoWrap(m, states[n].epoch)
    requires t in states[n].pcs && states[n].pcs[t].MmapReading? && v in states[n].vmas
    ensures states[n].vmas[v].lockSeq != states[n].mmSeq
    ensures states[n].pcs[t].all == FlagsOf(states[n])
  {
    RunKeepsInv(m, states, events, n);
    var s := states[n];
    assert Knows(s, s.pcs[t]);
    LockedMeansStamped(m, s, v);
  }

  /** vma_start_write locks the VMA until the mmap lock is given up: once it has returned, the VMA counts as locked. */
  lemma StartWriteLocks(m: nat, states: seq<State>, events: seq<Event>, i: nat, j: nat, t: Tid)
    requires Run(m, states, events) && i <= j < |states| && NoWrap(m, states[j].epoch)
    requires t in states[i].pcs && states[i].pcs[t].Modify? && states[j].epoch == states[i].epoch
    ensures var v := states[i].pcs[t].v; v in states[j].vmas && states[j].vmas[v].lockSeq == states[j].mmSeq
  {
    EpochGrows(m, states, events, i, j);
    RunKeepsInv(m, states, events, i);
    RunKeepsInv(m, states, events, j);
    var v := states[i].pcs[t].v;
    assert Knows(states[i], states[i].pcs[t]);
    StampKept(m, states, events, i, j, v);
  }

  lemma {:induction false} StampKept(m: nat, states: seq<State>, events: seq<Event>, i: nat, j: nat, v: VmaId)
    requires Run(m, states, events) && i <= j < |states| && NoWrap(m, states[j].epoch)
    requires v in states[i].vmas && states[i].vmas[v].stamp == states[i].epoch == states[j].epoch
    ensures v in states[j].vmas && states[j].vmas[v].stamp == states[j].epoch
  {
    if i < j {
      EpochGrows(m, states, events, i, j - 1);
      EpochGrows(m, states, events, j - 1, j);
      StampKept(m, states, events, i, j - 1, v);
      assert Next(m, states[j - 1], events[j - 1], states[j]);
    }
  }

  // ---------------------------------------------------------------------------------------------
  // What the flags are, told from the calls alone

  /** The VMA that a thread last asked to write-lock. */
  function LastStart(events: seq<Event>, n: nat, t: Tid): Option<VmaId>
    requires n <= |events|
  {
    if n == 0 then None
    else if events[n - 1].StartWrite? && events[n - 1].t == t then Some(events[n - 1].v)
    else LastStart(events, n - 1, t)
  }

  /** The VMA that a thread last tried to read. */
  function LastProbe(events: seq<Event>, n: nat, t: Tid): Option<VmaId>
    requires n <= |events|
  {
    if n == 0 then None
    else if events[n - 1].ReadProbe? && events[n - 1].t == t then Some(events[n - 1].v)
    else LastProbe(events, n - 1, t)
  }

  predicate InStartWrite(pc: Pc) {
    pc.Entering? || pc.Waiting? || pc.Stamping? || pc.Stamped? || pc.Modify?
  }

  predicate InStartRead(pc: Pc) {
    pc.Probe? || pc.TryLock? || pc.ReadLocked? || pc.Recheck? || pc.Backoff? || pc.Reading?
  }

  /** A thread locks the VMA it asked for, for writing and for reading. */
  lemma {:induction false} LocksWhatItAskedFor(m: nat, states: seq<State>, events: seq<Event>, n: nat, t: Tid)
    requires Run(m, states, events) && n < |states| && t in states[n].pcs
    ensures InStartWrite(states[n].pcs[t]) ==> LastStart(events, n, t) == Some(states[n].pcs[t].v)
    ensures InStartRead(states[n].pcs[t]) ==> LastProbe(events, n, t) == Some(states[n].pcs[t].v)
  {
    if n > 0 {
      assert Next(m, states[n - 1], events[n - 1], states[n]);
      assert t in states[n - 1].pcs;
      LocksWhatItAskedFor(m, states, events, n - 1, t);
      AskedBefore(m, states[n - 1], events[n - 1], states[n], t);
    }
  }

  /** A program counter in either lock names a VMA because the event does, or the program counter before. */
  lemma AskedBefore(m: nat, s: State, e: Event, s': State, t: Tid)
    requires Next(m, s, e, s') && t in s.pcs
    ensures t in s'.pcs
    ensures InStartWrite(s'.pcs[t]) ==>
              if e.StartWrite? && e.t == t then s'.pcs[t].v == e.v else InStartWrite(s.pcs[t]) && s'.pcs[t].v == s.pcs[t].v
    ensures InStartRead(s'.pcs[t]) ==>
              if e.ReadProbe? && e.t == t then s'.pcs[t].v == e.v else InStartRead(s.pcs[t]) && s'.pcs[t].v == s.pcs[t].v
  {
  }

  /** What event i makes of bit b of VMA v: set, cleared, or nothing. */
  function Verdict(events: seq<Event>, i: nat, v: VmaId, b: nat): Option<bool>
    requires i < |events|
  {
    match events[i]
    case SetFlags(t, f) => if LastStart(events, i, t) == Some(v) && b in f then Some(true) else None
    case ClearFlags(t, f) => if LastStart(events, i, t) == Some(v) && b in f then Some(false) else None
    case ModFlags(t, f, clear) =>
      if LastStart(events, i, t) != Some(v) then None else if b in clear then Some(false) else if b in f then Some(true) else None
    case ResetFlags(_, u, f) => if u == v then Some(b in f) else None
    case Attach(_, u, f) => if u == v then Some(b in f) else None
    case _ => None
  }

  function LastVerdict(events: seq<Event>, n: nat, v: VmaId, b: nat): Option<bool>
    requires n <= |events|
  {
    if n == 0 then None
    else if Verdict(events, n - 1, v, b).Some? then Verdict(events, n - 1, v, b)
    else LastVerdict(events, n - 1, v, b)
  }

  /** The event speaks of bit b of VMA v; `started` is the VMA that the stepping thread last asked to write-lock. */
  predicate Speaks(e: Event, started: Option<VmaId>, v: VmaId, b: nat) {
    || ((e.SetFlags? || e.ClearFlags? || e.ModFlags?) && started == Some(v) && (b in e.f || (e.ModFlags? && b in e.clear)))
    || ((e.ResetFlags? || e.Attach?) && e.v == v)
  }

  /** One step, bit by bit. */
  lemma BitAfter(m: nat, s: State, e: Event, s': State, started: Option<VmaId>, v: VmaId, b: nat)
    requires Next(m, s, e, s') && v in s'.vmas && Speaks(e, started, v, b)
    requires s.pcs[e.t].Modify? ==> started == Some(s.pcs[e.t].v)
    ensures b in s'.vmas[v].flags <==> b in e.f && !e.ClearFlags? && !(e.ModFlags? && b in e.clear)
  {
  }

  lemma BitKept(m: nat, s: State, e: Event, s': State, started: Option<VmaId>, v: VmaId, b: nat)
    requires Next(m, s, e, s') && v in s'.vmas && !Speaks(e, started, v, b)
    requires s.pcs[e.t].Modify? ==> started == Some(s.pcs[e.t].v)
    ensures v in s.vmas && (b in s'.vmas[v].flags <==> b in s.vmas[v].flags)
  {
    if !Changes(e) {
      OnlyMoves(m, s, e, s');
    }
  }

  /**
   In every run, wrapped numbers or not, a bit of a VMA is what the last vm_flags_set, vm_flags_clear, vm_flags_mod,
   vm_flags_reset or initialisation that speaks of it left, and what it was at the start if there is none.
   */
  lemma {:induction false} FlagsFollowCalls(m: nat, states: seq<State>, events: seq<Event>, n: nat, v: VmaId, b: nat)
    requires Run(m, states, events) && n < |states| && v in states[n].vmas
    ensures LastVerdict(events, n, v, b).None? ==> v in states[0].vmas
    ensures b in states[n].vmas[v].flags <==>
              var last := LastVerdict(events, n, v, b);
              if last.Some? then last.value else v in states[0].vmas && b in states[0].vmas[v].flags
  {
    if n > 0 {
      var s, e := states[n - 1], events[n - 1];
      assert Next(m, s, e, states[n]);
      LocksWhatItAskedFor(m, states, events, n - 1, e.t);
      var started := LastStart(events, n - 1, e.t);
      if Speaks(e, started, v, b) {
        BitAfter(m, s, e, states[n], started, v, b);
      } else {
        BitKept(m, s, e, states[n], started, v, b);
        FlagsFollowCalls(m, states, events, n - 1, v, b);
      }
    }
  }

  // ---------------------------------------------------------------------------------------------
  // With m numbers the guarantee lasts for m - 2 releases of the mmap write lock and no longer

  ghost predicate RunTo(m: nat, states: seq<State>, events: seq<Event>, s: State) {
    Run(m, states, events) && states[|states| - 1] == s
  }

  lemma Extend(m: nat, states: seq<State>, events: seq<Event>, s: State, e: Event, s': State)
    requires RunTo(m, states, events, s) && Next(m, s, e, s')
    ensures RunTo(m, states + [s'], events + [e], s')
  {
    var ss, es := states + [s'], events + [e];
    forall i | 0 <= i < |es|
      ensures Next(m, ss[i], es[i], ss[i + 1])
    {
      if i < |events| {
        assert ss[i] == states[i] && ss[i + 1] == states[i + 1];
      }
    }
  }

  /** Thread 1 is let in on VMA 0 and stays while thread 2 takes and gives up the mmap lock `n` times. */
  function AfterReleases(m: nat, n: nat): State {
    State(n, Number(m, n), map[0 := Vma(Number(m, -1), -1, {})], map[1 := Reading(0, {}), 2 := Idle])
  }

  lemma {:induction false} ReachReleases(m: nat, n: nat) returns (states: seq<State>, events: seq<Event>)
    requires m >= 2
    ensures RunTo(m, states, events, AfterReleases(m, n))
  {
    if n == 0 {
      states, events := ReaderEnters(m);
    } else {
      states, events := ReachReleases(m, n - 1);
      var s := AfterReleases(m, n - 1);
      var s1 := s.(pcs := s.pcs[2 := Writing]);
      var s2 := s1.(epoch := n, mmSeq := Number(m, n), pcs := s1.pcs[2 := Releasing]);
      assert AfterReleases(m, n).pcs == s2.pcs[2 := Idle];
      states, events := Longer(m, states, events, s, MmapWriteLock(2), s1);
      states, events := Longer(m, states, events, s1, EndWriteAll(2), s2);
      states, events := Longer(m, states, events, s2, MmapWriteUnlock(2), AfterReleases(m, n));
    }
  }

  lemma ReaderEnters(m: nat) returns (states: seq<State>, events: seq<Event>)
    requires m >= 2
    ensures RunTo(m, states, events, AfterReleases(m, 0))
  {
    var vmas := map[0 := Vma(m - 1, -1, {})];
    var s := State(0, 0, vmas, map[1 := Idle, 2 := Idle]);
    states, events := [s], [];
    var pcs := [Probe(0, m - 1), TryLock(0), ReadLocked(0), Recheck(0, m - 1), Reading(0, {})];
    var es := [ReadProbe(1, 0), ReadCheck(1), ReadTry(1, true), ReadLoad(1), ReadDecide(1)];
    for i := 0 to 5
      invariant s == State(0, 0, vmas, map[1 := if i == 0 then Idle else pcs[i - 1], 2 := Idle])
      invariant RunTo(m, states, events, s)
    {
      var s' := State(0, 0, vmas, map[1 := pcs[i], 2 := Idle]);
      assert s'.pcs == s.pcs[1 := pcs[i]];
      states, events := Longer(m, states, events, s, es[i], s');
      s := s';
    }
  }

  /** vma_start_write finds the current number in the VMA, and does not wait for thread 1. */
  lemma ReachModify(m: nat) returns (states: seq<State>, events: seq<Event>, s: State)
    requires m >= 2
    ensures RunTo(m, states, events, s)
    ensures s == AfterReleases(m, m - 1).(pcs := map[1 := Reading(0, {}), 2 := Modify(0)])
  {
    states, events := ReachReleases(m, m - 1);
    NumberIsEpoch(m, m - 1);
    s := AfterReleases(m, m - 1);
    var pcs := [Writing, Entering(0, m - 1), Modify(0)];
    var es := [MmapWriteLock(2), StartWrite(2, 0), StartCheck(2)];
    for i := 0 to 3
      invariant s == WriterAt(m, if i == 0 then Idle else pcs[i - 1])
      invariant RunTo(m, states, events, s)
    {
      WriterMoves(m, s, es[i], pcs[i]);
      states, events := Longer(m, states, events, s, es[i], WriterAt(m, pcs[i]));
      s := WriterAt(m, pcs[i]);
    }
  }

  /** After m - 1 releases, with thread 2 at the given point. */
  function WriterAt(m: nat, pc: Pc): State
    requires m >= 2
  {
    AfterReleases(m, m - 1).(pcs := map[1 := Reading(0, {}), 2 := pc])
  }

  lemma WriterMoves(m: nat, s: State, e: Event, pc: Pc)
    requires m >= 2 && Number(m, m - 1) == m - 1
    requires || (s == WriterAt(m, Idle) && e == MmapWriteLock(2) && pc == Writing)
             || (s == WriterAt(m, Writing) && e == StartWrite(2, 0) && pc == Entering(0, m - 1))
             || (s == WriterAt(m, Entering(0, m - 1)) && e == StartCheck(2) && pc == Modify(0))
    ensures Next(m, s, e, WriterAt(m, pc))
  {
    assert WriterAt(m, pc).pcs == s.pcs[2 := pc];
  }

  lemma Longer(m: nat, states: seq<State>, events: seq<Event>, s: State, e: Event, s': State)
    returns (states': seq<State>, events': seq<Event>)
    requires RunTo(m, states, events, s) && Next(m, s, e, s')
    ensures RunTo(m, states', events', s')
  {
    Extend(m, states, events, s, e, s');
    states', events' := states + [s'], events + [e];
  }

  /** After m - 1 releases a number comes round again: a writer skips the wait and changes the flags under a reader. */
  lemma WrapLetsWriterIn(m: nat) returns (states: seq<State>, events: seq<Event>)
    requires m >= 2
    ensures Run(m, states, events)
    ensures var s := states[|states| - 1];
            && s.epoch == m - 1 && !NoWrap(m, s.epoch)
            && 1 in s.pcs && s.pcs[1] == Reading(0, {})
            && 0 in s.vmas && s.vmas[0].flags == {7}
  {
    NumberIsEpoch(m, m - 1);
    var s;
    states, events, s := ReachModify(m);
    var s' := WithFlags(s, 2, 0, {} + {7});
    Extend(m, states, events, s, SetFlags(2, {7}), s');
    states, events := states + [s'], events + [SetFlags(2, {7})];
  }

  /** Every thread that was let in still sees the flags it was let in with. */
  ghost predicate ReadersUndisturbed(s: State) {
    forall t <- s.pcs :: s.pcs[t].Reading? ==> s.pcs[t].v in s.vmas && s.vmas[s.pcs[t].v].flags == s.pcs[t].seen
  }

  ghost predicate SafeForReleases(m: nat, k: nat) {
    forall states: seq<State>, events: seq<Event> :: Run(m, states, events) && states[|states| - 1].epoch <= k
      ==> ReadersUndisturbed(states[|states| - 1])
  }

  /** All runs with at most k releases are safe exactly when k releases do not exhaust the numbers. */
  lemma SafeExactlyWithoutWrap(m: nat, k: nat)
    requires m != 1
    ensures SafeForReleases(m, k) <==> NoWrap(m, k)
  {
    if NoWrap(m, k) {
      forall states: seq<State>, events: seq<Event> | Run(m, states, events) && states[|states| - 1].epoch <= k
        ensures ReadersUndisturbed(states[|states| - 1])
      {
        var s := states[|states| - 1];
        RunKeepsInv(m, states, events, |states| - 1);
        assert forall t <- s.pcs :: Knows(s, s.pcs[t]);
      }
    } else {
      var states, events := WrapLetsWriterIn(m);
      var s := states[|states| - 1];
      assert 7 in s.vmas[0].flags && 7 !in s.pcs[1].seen;
      assert !ReadersUndisturbed(s);
    }
  }
}
