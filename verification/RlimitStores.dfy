/**
 The two writers of resource limits at the level of single stores. do_prlimit (kernel/sys.c) checks and stores under
 task_lock of the process; the memory-limit registry (kernel/usac/taro_mani_mem.c) stores RLIMIT_AS under its own mutex
 only. A limit is a pair of words, stored one after the other in either order.
 */
module RlimitStores {
  import opened Errno
  import opened LimitRlimit
  import opened Options
  import L = LimitList

  type Tid = int

  /** One resource of one process. */
  datatype Cell = Cell(g: Sig, resource: nat)

  datatype Pc =
    | Idle
    | Checking(c: Cell, new': Rlim, capable: bool)   // do_prlimit holds the task lock
    | Listing(pid: Pid, g: Sig, limit: nat)          // the registry holds its mutex
      // past all checks; which of the two words are stored
    | Storing(registry: bool, c: Cell, new': Rlim, capable: bool, cur: bool, max: bool)

  /** `tasks` does not change; `last` is a history variable: the value of the last write that was completed. */
  datatype State = State(tasks: map<Pid, Sig>, cells: map<Cell, Rlim>, last: map<Cell, Rlim>, pcs: map<Tid, Pc>)

  datatype Event =
    | PrlimitLock(t: Tid, c: Cell, new': Rlim, capable: bool) | PrlimitCheck(t: Tid, hook: int)
    | RegistryLock(t: Tid, pid: Pid, limit: nat) | RegistryHook(t: Tid, hook: int)
    | StoreCur(t: Tid) | StoreMax(t: Tid) | Done(t: Tid)

  predicate HoldsTaskLock(pc: Pc, g: Sig) {
    (pc.Checking? && pc.c.g == g) || (pc.Storing? && !pc.registry && pc.c.g == g)
  }

  predicate HoldsMutex(pc: Pc) {
    pc.Listing? || (pc.Storing? && pc.registry)
  }

  ghost predicate Init(s: State) {
    && (forall p <- s.tasks :: p > 0) && s.last == s.cells
    && (forall c <- s.cells :: s.cells[c].cur <= s.cells[c].max && c.resource < RLIM_NLIMITS)
    && (forall t <- s.pcs :: s.pcs[t] == Idle)
  }

  ghost predicate Next(s: State, e: Event, s': State) {
    && e.t in s.pcs
    && var pc := s.pcs[e.t];
       match e
       case PrlimitLock(t, c, new', capable) =>
         && pc.Idle? && c in s.cells && new'.cur <= new'.max && (forall u <- s.pcs :: !HoldsTaskLock(s.pcs[u], c.g))
         && s' == s.(pcs := s.pcs[t := Checking(c, new', capable)])
       case PrlimitCheck(t, hook) =>
         && pc.Checking? && pc.c in s.cells
         && var ok := (pc.new'.max <= s.cells[pc.c].max || pc.capable) && hook == 0;
            s' == s.(pcs := s.pcs[t := if ok then Storing(false, pc.c, pc.new', pc.capable, false, false) else Idle])
       case RegistryLock(t, pid, limit) =>
         && pc.Idle? && limit > 0 && pid in s.tasks && Cell(s.tasks[pid], RLIMIT_AS) in s.cells
         && (forall u <- s.pcs :: !HoldsMutex(s.pcs[u]))
         && s' == s.(pcs := s.pcs[t := Listing(pid, s.tasks[pid], limit)])
       case RegistryHook(t, hook) =>
         && pc.Listing?
         && s' == s.(pcs := s.pcs[t := if hook == 0 then Storing(true, Cell(pc.g, RLIMIT_AS), Rlim(pc.limit, pc.limit), false, false, false) else Idle])
       case StoreCur(t) =>
         && pc.Storing? && !pc.cur && pc.c in s.cells
         && s' == s.(cells := s.cells[pc.c := s.cells[pc.c].(cur := pc.new'.cur)], pcs := s.pcs[t := pc.(cur := true)])
       case StoreMax(t) =>
         && pc.Storing? && !pc.max && pc.c in s.cells
         && s' == s.(cells := s.cells[pc.c := s.cells[pc.c].(max := pc.new'.max)], pcs := s.pcs[t := pc.(max := true)])
       case Done(t) =>
         pc.Storing? && pc.cur && pc.max && s' == s.(last := s.last[pc.c := pc.new'], pcs := s.pcs[t := Idle])
  }

  ghost predicate Run(ss: seq<State>, es: seq<Event>) {
    && |ss| == |es| + 1 && Init(ss[0])
    && forall i :: 0 <= i < |es| ==> Next(ss[i], es[i], ss[i + 1])
  }

  // ---------------------------------------------------------------------------------------------
  // Overlap

  /** A prlimit write and a registry write to the same cell are both past their checks. */
  ghost predicate Overlap(s: State, t: Tid, u: Tid) {
    && t in s.pcs && u in s.pcs && s.pcs[t].Storing? && s.pcs[u].Storing?
    && !s.pcs[t].registry && s.pcs[u].registry && s.pcs[t].c == s.pcs[u].c
  }

  /** The registry's limit lies between the words of the pair that prlimit stores. */
  predicate Compatible(new': Rlim, limit: nat) {
    new'.cur <= limit <= new'.max
  }

  ghost predicate OverlapsCompatible(s: State) {
    forall t, u :: Overlap(s, t, u) ==> Compatible(s.pcs[t].new', s.pcs[u].new'.cur)
  }

  ghost predicate NoOverlap(s: State) {
    forall t, u :: !Overlap(s, t, u)
  }

  /** One word of the cell belongs to a write whose other word is still missing. */
  ghost predicate Torn(s: State, c: Cell) {
    exists t :: t in s.pcs && s.pcs[t].Storing? && s.pcs[t].c == c && s.pcs[t].cur != s.pcs[t].max
  }

  ghost predicate Ordered(s: State) {
    forall c <- s.cells :: !Torn(s, c) ==> s.cells[c].cur <= s.cells[c].max
  }

  // ---------------------------------------------------------------------------------------------
  // The invariant

  ghost predicate Locks(s: State) {
    && (forall t, u, g :: t in s.pcs && u in s.pcs && t != u && HoldsTaskLock(s.pcs[t], g) ==> !HoldsTaskLock(s.pcs[u], g))
    && (forall t, u :: t in s.pcs && u in s.pcs && t != u && HoldsMutex(s.pcs[t]) ==> !HoldsMutex(s.pcs[u]))
  }

  ghost predicate HasTask(s: State, g: Sig) {
    exists p :: p in s.tasks && s.tasks[p] == g
  }

  /** Where the words of a cell lie while a write to it is under way. */
  ghost predicate Bounds(s: State, pc: Pc) {
    match pc
    case Idle => true
    case Checking(c, new', _) => c in s.cells && new'.cur <= new'.max
    case Listing(pid, g, limit) => pid in s.tasks && s.tasks[pid] == g && limit > 0 && Cell(g, RLIMIT_AS) in s.cells
    case Storing(registry, c, new', _, cur, max) =>
      && c in s.cells && new'.cur <= new'.max && (registry ==> 0 < new'.cur == new'.max && c.resource == RLIMIT_AS && HasTask(s, c.g))
      && (cur ==> s.cells[c].cur <= new'.max) && (max ==> new'.cur <= s.cells[c].max)
  }

  ghost predicate Inv(s: State) {
    && Locks(s) && Ordered(s) && s.last.Keys == s.cells.Keys && (forall p <- s.tasks :: p > 0)
    && (forall c <- s.cells :: c.resource < RLIM_NLIMITS) && forall t <- s.pcs :: Bounds(s, s.pcs[t])
  }

  lemma NextKeepsLocks(s: State, e: Event, s': State)
    requires Locks(s) && Next(s, e, s')
    ensures Locks(s')
  {
    var pc, pc' := s.pcs[e.t], s'.pcs[e.t];
    assert forall g :: HoldsTaskLock(pc', g) ==> HoldsTaskLock(pc, g) || (e.PrlimitLock? && e.c.g == g);
    assert HoldsMutex(pc') ==> HoldsMutex(pc) || e.RegistryLock?;
    assert forall t <- s'.pcs :: t != e.t ==> t in s.pcs && s'.pcs[t] == s.pcs[t];
  }

  /** A store keeps the bounds of the other write to the cell, if there is one. */
  lemma NextKeepsBounds(s: State, e: Event, s': State, t: Tid)
    requires Inv(s) && OverlapsCompatible(s) && Next(s, e, s') && t in s'.pcs
    ensures Bounds(s', s'.pcs[t])
  {
    var pc := s.pcs[e.t];
    assert Bounds(s, pc) && t in s.pcs && Bounds(s, s.pcs[t]);
    if t != e.t && (e.StoreCur? || e.StoreMax?) && s.pcs[t].Storing? && s.pcs[t].c == pc.c {
      StorersDiffer(s, e.t, t);
      var p, r := if pc.registry then t else e.t, if pc.registry then e.t else t;
      assert Overlap(s, p, r);
    }
  }

  /** Two writes to one cell are one of each kind. */
  lemma StorersDiffer(s: State, t: Tid, u: Tid)
    requires Locks(s) && t in s.pcs && u in s.pcs && t != u
    requires s.pcs[t].Storing? && s.pcs[u].Storing? && s.pcs[t].c == s.pcs[u].c
    ensures s.pcs[t].registry != s.pcs[u].registry
  {
    assert !s.pcs[t].registry ==> HoldsTaskLock(s.pcs[t], s.pcs[t].c.g);
    assert !s.pcs[u].registry ==> HoldsTaskLock(s.pcs[u], s.pcs[t].c.g);
  }

  lemma NextKeepsOrdered(s: State, e: Event, s': State, c: Cell)
    requires Inv(s) && Next(s, e, s') && c in s'.cells && !Torn(s', c)
    ensures s'.cells[c].cur <= s'.cells[c].max
  {
    var pc := s.pcs[e.t];
    assert Bounds(s, pc);
    if (e.StoreCur? || e.StoreMax?) && pc.c == c {
      assert s'.pcs[e.t].cur == s'.pcs[e.t].max;
    } else {
      assert s'.cells[c] == s.cells[c];
      assert forall t <- s.pcs :: t != e.t ==> s'.pcs[t] == s.pcs[t];
    }
  }

  lemma NextKeepsInv(s: State, e: Event, s': State)
    requires Inv(s) && OverlapsCompatible(s) && Next(s, e, s')
    ensures Inv(s')
  {
    NextKeepsLocks(s, e, s');
    forall t | t in s'.pcs
      ensures Bounds(s', s'.pcs[t])
    {
      NextKeepsBounds(s, e, s', t);
    }
    forall c | c in s'.cells && !Torn(s', c)
      ensures s'.cells[c].cur <= s'.cells[c].max
    {
      NextKeepsOrdered(s, e, s', c);
    }
    assert Bounds(s, s.pcs[e.t]);
  }

  lemma {:induction false} RunKeepsInv(ss: seq<State>, es: seq<Event>, n: nat)
    requires Run(ss, es) && n < |ss| && forall i :: 0 <= i < n ==> OverlapsCompatible(ss[i])
    ensures Inv(ss[n])
  {
    if n > 0 {
      RunKeepsInv(ss, es, n - 1);
      NextKeepsInv(ss[n - 1], es[n - 1], ss[n]);
    }
  }

  // ---------------------------------------------------------------------------------------------
  // When no soft limit exceeds its hard limit

  /**
   In every run in which each registry limit lies within the pairs it overlaps with, no soft limit exceeds its hard
   limit outside a half-done write.
   */
  lemma CompatibleRunsOrdered(ss: seq<State>, es: seq<Event>, n: nat)
    requires Run(ss, es) && n < |ss| && forall i :: 0 <= i < n ==> OverlapsCompatible(ss[i])
    ensures Ordered(ss[n])
  {
    RunKeepsInv(ss, es, n);
  }

  /** In particular in every run without overlap. */
  lemma OrderedWithoutOverlap(ss: seq<State>, es: seq<Event>, n: nat)
    requires Run(ss, es) && n < |ss| && forall i :: 0 <= i < n ==> NoOverlap(ss[i])
    ensures Ordered(ss[n])
  {
    forall i | 0 <= i < n
      ensures OverlapsCompatible(ss[i])
    {
      assert NoOverlap(ss[i]);
    }
    RunKeepsInv(ss, es, n);
  }

  // ---------------------------------------------------------------------------------------------
  // Without overlap the calls are atomic

  ghost predicate Stored(s: State, c: Cell) {
    exists t :: t in s.pcs && s.pcs[t].Storing? && s.pcs[t].c == c
  }

  /** The cell holds the new words that are stored and the last completed value otherwise; prlimit was let through on that value. */
  ghost predicate Partial(s: State, pc: Pc) {
    pc.Storing? ==>
      && pc.c in s.cells && pc.c in s.last
      && s.cells[pc.c].cur == (if pc.cur then pc.new'.cur else s.last[pc.c].cur)
      && s.cells[pc.c].max == (if pc.max then pc.new'.max else s.last[pc.c].max)
      && (!pc.registry ==> pc.new'.max <= s.last[pc.c].max || pc.capable)
  }

  ghost predicate Atomic(s: State) {
    && (forall c <- s.cells :: !Stored(s, c) ==> c in s.last && s.cells[c] == s.last[c])
    && (forall t <- s.pcs :: Partial(s, s.pcs[t]))
  }

  /** At most one write to a cell is past its checks. */
  lemma OneStorer(s: State, t: Tid, u: Tid)
    requires Locks(s) && NoOverlap(s) && t in s.pcs && u in s.pcs && t != u && s.pcs[t].Storing? && s.pcs[u].Storing?
    ensures s.pcs[t].c != s.pcs[u].c
  {
    assert !Overlap(s, t, u) && !Overlap(s, u, t);
    if s.pcs[t].c == s.pcs[u].c {
      StorersDiffer(s, t, u);
    }
  }

  /** Past its checks a write finds the last completed value in the cell. */
  lemma ChecksSeeLast(s: State, e: Event, s': State)
    requires Locks(s') && NoOverlap(s') && Atomic(s) && Next(s, e, s') && (e.PrlimitCheck? || e.RegistryHook?)
    requires s'.pcs[e.t].Storing? && s'.pcs[e.t].c in s.cells
    ensures var c := s'.pcs[e.t].c; c in s.last && s.cells[c] == s.last[c]
  {
    var c := s'.pcs[e.t].c;
    if Stored(s, c) {
      var u :| u in s.pcs && s.pcs[u].Storing? && s.pcs[u].c == c;
      OneStorer(s', e.t, u);
    }
  }

  lemma OwnPartial(s: State, e: Event, s': State)
    requires Inv(s) && Inv(s') && NoOverlap(s') && Atomic(s) && Next(s, e, s')
    ensures e.t in s'.pcs && Partial(s', s'.pcs[e.t])
  {
    var pc := s.pcs[e.t];
    assert Partial(s, pc) && Bounds(s, pc);
    if (e.PrlimitCheck? || e.RegistryHook?) && s'.pcs[e.t].Storing? {
      ChecksSeeLast(s, e, s');
    }
  }

  lemma OthersPartial(s: State, e: Event, s': State, t: Tid)
    requires Locks(s) && NoOverlap(s) && Atomic(s) && Next(s, e, s') && t in s.pcs && t != e.t
    ensures Partial(s', s.pcs[t])
  {
    assert Partial(s, s.pcs[t]);
    if s.pcs[t].Storing? && s.pcs[e.t].Storing? {
      OneStorer(s, t, e.t);
    }
  }

  lemma NextKeepsAtomic(s: State, e: Event, s': State)
    requires Inv(s) && Inv(s') && NoOverlap(s) && NoOverlap(s') && Atomic(s) && Next(s, e, s')
    ensures Atomic(s')
  {
    forall t | t in s'.pcs
      ensures Partial(s', s'.pcs[t])
    {
      if t == e.t {
        OwnPartial(s, e, s');
      } else {
        OthersPartial(s, e, s', t);
      }
    }
    forall c | c in s'.cells && !Stored(s', c)
      ensures c in s'.last && s'.cells[c] == s'.last[c]
    {
      assert Partial(s, s.pcs[e.t]);
      if !e.Done? || s.pcs[e.t].c != c {
        StoredUntilDone(s, e, s', c);
      }
    }
  }

  /** A cell is being stored to from the check to the end of the write. */
  lemma StoredUntilDone(s: State, e: Event, s': State, c: Cell)
    requires Next(s, e, s') && (e.Done? ==> s.pcs[e.t].Storing? && s.pcs[e.t].c != c)
    ensures Stored(s, c) ==> Stored(s', c)
    ensures !Stored(s', c) && c in s.cells ==> c in s'.cells && s'.cells[c] == s.cells[c] && (c in s.last ==> c in s'.last && s'.last[c] == s.last[c])
  {
    if Stored(s, c) {
      var t :| t in s.pcs && s.pcs[t].Storing? && s.pcs[t].c == c;
      assert t in s'.pcs && s'.pcs[t].Storing? && s'.pcs[t].c == c;
    }
  }

  /** In a run without overlap every cell that no write is at work on holds the value of the last completed write. */
  lemma {:induction false} WholeCalls(ss: seq<State>, es: seq<Event>, n: nat)
    requires Run(ss, es) && n < |ss| && forall i :: 0 <= i <= n ==> NoOverlap(ss[i])
    ensures Inv(ss[n]) && Atomic(ss[n])
  {
    forall i | 0 <= i <= n
      ensures OverlapsCompatible(ss[i])
    {
      assert NoOverlap(ss[i]);
    }
    RunKeepsInv(ss, es, n);
    if n > 0 {
      WholeCalls(ss, es, n - 1);
      assert NoOverlap(ss[n]) && NoOverlap(ss[n - 1]);
      NextKeepsAtomic(ss[n - 1], es[n - 1], ss[n]);
    }
  }

  /** A write that completes leaves its pair, and prlimit was allowed to replace the completed value before it. */
  lemma CompletedWrites(ss: seq<State>, es: seq<Event>, n: nat)
    requires Run(ss, es) && n < |es| && (forall i :: 0 <= i <= n ==> NoOverlap(ss[i])) && es[n].Done?
    ensures var s, t := ss[n], es[n].t;
            && t in s.pcs && s.pcs[t].Storing?
            && var pc := s.pcs[t];
               && pc.c in s.cells && pc.c in s.last && s.cells[pc.c] == pc.new' && ss[n + 1].last == s.last[pc.c := pc.new']
               && (!pc.registry ==> pc.new'.cur <= pc.new'.max && (pc.new'.max <= s.last[pc.c].max || pc.capable))
  {
    WholeCalls(ss, es, n);
    var s, e := ss[n], es[n];
    assert Next(s, e, ss[n + 1]);
    assert Partial(s, s.pcs[e.t]) && Bounds(s, s.pcs[e.t]);
  }

  // ---------------------------------------------------------------------------------------------
  // Runs without overlap refine runs of whole calls

  /** A whole-call state with the same tasks and the completed values. */
  ghost predicate Shows(w: Sys, s: State) {
    && WellFormed(w) && w.tasks == s.tasks
    && forall c <- s.last :: c.resource < RLIM_NLIMITS && c.g in w.limits && w.limits[c.g][c.resource] == s.last[c]
  }

  function LimitsOf(last: map<Cell, Rlim>, g: Sig): seq<Rlim> {
    seq(RLIM_NLIMITS, r requires 0 <= r => if Cell(g, r) in last then last[Cell(g, r)] else Rlim(0, 0))
  }

  lemma StartShows(s: State) returns (w: Sys)
    requires Init(s)
    ensures Shows(w, s)
  {
    var groups := (set c | c in s.last :: c.g) + s.tasks.Values;
    w := Sys([], s.tasks, map g | g in groups :: LimitsOf(s.last, g));
    forall c | c in s.last
      ensures c.resource < RLIM_NLIMITS && c.g in w.limits && w.limits[c.g][c.resource] == s.last[c]
    {
      assert c.g in groups && c == Cell(c.g, c.resource);
    }
  }

  /** A completed write is a whole call: setrlimit, or an addition or update of the registry. */
  lemma WriteIsCall(w: Sys, s: State, pc: Pc, s': State) returns (e: LimitRlimit.Event, w': Sys)
    requires Shows(w, s) && pc.Storing? && Bounds(s, pc) && pc.c in s.last && (forall p <- s.tasks :: p > 0)
    requires !pc.registry ==> pc.new'.max <= s.last[pc.c].max || pc.capable
    requires s'.tasks == s.tasks && s'.last == s.last[pc.c := pc.new']
    ensures LimitRlimit.Next(w, e, w') && Shows(w', s')
  {
    var g, r, n := pc.c.g, pc.c.resource, pc.new';
    if !pc.registry {
      e := Prlimit(g, r, Some(n), n.max, pc.capable, 0, 0);
      w' := w.(limits := w.limits[g := w.limits[g][r := n]]);
    } else {
      var pid :| pid in s.tasks && s.tasks[pid] == g;
      w' := w.(limits := SetAs(w.limits, g, n.cur));
      if L.Has(w.entries, pid) {
        e := Update(pid, n.cur, 0, 0, 0);
        w' := w'.(entries := L.Updated(w.entries, pid, n.cur));
      } else {
        e := Add(pid, n.cur, true, 0, 0);
        w' := w'.(entries := w.entries + [L.Entry(pid, n.cur)]);
      }
    }
    NextKeepsForm(w, e, w');
  }

  /**
   Every run without overlap is seen as a run of whole calls, step by step: each completed write is one call, and every
   other step a call that changes nothing.
   */
  lemma {:induction false} RefinesWholeCalls(ss: seq<State>, es: seq<Event>, n: nat) returns (ws: seq<Sys>, fs: seq<LimitRlimit.Event>)
    requires Run(ss, es) && n < |ss| && forall i :: 0 <= i <= n ==> NoOverlap(ss[i])
    ensures LimitRlimit.Run(ws, fs) && |fs| == n && forall i :: 0 <= i <= n ==> Shows(ws[i], ss[i])
  {
    if n == 0 {
      var w := StartShows(ss[0]);
      ws, fs := [w], [];
    } else {
      ws, fs := RefinesWholeCalls(ss, es, n - 1);
      var f, w := StepIsCall(ss, es, n - 1, ws[n - 1]);
      RunLonger(ws, fs, f, w);
      ws, fs := ws + [w], fs + [f];
    }
  }

  lemma StepIsCall(ss: seq<State>, es: seq<Event>, n: nat, w: Sys) returns (f: LimitRlimit.Event, w': Sys)
    requires Run(ss, es) && n < |es| && (forall i :: 0 <= i <= n ==> NoOverlap(ss[i])) && Shows(w, ss[n])
    ensures LimitRlimit.Next(w, f, w') && Shows(w', ss[n + 1])
  {
    WholeCalls(ss, es, n);
    assert Next(ss[n], es[n], ss[n + 1]);
    if es[n].Done? {
      CompletedWrites(ss, es, n);
      var pc := ss[n].pcs[es[n].t];
      assert Bounds(ss[n], pc);
      f, w' := WriteIsCall(w, ss[n], pc, ss[n + 1]);
    } else {
      f, w' := Remove(0, -EINVAL), w;
    }
  }

  // ---------------------------------------------------------------------------------------------
  // Which values are safe together

  /** Every prlimit write of RLIMIT_AS stores `new'`, every registry write `limit`. */
  ghost predicate Writes(es: seq<Event>, new': Rlim, limit: nat) {
    forall i :: 0 <= i < |es| ==>
      (es[i].PrlimitLock? && es[i].c.resource == RLIMIT_AS ==> es[i].new' == new') && (es[i].RegistryLock? ==> es[i].limit == limit)
  }

  /** Any number of threads may write these two values in any interleaving. */
  ghost predicate PairSafe(new': Rlim, limit: nat) {
    forall ss: seq<State>, es: seq<Event> :: Run(ss, es) && Writes(es, new', limit) ==> Ordered(ss[|es|])
  }

  /** What the threads store is what the calls were given. */
  ghost predicate StoresOnly(pc: Pc, new': Rlim, limit: nat) {
    match pc
    case Idle => true
    case Checking(c, p, _) => c.resource == RLIMIT_AS ==> p == new'
    case Listing(_, _, l) => l == limit
    case Storing(registry, c, p, _, _, _) => if registry then p == Rlim(limit, limit) else c.resource == RLIMIT_AS ==> p == new'
  }

  lemma {:induction false} RunStoresOnly(ss: seq<State>, es: seq<Event>, new': Rlim, limit: nat, n: nat, t: Tid)
    requires Run(ss, es) && Writes(es, new', limit) && n < |ss| && t in ss[n].pcs
    ensures StoresOnly(ss[n].pcs[t], new', limit)
  {
    if n > 0 {
      assert Next(ss[n - 1], es[n - 1], ss[n]);
      assert t in ss[n - 1].pcs;
      RunStoresOnly(ss, es, new', limit, n - 1, t);
    }
  }

  lemma {:induction false} RegistryStoresAs(ss: seq<State>, es: seq<Event>, n: nat, t: Tid)
    requires Run(ss, es) && n < |ss| && t in ss[n].pcs && ss[n].pcs[t].Storing? && ss[n].pcs[t].registry
    ensures ss[n].pcs[t].c.resource == RLIMIT_AS
  {
    if n > 0 {
      assert Next(ss[n - 1], es[n - 1], ss[n]);
      assert t in ss[n - 1].pcs;
      if ss[n - 1].pcs[t].Storing? && ss[n - 1].pcs[t].registry {
        RegistryStoresAs(ss, es, n - 1, t);
      }
    }
  }

  lemma CompatibleIsSafe(new': Rlim, limit: nat, ss: seq<State>, es: seq<Event>)
    requires Compatible(new', limit) && Run(ss, es) && Writes(es, new', limit)
    ensures Ordered(ss[|es|])
  {
    forall i, t, u | 0 <= i < |es| && Overlap(ss[i], t, u)
      ensures Compatible(ss[i].pcs[t].new', ss[i].pcs[u].new'.cur)
    {
      RunStoresOnly(ss, es, new', limit, i, t);
      RunStoresOnly(ss, es, new', limit, i, u);
      RegistryStoresAs(ss, es, i, u);
    }
    CompatibleRunsOrdered(ss, es, |es|);
  }

  // The bad interleavings, from a cell that already holds the pair prlimit stores, without the capability

  const THE_CELL: Cell := Cell(0, RLIMIT_AS)

  function At(cell: Rlim, last: Rlim, p: Pc, r: Pc): State {
    State(map[1 := 0], map[THE_CELL := cell], map[THE_CELL := last], map[1 := p, 2 := r])
  }

  function P(new': Rlim, cur: bool, max: bool): Pc {
    Storing(false, THE_CELL, new', false, cur, max)
  }

  function R(limit: nat, cur: bool, max: bool): Pc {
    Storing(true, THE_CELL, Rlim(limit, limit), false, cur, max)
  }

  function RegistryTornState(p: Rlim, limit: nat, k: int): State {
    if k == 0 then At(p, p, Idle, Idle)
    else if k == 1 then At(p, p, Idle, Listing(1, 0, limit))
    else if k == 2 then At(p, p, Idle, R(limit, false, false))
    else if k == 3 then At(Rlim(limit, p.max), p, Idle, R(limit, true, false))
    else if k == 4 then At(Rlim(limit, p.max), p, Checking(THE_CELL, p, false), R(limit, true, false))
    else if k == 5 then At(Rlim(limit, p.max), p, P(p, false, false), R(limit, true, false))
    else if k == 6 then At(p, p, P(p, true, false), R(limit, true, false))
    else if k == 7 then At(p, p, P(p, true, true), R(limit, true, false))
    else if k == 8 then At(p, p, Idle, R(limit, true, false))
    else if k == 9 then At(Rlim(p.cur, limit), p, Idle, R(limit, true, true))
    else At(Rlim(p.cur, limit), Rlim(limit, limit), Idle, Idle)
  }

  function RegistryTornEvent(p: Rlim, limit: nat, k: int): Event {
    if k == 0 then RegistryLock(2, 1, limit)
    else if k == 1 then RegistryHook(2, 0)
    else if k == 2 then StoreCur(2)
    else if k == 3 then PrlimitLock(1, THE_CELL, p, false)
    else if k == 4 then PrlimitCheck(1, 0)
    else if k == 5 then StoreCur(1)
    else if k == 6 then StoreMax(1)
    else if k == 7 then Done(1)
    else if k == 8 then StoreMax(2)
    else Done(2)
  }

  lemma RegistryTornStarts(p: Rlim, limit: nat, k: nat)
    requires p.cur <= p.max && limit > 0 && k < 4
    ensures Next(RegistryTornState(p, limit, k), RegistryTornEvent(p, limit, k), RegistryTornState(p, limit, k + 1))
  {
    var a, b, e := RegistryTornState(p, limit, k), RegistryTornState(p, limit, k + 1), RegistryTornEvent(p, limit, k);
    assert b.pcs == a.pcs[e.t := b.pcs[e.t]];
  }

  lemma RegistryTornGoesOn(p: Rlim, limit: nat, k: nat)
    requires p.cur <= p.max && limit > 0 && 4 <= k < 7
    ensures Next(RegistryTornState(p, limit, k), RegistryTornEvent(p, limit, k), RegistryTornState(p, limit, k + 1))
  {
    var a, b, e := RegistryTornState(p, limit, k), RegistryTornState(p, limit, k + 1), RegistryTornEvent(p, limit, k);
    assert b.pcs == a.pcs[e.t := b.pcs[e.t]];
  }

  lemma RegistryTornEnds(p: Rlim, limit: nat, k: nat)
    requires p.cur <= p.max && limit > 0 && 7 <= k < 10
    ensures Next(RegistryTornState(p, limit, k), RegistryTornEvent(p, limit, k), RegistryTornState(p, limit, k + 1))
  {
    var a, b, e := RegistryTornState(p, limit, k), RegistryTornState(p, limit, k + 1), RegistryTornEvent(p, limit, k);
    assert b.pcs == a.pcs[e.t := b.pcs[e.t]];
  }

  /** The registry stores its soft limit, prlimit its whole pair, the registry its hard limit. */
  lemma RegistryTorn(p: Rlim, limit: nat) returns (ss: seq<State>, es: seq<Event>)
    requires p.cur <= p.max && limit > 0
    ensures Run(ss, es) && Writes(es, p, limit) && ss[|es|] == At(Rlim(p.cur, limit), Rlim(limit, limit), Idle, Idle)
  {
    ss, es := seq(11, k => RegistryTornState(p, limit, k)), seq(10, k => RegistryTornEvent(p, limit, k));
    forall i | 0 <= i < 10
      ensures Next(ss[i], es[i], ss[i + 1])
    {
      if i < 4 {
        RegistryTornStarts(p, limit, i);
      } else if i < 7 {
        RegistryTornGoesOn(p, limit, i);
      } else {
        RegistryTornEnds(p, limit, i);
      }
    }
  }

  function PrlimitTornState(p: Rlim, limit: nat, k: int): State {
    if k == 0 then At(p, p, Idle, Idle)
    else if k == 1 then At(p, p, Checking(THE_CELL, p, false), Idle)
    else if k == 2 then At(p, p, P(p, false, false), Idle)
    else if k == 3 then At(p, p, P(p, true, false), Idle)
    else if k == 4 then At(p, p, P(p, true, false), Listing(1, 0, limit))
    else if k == 5 then At(p, p, P(p, true, false), R(limit, false, false))
    else if k == 6 then At(Rlim(limit, p.max), p, P(p, true, false), R(limit, true, false))
    else if k == 7 then At(Rlim(limit, limit), p, P(p, true, false), R(limit, true, true))
    else if k == 8 then At(Rlim(limit, limit), Rlim(limit, limit), P(p, true, false), Idle)
    else if k == 9 then At(Rlim(limit, p.max), Rlim(limit, limit), P(p, true, true), Idle)
    else At(Rlim(limit, p.max), p, Idle, Idle)
  }

  function PrlimitTornEvent(p: Rlim, limit: nat, k: int): Event {
    if k == 0 then PrlimitLock(1, THE_CELL, p, false)
    else if k == 1 then PrlimitCheck(1, 0)
    else if k == 2 then StoreCur(1)
    else if k == 3 then RegistryLock(2, 1, limit)
    else if k == 4 then RegistryHook(2, 0)
    else if k == 5 then StoreCur(2)
    else if k == 6 then StoreMax(2)
    else if k == 7 then Done(2)
    else if k == 8 then StoreMax(1)
    else Done(1)
  }

  lemma PrlimitTornStarts(p: Rlim, limit: nat, k: nat)
    requires p.cur <= p.max && limit > 0 && k < 4
    ensures Next(PrlimitTornState(p, limit, k), PrlimitTornEvent(p, limit, k), PrlimitTornState(p, limit, k + 1))
  {
    var a, b, e := PrlimitTornState(p, limit, k), PrlimitTornState(p, limit, k + 1), PrlimitTornEvent(p, limit, k);
    assert b.pcs == a.pcs[e.t := b.pcs[e.t]];
  }

  lemma PrlimitTornGoesOn(p: Rlim, limit: nat, k: nat)
    requires p.cur <= p.max && limit > 0 && 4 <= k < 7
    ensures Next(PrlimitTornState(p, limit, k), PrlimitTornEvent(p, limit, k), PrlimitTornState(p, limit, k + 1))
  {
    var a, b, e := PrlimitTornState(p, limit, k), PrlimitTornState(p, limit, k + 1), PrlimitTornEvent(p, limit, k);
    assert b.pcs == a.pcs[e.t := b.pcs[e.t]];
  }

  lemma PrlimitTornEnds(p: Rlim, limit: nat, k: nat)
    requires p.cur <= p.max && limit > 0 && 7 <= k < 10
    ensures Next(PrlimitTornState(p, limit, k), PrlimitTornEvent(p, limit, k), PrlimitTornState(p, limit, k + 1))
  {
    var a, b, e := PrlimitTornState(p, limit, k), PrlimitTornState(p, limit, k + 1), PrlimitTornEvent(p, limit, k);
    assert b.pcs == a.pcs[e.t := b.pcs[e.t]];
  }

  /** prlimit stores its soft limit, the registry its whole pair, prlimit its hard limit. */
  lemma PrlimitTorn(p: Rlim, limit: nat) returns (ss: seq<State>, es: seq<Event>)
    requires p.cur <= p.max && limit > 0
    ensures Run(ss, es) && Writes(es, p, limit) && ss[|es|] == At(Rlim(limit, p.max), p, Idle, Idle)
  {
    ss, es := seq(11, k => PrlimitTornState(p, limit, k)), seq(10, k => PrlimitTornEvent(p, limit, k));
    forall i | 0 <= i < 10
      ensures Next(ss[i], es[i], ss[i + 1])
    {
      if i < 4 {
        PrlimitTornStarts(p, limit, i);
      } else if i < 7 {
        PrlimitTornGoesOn(p, limit, i);
      } else {
        PrlimitTornEnds(p, limit, i);
      }
    }
  }

  /**
   Two values are safe to write by the two calls in every interleaving if and only if the registry's limit lies between
   the words of the pair. Otherwise a run without any capability ends with a soft limit above its hard limit.
   */
  lemma PairSafeExactly(new': Rlim, limit: nat)
    requires new'.cur <= new'.max && limit > 0
    ensures PairSafe(new', limit) <==> Compatible(new', limit)
  {
    if Compatible(new', limit) {
      forall ss: seq<State>, es: seq<Event> | Run(ss, es) && Writes(es, new', limit)
        ensures Ordered(ss[|es|])
      {
        CompatibleIsSafe(new', limit, ss, es);
      }
    } else if limit < new'.cur {
      var ss, es := RegistryTorn(new', limit);
      assert !Torn(ss[|es|], THE_CELL) && !Ordered(ss[|es|]);
    } else {
      var ss, es := PrlimitTorn(new', limit);
      assert !Torn(ss[|es|], THE_CELL) && !Ordered(ss[|es|]);
    }
  }
}
