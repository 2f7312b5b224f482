/**
 The built memory-limit registry, kernel/usac/taro_mani_mem.c, which mirrors each limit into RLIMIT_AS, together
 with do_prlimit of kernel/sys.c, which writes the same resource limits.
 */
module LimitRlimit {
  import opened Errno
  import opened Options
  import L = LimitList
  import R = RingList

  type Pid = int

  /** A signal_struct: the threads of one process share one, and with it their resource limits. */
  type Sig = int

  const RLIM_NLIMITS: nat := 16
  const RLIMIT_NOFILE: nat := 7
  const RLIMIT_AS: nat := 9
  const PAGE_SIZE: nat := 4096

  datatype Rlim = Rlim(cur: nat, max: nat)

  datatype Sys = Sys(entries: seq<L.Entry>, tasks: map<Pid, Sig>, limits: map<Sig, seq<Rlim>>)

  ghost predicate WellFormed(s: Sys) {
    && L.Proper(s.entries)
    && (forall p <- s.tasks :: p > 0 && s.tasks[p] in s.limits)
    && (forall g <- s.limits :: |s.limits[g]| == RLIM_NLIMITS)
  }

  function AsLimit(s: Sys, pid: Pid): Rlim
    requires WellFormed(s) && pid in s.tasks
  {
    var g: Sig := s.tasks[pid];
    assert g in s.limits;
    s.limits[g][RLIMIT_AS]
  }

  /** Every listed process that is alive has its limit in both halves of RLIMIT_AS. */
  ghost predicate Agreement(s: Sys)
    requires WellFormed(s)
  {
    forall e <- s.entries :: e.pid in s.tasks ==> AsLimit(s, e.pid) == Rlim(e.limit, e.limit)
  }

  /** All live listed entries of process g carry this limit. */
  ghost predicate AllListed(s: Sys, g: Sig, except: Pid, limit: nat) {
    forall e <- s.entries :: e.pid in s.tasks && s.tasks[e.pid] == g && e.pid != except ==> e.limit == limit
  }

  function SetAs(limits: map<Sig, seq<Rlim>>, g: Sig, limit: nat): map<Sig, seq<Rlim>>
    requires g in limits && |limits[g]| == RLIM_NLIMITS
  {
    limits[g := limits[g][RLIMIT_AS := Rlim(limit, limit)]]
  }

  // ---------------------------------------------------------------------------------------------
  // What each call does

  /** The call gets as far as asking the security hook. */
  ghost predicate AddReachesHook(s: Sys, pid: Pid, limit: nat, memory: bool) {
    pid >= 0 && limit > 0 && pid in s.tasks && !L.Has(s.entries, pid) && memory
  }

  ghost predicate UpdateReachesHook(s: Sys, pid: Pid, limit: nat, totalVm: nat) {
    pid >= 0 && limit > 0 && pid in s.tasks && L.Has(s.entries, pid) && totalVm <= limit / PAGE_SIZE
  }

  ghost predicate AddOutcome(s: Sys, pid: Pid, limit: nat, memory: bool, hook: int, ret: int, s': Sys)
    requires WellFormed(s)
  {
    && (ret == 0 <==> AddReachesHook(s, pid, limit, memory) && hook == 0)
    && (ret == 0 ==> s' == s.(entries := s.entries + [L.Entry(pid, limit)], limits := SetAs(s.limits, s.tasks[pid], limit)))
    && (ret != 0 ==> s' == s)
  }

  ghost predicate UpdateOutcome(s: Sys, pid: Pid, limit: nat, totalVm: nat, hook: int, ret: int, s': Sys)
    requires WellFormed(s)
  {
    && (ret == 0 <==> UpdateReachesHook(s, pid, limit, totalVm) && hook == 0)
    && (!UpdateReachesHook(s, pid, limit, totalVm) ==> s' == s)
    && (UpdateReachesHook(s, pid, limit, totalVm) ==>
          s' == s.(entries := L.Updated(s.entries, pid, limit),
                   limits := if hook == 0 then SetAs(s.limits, s.tasks[pid], limit) else s.limits))
  }

  ghost predicate RemoveOutcome(s: Sys, pid: Pid, ret: int, s': Sys) {
    && (ret == 0 <==> pid > 0 && L.Has(s.entries, pid))
    && s' == if ret == 0 then s.(entries := L.Without(s.entries, pid)) else s
  }

  /** do_prlimit refuses a soft limit above the hard one, too many files, and raising the hard limit uncapably. */
  ghost predicate MayLimit(cur: Rlim, resource: nat, new': Rlim, nrOpen: nat, capable: bool) {
    && new'.cur <= new'.max && (resource == RLIMIT_NOFILE ==> new'.max <= nrOpen)
    && (new'.max <= cur.max || capable)
  }

  ghost predicate PrlimitOutcome(s: Sys, g: Sig, resource: nat, new': Option<Rlim>, nrOpen: nat, capable: bool, hook: int, ret: int, s': Sys)
    requires WellFormed(s) && g in s.limits
  {
    && (ret == 0 <==> resource < RLIM_NLIMITS
                      && (new'.Some? ==> MayLimit(s.limits[g][resource], resource, new'.value, nrOpen, capable) && hook == 0))
    && s' == if ret == 0 && new'.Some? then s.(limits := s.limits[g := s.limits[g][resource := new'.value]]) else s
  }

  // ---------------------------------------------------------------------------------------------
  // The calls

  /** A call of another thread to the registry. */
  datatype Other =
    | AddCall(pid: Pid, limit: nat, memory: bool, hook: int)
    | UpdateCall(pid: Pid, limit: nat, totalVm: nat, hook: int)
    | RemoveCall(pid: Pid)

  class Kernel {
    const list: R.Ring
    var tasks: map<Pid, Sig>
    var limits: map<Sig, seq<Rlim>>
    var mutexHeld: bool

    ghost function View(): Sys
      reads this, list
    {
      Sys(list.contents, tasks, limits)
    }

    ghost predicate Valid()
      reads this, list, list.head, list.nodes
    {
      list.Sound() && WellFormed(View()) && !mutexHeld
    }

    constructor (tasks: map<Pid, Sig>, limits: map<Sig, seq<Rlim>>)
      requires WellFormed(Sys([], tasks, limits))
      ensures Valid() && View() == Sys([], tasks, limits) && !list.badAccess
    {
      this.tasks, this.limits, mutexHeld := tasks, limits, false;
      list := new R.Ring();
    }

    ghost predicate Refused(pid: Pid, limit: nat, memory: bool, hook: int)
      reads this, list
    {
      AddReachesHook(View(), pid, limit, memory) && hook != 0
    }

    /**
     A refused addition frees its node before it unlinks it: an access to freed memory, always. The list survives
     exactly when the links read there are still the old ones; `reused` is what else the freed memory may hold by
     then. `oops` is a fault, which leaves the mutex held.
     */
    method AddMemoryLimit(pid: Pid, limit: nat, memory: bool, hook: int, reused: Option<(R.Node?, R.Node?)>) returns (ret: int, oops: bool)
      requires Valid()
      modifies this, list, list.head, list.nodes
      modifies (if reused.Some? then R.Ring.Ends(reused.value.0) + R.Ring.Ends(reused.value.1) else {})
      ensures list.badAccess == (old(list.badAccess) || old(Refused(pid, limit, memory, hook)))
      ensures list.Sound() <==> (old(Refused(pid, limit, memory, hook)) ==>
                                   reused.None? || reused.value == (list.head, old(list.At(|list.nodes| - 1))))
      ensures list.Sound() ==> !oops && !mutexHeld && AddOutcome(old(View()), pid, limit, memory, hook, ret, View())
      ensures list.Sound() ==> WellFormed(View())
      ensures old(list.live) <= list.live && fresh(list.live - old(list.live))
      ensures ret == L.ALREADY_LISTED <==> pid >= 0 && limit > 0 && pid in tasks && L.Has(old(list.contents), pid)
      ensures ret == -ESRCH <==> pid >= 0 && limit > 0 && pid !in tasks
      ensures ret in {0, -EINVAL, -ESRCH, L.ALREADY_LISTED, -ENOMEM, -EPERM}
      ensures ret == -EINVAL <==> pid < 0 || limit <= 0
      ensures ret == -EPERM <==> old(Refused(pid, limit, memory, hook))
    {
      oops := false;
      if pid < 0 || limit <= 0 {
        return -EINVAL, oops;
      }
      if pid !in tasks {
        return -ESRCH, oops;
      }
      mutexHeld := true;
      ret, oops := AddLocked(pid, limit, memory, hook, reused);
      if !oops {
        mutexHeld := false;
      }
    }

    /** The part of the call under the mutex. */
    method AddLocked(pid: Pid, limit: nat, memory: bool, hook: int, reused: Option<(R.Node?, R.Node?)>) returns (ret: int, oops: bool)
      requires mutexHeld && list.Sound() && WellFormed(View()) && pid >= 0 && limit > 0 && pid in tasks
      modifies this`limits, list, list.head, list.nodes
      modifies (if reused.Some? then R.Ring.Ends(reused.value.0) + R.Ring.Ends(reused.value.1) else {})
      ensures list.badAccess == (old(list.badAccess) || old(Refused(pid, limit, memory, hook)))
      ensures list.Sound() <==> (old(Refused(pid, limit, memory, hook)) ==>
                                   reused.None? || reused.value == (list.head, old(list.At(|list.nodes| - 1))))
      ensures list.Sound() ==> !oops && AddOutcome(old(View()), pid, limit, memory, hook, ret, View()) && WellFormed(View())
      ensures old(list.live) <= list.live && fresh(list.live - old(list.live))
      ensures ret == L.ALREADY_LISTED <==> L.Has(old(list.contents), pid)
      ensures ret in {0, L.ALREADY_LISTED, -ENOMEM, -EPERM} && (ret == -EPERM <==> old(Refused(pid, limit, memory, hook)))
    {
      var found, _ := list.Find(pid);
      if found != list.head {
        return L.ALREADY_LISTED, false;
      }
      if !memory {
        return -ENOMEM, false;
      }
      ret, oops := AddListed(pid, limit, hook, reused);
    }

    /** The part of the call that has its node. */
    method AddListed(pid: Pid, limit: nat, hook: int, reused: Option<(R.Node?, R.Node?)>) returns (ret: int, oops: bool)
      requires list.Sound() && WellFormed(View()) && AddReachesHook(View(), pid, limit, true)
      modifies this`limits, list, list.head, list.nodes
      modifies (if reused.Some? then R.Ring.Ends(reused.value.0) + R.Ring.Ends(reused.value.1) else {})
      ensures ret == (if hook == 0 then 0 else -EPERM)
      ensures list.badAccess == (old(list.badAccess) || hook != 0)
      ensures list.Sound() <==> (hook != 0 ==> reused.None? || reused.value == (list.head, old(list.At(|list.nodes| - 1))))
      ensures list.Sound() ==> !oops && AddOutcome(old(View()), pid, limit, true, hook, ret, View()) && WellFormed(View())
      ensures old(list.live) <= list.live && fresh(list.live - old(list.live))
    {
      var task := tasks[pid];
      Listed(list.contents, pid, limit);
      oops := list.AddUnlessRefused(pid, limit, hook != 0, reused);
      if hook != 0 {
        return -EPERM, oops;
      }
      limits := limits[task := limits[task][RLIMIT_AS := Rlim(limit, limit)]];
      return 0, oops;
    }

    method UpdateMemoryLimit(pid: Pid, limit: nat, totalVm: nat, hook: int) returns (ret: int)
      requires Valid()
      modifies this, list, list.nodes
      ensures list.Sound() && !mutexHeld && list.badAccess == old(list.badAccess)
      ensures UpdateOutcome(old(View()), pid, limit, totalVm, hook, ret, View()) && WellFormed(View()) && list.live == old(list.live)
      ensures ret in {0, -EINVAL, -ESRCH, L.NOT_LISTED, L.OVER_LIMIT, -EPERM}
      ensures ret == -EPERM <==> old(UpdateReachesHook(View(), pid, limit, totalVm)) && hook != 0
      ensures ret == -EINVAL <==> pid < 0 || limit <= 0
      ensures ret == -ESRCH <==> pid >= 0 && limit > 0 && pid !in tasks
      ensures ret == L.NOT_LISTED <==> pid >= 0 && limit > 0 && pid in tasks && !L.Has(old(list.contents), pid)
    {
      if pid < 0 || limit <= 0 {
        return -EINVAL;
      }
      if pid !in tasks {
        return -ESRCH;
      }
      mutexHeld := true;
      ret := UpdateLocked(pid, limit, totalVm, hook);
      mutexHeld := false;
    }

    /** The part of the call under the mutex. */
    method UpdateLocked(pid: Pid, limit: nat, totalVm: nat, hook: int) returns (ret: int)
      requires mutexHeld && list.Sound() && WellFormed(View()) && pid >= 0 && limit > 0 && pid in tasks
      modifies this`limits, list, list.nodes
      ensures list.Sound() && list.badAccess == old(list.badAccess) && list.live == old(list.live)
      ensures UpdateOutcome(old(View()), pid, limit, totalVm, hook, ret, View())
      ensures ret in {0, L.NOT_LISTED, L.OVER_LIMIT, -EPERM}
      ensures ret == -EPERM <==> old(UpdateReachesHook(View(), pid, limit, totalVm)) && hook != 0
      ensures ret == L.NOT_LISTED <==> !L.Has(old(list.contents), pid)
    {
      var found, i := list.Find(pid);
      if found == list.head {
        return L.NOT_LISTED;
      }
      if totalVm > limit / PAGE_SIZE {
        return L.OVER_LIMIT;
      }
      ret := UpdateListed(pid, found, i, limit, hook);
    }

    /** The part of the call that found its entry. */
    method UpdateListed(pid: Pid, entry: R.Node, ghost i: nat, limit: nat, hook: int) returns (ret: int)
      requires list.Sound() && WellFormed(View()) && pid in tasks && limit > 0
      requires i < |list.nodes| && entry == list.nodes[i] && list.contents[i].pid == pid
      modifies this`limits, list, list.nodes
      ensures list.Sound() && list.badAccess == old(list.badAccess) && ret == (if hook == 0 then 0 else -EPERM)
      ensures list.contents == L.Updated(old(list.contents), pid, limit) && list.live == old(list.live)
      ensures limits == if hook == 0 then SetAs(old(limits), tasks[pid], limit) else old(limits)
    {
      L.UpdatedAt(list.contents, i, limit);
      list.Store(entry, i, limit);
      if hook != 0 {
        return -EPERM;
      }
      var task := tasks[pid];
      limits := limits[task := limits[task][RLIMIT_AS := Rlim(limit, limit)]];
      return 0;
    }

    method RemoveMemoryLimit(pid: Pid) returns (ret: int)
      requires Valid()
      modifies this, list, list.head, list.nodes
      ensures list.Sound() && !mutexHeld && list.badAccess == old(list.badAccess)
      ensures RemoveOutcome(old(View()), pid, ret, View()) && WellFormed(View())
      ensures list.live <= old(list.live) && forall n <- old(list.live) :: n in list.live <==> !(pid > 0 && n.pid == pid)
      ensures ret in {0, -EINVAL, L.NOT_LISTED} && (ret == -EINVAL <==> pid <= 0)
    {
      if pid <= 0 {
        return -EINVAL;
      }
      mutexHeld := true;
      var found := RemoveLocked(pid);
      mutexHeld := false;
      return if found then 0 else L.NOT_LISTED;
    }

    method RemoveLocked(pid: Pid) returns (found: bool)
      requires mutexHeld && list.Sound()
      modifies list, list.head, list.nodes
      ensures list.Sound() && list.badAccess == old(list.badAccess) && (found <==> L.Has(old(list.contents), pid))
      ensures list.contents == if found then L.Without(old(list.contents), pid) else old(list.contents)
      ensures list.live <= old(list.live) && forall n <- old(list.live) :: n in list.live <==> n.pid != pid
    {
      found := list.RemoveFor(pid);
    }

    method CopyLocked(maxEntries: nat) returns (copied: seq<L.Entry>, cursor: R.Node)
      requires mutexHeld && list.Sound()
      modifies list`badAccess
      ensures list.badAccess == old(list.badAccess)
      ensures copied == list.contents[..if maxEntries < |list.contents| then maxEntries else |list.contents|]
      ensures cursor in list.live <==> maxEntries < |list.contents|
      ensures cursor == if maxEntries < |list.contents| then list.nodes[maxEntries] else list.head
      ensures maxEntries < |list.contents| ==> cursor.pid == list.contents[maxEntries].pid
    {
      copied, cursor := list.Copy(maxEntries);
    }

    /** Any calls of other threads, one after the other; the additions among them that are refused leave the links alone. */
    method Others(calls: seq<Other>, ghost watched: R.Node) returns (ghost ss: seq<Sys>, ghost es: seq<Event>)
      requires Valid()
      modifies this, list, list.head, list.nodes
      ensures Valid() && Run(ss, es) && |es| == |calls| && ss[0] == old(View()) && ss[|es|] == View()
      ensures watched in list.live <==> watched in old(list.live) && !(watched.pid > 0 && RemoveCall(watched.pid) in calls)
      ensures (forall c <- calls :: c.AddCall? ==> c.hook == 0) ==> list.badAccess == old(list.badAccess)
    {
      ss, es := [View()], [];
      var i := 0;
      while i < |calls|
        invariant 0 <= i <= |calls| && Valid() && fresh(list.live - old(list.live))
        invariant Run(ss, es) && |es| == i && ss[0] == old(View()) && ss[i] == View()
        invariant watched in list.live <==> watched in old(list.live) && !(watched.pid > 0 && RemoveCall(watched.pid) in calls[..i])
        invariant (forall c <- calls :: c.AddCall? ==> c.hook == 0) ==> list.badAccess == old(list.badAccess)
      {
        ghost var e := OneOther(calls[i], watched);
        RunLonger(ss, es, e, View());
        ss, es := ss + [View()], es + [e];
        assert calls[..i + 1] == calls[..i] + [calls[i]];
        i := i + 1;
      }
      assert calls[..i] == calls;
    }

    method OneOther(call: Other, ghost watched: R.Node) returns (ghost e: Event)
      requires Valid()
      modifies this, list, list.head, list.nodes
      ensures Valid() && Next(old(View()), e, View()) && fresh(list.live - old(list.live))
      ensures watched in list.live <==> watched in old(list.live) && !(call.RemoveCall? && call.pid == watched.pid && call.pid > 0)
      ensures (call.AddCall? ==> call.hook == 0) ==> list.badAccess == old(list.badAccess)
    {
      match call
      case AddCall(pid, limit, memory, hook) =>
        var ret, _ := AddMemoryLimit(pid, limit, memory, hook, None);
        e := Add(pid, limit, memory, hook, ret);
      case UpdateCall(pid, limit, totalVm, hook) =>
        var ret := UpdateMemoryLimit(pid, limit, totalVm, hook);
        e := Update(pid, limit, totalVm, hook, ret);
      case RemoveCall(pid) =>
        var ret := RemoveMemoryLimit(pid);
        e := Remove(pid, ret);
    }

    /**
     The caller receives a prefix of the list. `delivered` is how many entries a failing copy to the caller gets across,
     `others` are the calls of other threads between the unlock and the message that ends a successful call. The message
     reads through the cursor. That is safe if and only if there were more entries than asked for, and the first of those
     left out has not been removed by then.
     */
    method GetMemoryLimits(hasBuffer: bool, hasCounter: bool, maxEntries: nat, memory: bool, bufferOk: bool, delivered: nat, counterOk: bool,
                           others: seq<Other>)
      returns (ret: int, written: seq<L.Entry>, count: Option<nat>, ghost safe: bool)
      requires Valid()
      modifies this, list, list.head, list.nodes
      ensures Valid()
      ensures ret == 0 <==> hasBuffer && hasCounter && maxEntries > 0 && memory && bufferOk && counterOk
      ensures ret == if !hasBuffer || !hasCounter || maxEntries == 0 then -EINVAL else if !memory then -ENOMEM
                     else if bufferOk && counterOk then 0 else -EFAULT
      ensures written <= old(list.contents)
      ensures ret == -EFAULT ==>
                var n := if maxEntries < |old(list.contents)| then maxEntries else |old(list.contents)|;
                count.None? && |written| == if bufferOk || n < delivered then n else delivered
      ensures ret == 0 ==> count == Some(|written|) && |written| == if maxEntries < |old(list.contents)| then maxEntries else |old(list.contents)|
      ensures safe <==> maxEntries < |old(list.contents)|
                        && !(old(list.contents)[maxEntries].pid > 0 && RemoveCall(old(list.contents)[maxEntries].pid) in others)
      ensures ret == 0 && !safe ==> list.badAccess
      ensures (ret == 0 ==> safe) && (forall c <- others :: c.AddCall? ==> c.hook == 0) ==> list.badAccess == old(list.badAccess)
    {
      written, count := [], None;
      safe := maxEntries < |list.contents| && !(list.contents[maxEntries].pid > 0 && RemoveCall(list.contents[maxEntries].pid) in others);
      if !hasBuffer || !hasCounter || maxEntries <= 0 {
        return -EINVAL, written, count, safe;
      }
      if !memory {
        return -ENOMEM, written, count, safe;
      }
      mutexHeld := true;
      var copied, cursor := CopyLocked(maxEntries);
      mutexHeld := false;
      if !bufferOk {
        written := copied[..if delivered < |copied| then delivered else |copied|];
        return -EFAULT, written, count, safe;
      }
      written := copied;
      if !counterOk {
        return -EFAULT, written, count, safe;
      }
      ReportLater(others, cursor);
      return 0, written, Some(|copied|), safe;
    }

    /** The message that ends a successful call, after the calls of other threads that get in between. */
    method ReportLater(others: seq<Other>, cursor: R.Node)
      requires Valid()
      modifies this, list, list.head, list.nodes
      ensures Valid()
      ensures var live := cursor in old(list.live) && !(cursor.pid > 0 && RemoveCall(cursor.pid) in others);
              && (!live ==> list.badAccess)
              && (live && (forall c <- others :: c.AddCall? ==> c.hook == 0) ==> list.badAccess == old(list.badAccess))
    {
      var _, _ := Others(others, cursor);
      var _, _ := list.Report(cursor);
    }

    /** The failing run: whatever the list, asking for fewer entries than it has while the next one is removed. */
    method CursorRemoved(maxEntries: nat)
      requires Valid() && 0 < maxEntries < |list.contents| && list.contents[maxEntries].pid > 0
      modifies this, list, list.head, list.nodes
      ensures list.badAccess
    {
      var _, cursor := list.Copy(maxEntries);
      var ret, _, _, _ := GetMemoryLimits(true, true, maxEntries, true, true, 0, true, [RemoveCall(cursor.pid)]);
      assert ret == 0;
    }

    /** do_prlimit; a caller that asks for no old limits ignores `was`. */
    method DoPrlimit(g: Sig, resource: nat, new': Option<Rlim>, nrOpen: nat, capable: bool, hook: int) returns (ret: int, was: Option<Rlim>)
      requires WellFormed(View()) && g in limits
      modifies this
      ensures PrlimitOutcome(old(View()), g, resource, new', nrOpen, capable, hook, ret, View()) && mutexHeld == old(mutexHeld)
      ensures was == if ret == 0 then Some(old(limits)[g][resource]) else None
      ensures ret == -EINVAL && hook == 0 ==> resource >= RLIM_NLIMITS || (new'.Some? && new'.value.max < new'.value.cur)
      ensures resource >= RLIM_NLIMITS || (new'.Some? && new'.value.max < new'.value.cur) ==> ret == -EINVAL
      ensures resource < RLIM_NLIMITS && new'.Some? && new'.value.cur <= new'.value.max ==>
                && (ret == if MayLimit(old(limits)[g][resource], resource, new'.value, nrOpen, capable) then hook else -EPERM)
                && (resource == RLIMIT_NOFILE && nrOpen < new'.value.max ==> ret == -EPERM)
                && (resource != RLIMIT_NOFILE && (capable || new'.value.max <= old(limits)[g][resource].max) ==> ret == hook)
    {
      was := None;
      if resource >= RLIM_NLIMITS {
        return -EINVAL, was;
      }
      if new'.Some? {
        if new'.value.cur > new'.value.max {
          return -EINVAL, was;
        }
        if resource == RLIMIT_NOFILE && new'.value.max > nrOpen {
          return -EPERM, was;
        }
      }
      var rlim := limits[g][resource];
      ret := 0;
      if new'.Some? {
        if new'.value.max > rlim.max && !capable {
          ret := -EPERM;
        }
        if ret == 0 {
          ret := hook;
        }
      }
      if ret == 0 {
        was := Some(rlim);
        if new'.Some? {
          limits := limits[g := limits[g][resource := new'.value]];
        }
      }
    }
  }

  // ---------------------------------------------------------------------------------------------
  // Runs

  datatype Event =
    | Add(pid: Pid, limit: nat, memory: bool, hook: int, ret: int)
    | Update(pid: Pid, limit: nat, totalVm: nat, hook: int, ret: int)
    | Remove(pid: Pid, ret: int)
    | Prlimit(g: Sig, resource: nat, new': Option<Rlim>, nrOpen: nat, capable: bool, hook: int, ret: int)
    | Spawn(parent: Pid, pid: Pid, g: Sig)   // fork copies the limits; a new thread shares them
    | Exit(pid: Pid)

  ghost predicate Next(s: Sys, e: Event, s': Sys) {
    && WellFormed(s)
    && match e
       case Add(pid, limit, memory, hook, ret) => AddOutcome(s, pid, limit, memory, hook, ret, s')
       case Update(pid, limit, totalVm, hook, ret) => UpdateOutcome(s, pid, limit, totalVm, hook, ret, s')
       case Remove(pid, ret) => RemoveOutcome(s, pid, ret, s')
       case Prlimit(g, resource, new', nrOpen, capable, hook, ret) =>
         g in s.limits && PrlimitOutcome(s, g, resource, new', nrOpen, capable, hook, ret, s')
       case Spawn(parent, pid, g) =>
         && parent in s.tasks && pid > 0 && pid !in s.tasks && (g == s.tasks[parent] || g !in s.limits)
         && s' == s.(tasks := s.tasks[pid := g], limits := s.limits[g := s.limits[s.tasks[parent]]])
       case Exit(pid) => s' == s.(tasks := s.tasks - {pid})
  }

  ghost predicate Run(ss: seq<Sys>, es: seq<Event>) {
    && |ss| == |es| + 1 && WellFormed(ss[0])
    && forall i :: 0 <= i < |es| ==> Next(ss[i], es[i], ss[i + 1])
  }

  /** The steps that cannot set list and limits at odds, told from the state before the step. */
  ghost predicate Quiet(s: Sys, e: Event)
    requires WellFormed(s)
  {
    match e
    case Add(pid, limit, memory, hook, _) =>
      AddReachesHook(s, pid, limit, memory) && hook == 0 ==> AllListed(s, s.tasks[pid], pid, limit)
    case Update(pid, limit, totalVm, hook, _) =>
      UpdateReachesHook(s, pid, limit, totalVm) ==>
        if hook == 0 then AllListed(s, s.tasks[pid], pid, limit) else L.Entry(pid, limit) in s.entries
    case Remove(_, _) => true
    case Prlimit(g, resource, new', nrOpen, capable, hook, _) =>
      resource == RLIMIT_AS && g in s.limits && new'.Some? && MayLimit(s.limits[g][RLIMIT_AS], resource, new'.value, nrOpen, capable) && hook == 0
      ==> forall x <- s.entries :: x.pid in s.tasks && s.tasks[x.pid] == g ==> new'.value == Rlim(x.limit, x.limit)
    case Spawn(parent, pid, g) =>
      parent in s.tasks ==> forall x <- s.entries :: x.pid == pid ==> AsLimit(s, parent) == Rlim(x.limit, x.limit)
    case Exit(_) => true
  }

  lemma RunLonger(ss: seq<Sys>, es: seq<Event>, e: Event, s': Sys)
    requires Run(ss, es) && Next(ss[|es|], e, s')
    ensures Run(ss + [s'], es + [e])
  {
    var ss', es' := ss + [s'], es + [e];
    forall i | 0 <= i < |es'|
      ensures Next(ss'[i], es'[i], ss'[i + 1])
    {
      if i < |es| {
        assert ss'[i] == ss[i] && ss'[i + 1] == ss[i + 1];
      }
    }
  }

  lemma Listed(es: seq<L.Entry>, pid: Pid, limit: nat)
    requires L.Proper(es) && !L.Has(es, pid) && pid >= 0 && limit > 0
    ensures L.Proper(es + [L.Entry(pid, limit)])
  {
    assert forall i :: 0 <= i < |es| ==> es[i].pid != pid;
  }

  lemma AddKeepsForm(s: Sys, e: Event, s': Sys)
    requires Next(s, e, s') && e.Add?
    ensures WellFormed(s')
  {
  }

  lemma UpdateKeepsForm(s: Sys, e: Event, s': Sys)
    requires Next(s, e, s') && e.Update?
    ensures WellFormed(s')
  {
    if UpdateReachesHook(s, e.pid, e.limit, e.totalVm) {
      L.UpdateRefinesMap(s.entries, e.pid, e.limit);
    }
  }

  lemma RemoveKeepsForm(s: Sys, e: Event, s': Sys)
    requires Next(s, e, s') && e.Remove?
    ensures WellFormed(s')
  {
    if e.pid > 0 && L.Has(s.entries, e.pid) {
      L.RemoveRefinesMap(s.entries, e.pid);
    }
  }

  lemma NextKeepsForm(s: Sys, e: Event, s': Sys)
    requires Next(s, e, s')
    ensures WellFormed(s')
  {
    match e
    case Add(_, _, _, _, _) => AddKeepsForm(s, e, s');
    case Update(_, _, _, _, _) => UpdateKeepsForm(s, e, s');
    case Remove(_, _) => RemoveKeepsForm(s, e, s');
    case _ =>
  }

  lemma AddQuietExact(s: Sys, e: Event, s': Sys)
    requires Next(s, e, s') && e.Add? && Agreement(s) && WellFormed(s')
    ensures Agreement(s') <==> Quiet(s, e)
  {
    if e.ret == 0 {
      var g := s.tasks[e.pid];
      forall x | x in s.entries && x.pid in s.tasks
        ensures AsLimit(s', x.pid) == if s.tasks[x.pid] == g then Rlim(e.limit, e.limit) else AsLimit(s, x.pid)
        ensures x in s'.entries && x.pid != e.pid
      {
      }
      assert forall x <- s'.entries :: x in s.entries || x == L.Entry(e.pid, e.limit);
    }
  }

  lemma RemoveQuiet(s: Sys, e: Event, s': Sys)
    requires Next(s, e, s') && e.Remove? && Agreement(s) && WellFormed(s')
    ensures Agreement(s')
  {
    if e.ret == 0 {
      var i :| 0 <= i < |s.entries| && s.entries[i].pid == e.pid;
      L.WithoutAt(s.entries, i);
      assert forall x <- s'.entries :: x in s.entries;
      assert forall x :: x in s'.entries && x.pid in s'.tasks ==> AsLimit(s', x.pid) == AsLimit(s, x.pid);
    }
  }

  /** The entries after an update: the new one, and all others. */
  lemma UpdatedEntries(es: seq<L.Entry>, pid: Pid, limit: nat)
    requires L.Proper(es) && L.Has(es, pid)
    ensures forall x :: x in L.Updated(es, pid, limit) <==> x == L.Entry(pid, limit) || (x in es && x.pid != pid)
  {
    var i :| 0 <= i < |es| && es[i].pid == pid;
    L.UpdatedAt(es, i, limit);
    var us := es[i := L.Entry(pid, limit)];
    assert us[i] == L.Entry(pid, limit);
    forall x | x in es && x.pid != pid
      ensures x in us
    {
      var k :| 0 <= k < |es| && es[k] == x;
      assert us[k] == x;
    }
  }

  lemma UpdateQuietExact(s: Sys, e: Event, s': Sys)
    requires Next(s, e, s') && e.Update? && Agreement(s) && WellFormed(s')
    ensures Agreement(s') <==> Quiet(s, e)
  {
    if UpdateReachesHook(s, e.pid, e.limit, e.totalVm) {
      UpdatedEntries(s.entries, e.pid, e.limit);
      if e.hook == 0 {
        UpdateAccepted(s, e, s');
      } else {
        UpdateRefused(s, e, s');
      }
    }
  }

  lemma UpdateAccepted(s: Sys, e: Event, s': Sys)
    requires Next(s, e, s') && e.Update? && Agreement(s) && WellFormed(s')
    requires UpdateReachesHook(s, e.pid, e.limit, e.totalVm) && e.hook == 0
    requires forall x :: x in s'.entries <==> x == L.Entry(e.pid, e.limit) || (x in s.entries && x.pid != e.pid)
    ensures Agreement(s') <==> AllListed(s, s.tasks[e.pid], e.pid, e.limit)
  {
    var g := s.tasks[e.pid];
    forall x | x in s.entries && x.pid in s.tasks && x.pid != e.pid
      ensures AsLimit(s', x.pid) == if s.tasks[x.pid] == g then Rlim(e.limit, e.limit) else AsLimit(s, x.pid)
    {
    }
  }

  lemma UpdateRefused(s: Sys, e: Event, s': Sys)
    requires Next(s, e, s') && e.Update? && Agreement(s) && WellFormed(s')
    requires UpdateReachesHook(s, e.pid, e.limit, e.totalVm) && e.hook != 0
    requires forall x :: x in s'.entries <==> x == L.Entry(e.pid, e.limit) || (x in s.entries && x.pid != e.pid)
    ensures Agreement(s') <==> L.Entry(e.pid, e.limit) in s.entries
  {
    var i :| 0 <= i < |s.entries| && s.entries[i].pid == e.pid;
    var mine := s.entries[i];
    assert mine in s.entries && AsLimit(s, e.pid) == Rlim(mine.limit, mine.limit);
    forall p | p in s.tasks
      ensures AsLimit(s', p) == AsLimit(s, p)
    {
    }
    assert L.Entry(e.pid, e.limit) in s'.entries;
    if L.Entry(e.pid, e.limit) in s.entries {
      var k :| 0 <= k < |s.entries| && s.entries[k] == L.Entry(e.pid, e.limit);
      assert k == i;
    }
  }

  lemma PrlimitQuietExact(s: Sys, e: Event, s': Sys)
    requires Next(s, e, s') && e.Prlimit? && Agreement(s) && WellFormed(s')
    ensures Agreement(s') <==> Quiet(s, e)
  {
    forall x | x in s.entries && x.pid in s.tasks
      ensures AsLimit(s', x.pid) == if s.tasks[x.pid] == e.g && e.ret == 0 && e.new'.Some? && e.resource == RLIMIT_AS then e.new'.value else AsLimit(s, x.pid)
    {
    }
  }

  lemma SpawnQuietExact(s: Sys, e: Event, s': Sys)
    requires Next(s, e, s') && e.Spawn? && Agreement(s) && WellFormed(s')
    ensures Agreement(s') <==> Quiet(s, e)
  {
    forall x | x in s.entries && x.pid in s.tasks
      ensures AsLimit(s', x.pid) == AsLimit(s, x.pid)
    {
    }
    assert AsLimit(s', e.pid) == AsLimit(s, e.parent);
  }

  /** A step keeps list and limits in agreement exactly when it is quiet. */
  lemma QuietExact(s: Sys, e: Event, s': Sys)
    requires Next(s, e, s') && Agreement(s)
    ensures WellFormed(s') && (Agreement(s') <==> Quiet(s, e))
  {
    NextKeepsForm(s, e, s');
    match e
    case Add(_, _, _, _, _) => AddQuietExact(s, e, s');
    case Update(_, _, _, _, _) => UpdateQuietExact(s, e, s');
    case Remove(_, _) => RemoveQuiet(s, e, s');
    case Prlimit(_, _, _, _, _, _, _) => PrlimitQuietExact(s, e, s');
    case Spawn(_, _, _) => SpawnQuietExact(s, e, s');
    case Exit(_) =>
      assert forall x :: x in s'.entries && x.pid in s'.tasks ==> AsLimit(s', x.pid) == AsLimit(s, x.pid);
  }

  ghost predicate AgreesAt(ss: seq<Sys>, i: nat) {
    i < |ss| && WellFormed(ss[i]) && Agreement(ss[i])
  }

  ghost predicate QuietAt(ss: seq<Sys>, es: seq<Event>, i: nat) {
    i < |ss| && i < |es| && WellFormed(ss[i]) && Quiet(ss[i], es[i])
  }

  lemma AgreesNext(ss: seq<Sys>, es: seq<Event>, i: nat)
    requires Run(ss, es) && i < |es| && AgreesAt(ss, i)
    ensures AgreesAt(ss, i + 1) <==> QuietAt(ss, es, i)
  {
    QuietExact(ss[i], es[i], ss[i + 1]);
  }

  /** If each good state has a good successor exactly after a quiet step, all are good exactly when all steps are quiet. */
  lemma {:induction false} Chain(good: nat -> bool, quiet: nat -> bool, n: nat)
    requires good(0) && forall i: nat :: i < n && good(i) ==> (good(i + 1) <==> quiet(i))
    ensures (forall i: nat :: i <= n ==> good(i)) <==> (forall i: nat :: i < n ==> quiet(i))
  {
    if n > 0 {
      Chain(good, quiet, n - 1);
      assert good(n - 1) ==> (good((n - 1) + 1) <==> quiet(n - 1));
    }
  }

  /** Along every run, agreement holds at each state up to n exactly when every step up to n is quiet. */
  lemma AgreementIffQuiet(ss: seq<Sys>, es: seq<Event>, n: nat)
    requires Run(ss, es) && n < |ss| && AgreesAt(ss, 0)
    ensures (forall i: nat :: i <= n ==> AgreesAt(ss, i)) <==> (forall i: nat :: i < n ==> QuietAt(ss, es, i))
  {
    var good, quiet := (i: nat) => AgreesAt(ss, i), (i: nat) => QuietAt(ss, es, i);
    forall i: nat | i < n && good(i)
      ensures good(i + 1) <==> quiet(i)
    {
      AgreesNext(ss, es, i);
    }
    Chain(good, quiet, n);
    assert forall i: nat :: good(i) <==> AgreesAt(ss, i);
    assert forall i: nat :: quiet(i) <==> QuietAt(ss, es, i);
  }

  // ---------------------------------------------------------------------------------------------
  // What holds whatever the hooks answer

  ghost predicate LimitsOrdered(s: Sys) {
    forall g, r :: g in s.limits && 0 <= r < |s.limits[g]| ==> s.limits[g][r].cur <= s.limits[g][r].max
  }

  lemma NextKeepsOrder(s: Sys, e: Event, s': Sys)
    requires Next(s, e, s') && LimitsOrdered(s)
    ensures LimitsOrdered(s')
  {
    forall g, r | g in s'.limits && 0 <= r < |s'.limits[g]|
      ensures s'.limits[g][r].cur <= s'.limits[g][r].max
    {
      var from := if e.Spawn? && g == e.g then s.tasks[e.parent] else g;
      assert from in s.limits;
      assert s.limits[from][r].cur <= s.limits[from][r].max;
    }
  }

  /** Over every run no soft limit exceeds its hard limit. */
  lemma {:induction false} LimitsStayOrdered(ss: seq<Sys>, es: seq<Event>, n: nat)
    requires Run(ss, es) && n < |ss| && LimitsOrdered(ss[0])
    ensures LimitsOrdered(ss[n])
  {
    if n > 0 {
      LimitsStayOrdered(ss, es, n - 1);
      NextKeepsOrder(ss[n - 1], es[n - 1], ss[n]);
    }
  }

  /** Without the capability do_prlimit alone never raises a hard limit. */
  lemma {:induction false} PrlimitNeverRaises(ss: seq<Sys>, es: seq<Event>, n: nat, g: Sig, r: nat)
    requires Run(ss, es) && n < |ss| && r < RLIM_NLIMITS && g in ss[0].limits
    requires forall i :: 0 <= i < n ==> es[i].Prlimit? && !es[i].capable
    ensures g in ss[n].limits && |ss[n].limits[g]| == RLIM_NLIMITS && ss[n].limits[g][r].max <= ss[0].limits[g][r].max
  {
    if n > 0 {
      PrlimitNeverRaises(ss, es, n - 1, g, r);
      assert Next(ss[n - 1], es[n - 1], ss[n]);
    }
  }
}
