/**
 Process groups and sessions: the setpgid and setsid system calls of kernel/sys.c, run over a
 table of processes in which other processes fork, start threads, exec and exit at will.
 */
module JobControl {
  import opened Errno
  import opened Options

  type Pid = int

  /** `signal_struct` and leader-task state of one thread group. `parent` is the thread group of `real_parent`. */
  datatype Process = Process(parent: Pid, pgrp: Pid, session: Pid, leader: bool, forkNoExec: bool)

  /** `tasks` maps every task id to the thread group it belongs to. */
  datatype Table = Table(tasks: map<Pid, Pid>, procs: map<Pid, Process>)

  ghost predicate WellFormed(s: Table) {
    && (forall t <- s.tasks :: t > 0 && s.tasks[t] in s.procs)
    && (forall p <- s.procs :: p in s.tasks && s.tasks[p] == p)
  }

  /** No process group straddles two sessions. */
  ghost predicate GroupsWithinSessions(s: Table) {
    forall p, q :: p in s.procs && q in s.procs && s.procs[p].pgrp == s.procs[q].pgrp
      ==> s.procs[p].session == s.procs[q].session
  }

  /** A session leader leads its own group in its own session, and a session named after a live process is led by it. */
  ghost predicate LeadersLead(s: Table) {
    && (forall p <- s.procs :: s.procs[p].leader ==> s.procs[p].pgrp == p && s.procs[p].session == p)
    && (forall p, q :: p in s.procs && q in s.procs && s.procs[q].session == p ==> s.procs[p].leader)
  }

  /** The group named after a live process lies in that process's session. */
  ghost predicate OwnGroupInSession(s: Table) {
    forall p, q :: p in s.procs && q in s.procs && s.procs[q].pgrp == p
      ==> s.procs[q].session == s.procs[p].session
  }

  ghost predicate Inv(s: Table) {
    WellFormed(s) && GroupsWithinSessions(s) && LeadersLead(s) && OwnGroupInSession(s)
  }

  // ---------------------------------------------------------------------------------------------
  // What setpgid promises, clause by clause of its POSIX entry

  function TargetOf(s: Table, current: Pid, pid: int): Pid
    requires WellFormed(s) && current in s.tasks
  {
    if pid == 0 then s.tasks[current] else pid
  }

  function GroupOf(s: Table, current: Pid, pid: int, pgid: int): Pid
    requires WellFormed(s) && current in s.tasks
  {
    if pgid == 0 then TargetOf(s, current, pid) else pgid
  }

  ghost predicate IsChild(s: Table, me: Pid, p: Pid) {
    p in s.procs && s.procs[p].parent == me
  }

  /** The target is the caller, or a child that has not called exec and is still in the caller's session. */
  ghost predicate MayBeMoved(s: Table, me: Pid, p: Pid)
    requires me in s.procs
  {
    && p in s.procs
    && !s.procs[p].leader
    && (IsChild(s, me, p) ==> s.procs[p].session == s.procs[me].session && s.procs[p].forkNoExec)
    && (IsChild(s, me, p) || p == me)
  }

  /** Some member of group `pgid` is in the session of `me`. */
  ghost predicate GroupInSessionOf(s: Table, me: Pid, pgid: Pid)
    requires me in s.procs
  {
    exists g :: g in s.procs && s.procs[g].pgrp == pgid && s.procs[g].session == s.procs[me].session
  }

  /** Some member of group `pgid` is outside the session of `me`, or the group has no member. */
  ghost predicate GroupNotInSessionOf(s: Table, me: Pid, pgid: Pid)
    requires me in s.procs
  {
    || (exists g :: g in s.procs && s.procs[g].pgrp == pgid && s.procs[g].session != s.procs[me].session)
    || (forall g <- s.procs :: s.procs[g].pgrp != pgid)
  }

  function Moved(s: Table, p: Pid, pgid: Pid): Table
    requires p in s.procs
  {
    s.(procs := s.procs[p := s.procs[p].(pgrp := pgid)])
  }

  ghost predicate SetPgidOutcome(s: Table, current: Pid, pidArg: int, pgidArg: int, hook: int, err: int, s': Table)
    requires WellFormed(s) && current in s.tasks
  {
    var me := s.tasks[current];
    var p := TargetOf(s, current, pidArg);
    var pgid := GroupOf(s, current, pidArg, pgidArg);
    var joins := pgid == p || GroupInSessionOf(s, me, pgid);
    && (err == 0 ==> hook == 0 && 0 <= pgid && MayBeMoved(s, me, p) && joins && s' == Moved(s, p, pgid))
    && (err != 0 ==>
          && s' == s
          && (|| (err == -EINVAL && (pgid < 0 || (p in s.tasks && p !in s.procs)))
              || (err == -ESRCH && (p !in s.tasks || (!IsChild(s, me, p) && p != me)))
              || (err == -EACCES && IsChild(s, me, p) && !s.procs[p].forkNoExec)
              || (err == -EPERM && p in s.procs && (|| s.procs[p].leader
                                                    || s.procs[p].session != s.procs[me].session
                                                    || (pgid != p && GroupNotInSessionOf(s, me, pgid))))
              || (err == hook && 0 <= pgid && MayBeMoved(s, me, p) && joins)))
  }

  /** setsid fails for a session leader and when a group already carries the caller's id. */
  ghost predicate SetSidOutcome(s: Table, current: Pid, r: int, s': Table)
    requires WellFormed(s) && current in s.tasks
  {
    var me := s.tasks[current];
    var taken := s.procs[me].leader || exists g :: g in s.procs && s.procs[g].pgrp == me;
    && (taken ==> r == -EPERM && s' == s)
    && (!taken ==> r == me && s' == s.(procs := s.procs[me := s.procs[me].(leader := true, session := me, pgrp := me)]))
  }

  // ---------------------------------------------------------------------------------------------
  // The system calls

  class TaskList {
    var tasks: map<Pid, Pid>
    var procs: map<Pid, Process>

    ghost function View(): Table
      reads this
    {
      Table(tasks, procs)
    }

    constructor Boot()
      ensures Init(View())
    {
      tasks := map[1 := 1];
      procs := map[1 := Process(0, 0, 0, false, false)];
    }

    /** `hook` is the answer of security_task_setpgid. */
    method SetPgid(current: Pid, pidArg: int, pgidArg: int, hook: int) returns (err: int)
      requires WellFormed(View()) && current in tasks
      modifies this
      ensures SetPgidOutcome(old(View()), current, pidArg, pgidArg, hook, err, View())
    {
      var groupLeader := tasks[current];
      var pid := if pidArg == 0 then groupLeader else pidArg;
      var pgid := if pgidArg == 0 then pid else pgidArg;
      if pgid < 0 {
        return -EINVAL;
      }
      if pid !in tasks {
        return -ESRCH;
      }
      if tasks[pid] != pid {
        return -EINVAL;
      }
      var p := procs[pid];
      if p.parent == groupLeader {
        if p.session != procs[groupLeader].session {
          return -EPERM;
        }
        if !p.forkNoExec {
          return -EACCES;
        }
      } else if pid != groupLeader {
        return -ESRCH;
      }
      if p.leader {
        return -EPERM;
      }
      if pgid != pid {
        if !exists g :: g in procs && procs[g].pgrp == pgid {
          return -EPERM;
        }
        var g :| g in procs && procs[g].pgrp == pgid;  // pid_task yields any member of the group
        if procs[g].session != procs[groupLeader].session {
          return -EPERM;
        }
      }
      if hook != 0 {
        return hook;
      }
      if p.pgrp != pgid {
        procs := procs[pid := p.(pgrp := pgid)];
      }
      assert procs == old(procs)[pid := p.(pgrp := pgid)];
      return 0;
    }

    method SetSid(current: Pid) returns (r: int)
      requires WellFormed(View()) && current in tasks
      modifies this
      ensures SetSidOutcome(old(View()), current, r, View())
    {
      var groupLeader := tasks[current];
      if procs[groupLeader].leader {
        return -EPERM;
      }
      if exists g :: g in procs && procs[g].pgrp == groupLeader {
        return -EPERM;
      }
      procs := procs[groupLeader := procs[groupLeader].(leader := true)];
      SetSpecialPids(groupLeader, groupLeader);
      return groupLeader;
    }

    method SetSpecialPids(curr: Pid, pid: Pid)
      requires curr in procs
      modifies this`procs
      ensures procs == old(procs)[curr := old(procs)[curr].(session := pid, pgrp := pid)]
    {
      if procs[curr].session != pid {
        procs := procs[curr := procs[curr].(session := pid)];
      }
      if procs[curr].pgrp != pid {
        procs := procs[curr := procs[curr].(pgrp := pid)];
      }
    }
  }

  // ---------------------------------------------------------------------------------------------
  // Runs

  datatype Event =
    | SetPgid(current: Pid, pid: int, pgid: int, hook: int, err: int)
    | SetSid(current: Pid, r: int)
    | Fork(current: Pid, child: Pid, cloneParent: bool)
    | CloneThread(current: Pid, tid: Pid)
    | Exec(current: Pid)
    | ExitThread(tid: Pid)
    | Release(pid: Pid, reaper: Pid)

  ghost predicate Init(s: Table) {
    s == Table(map[1 := 1], map[1 := Process(0, 0, 0, false, false)])
  }

  /** A number is handed out again only once no task, group or session carries it. */
  ghost predicate Fresh(s: Table, n: Pid) {
    n > 0 && n !in s.tasks && forall p <- s.procs :: s.procs[p].pgrp != n && s.procs[p].session != n
  }

  function Reparent(procs: map<Pid, Process>, dead: Pid, reaper: Pid): map<Pid, Process> {
    map p | p in procs && p != dead ::
      if procs[p].parent == dead then procs[p].(parent := reaper) else procs[p]
  }

  ghost predicate Next(s: Table, e: Event, s': Table) {
    && WellFormed(s)
    && match e
       case SetPgid(current, pid, pgid, hook, err) =>
         current in s.tasks && SetPgidOutcome(s, current, pid, pgid, hook, err, s')
       case SetSid(current, r) =>
         current in s.tasks && SetSidOutcome(s, current, r, s')
       case Fork(current, child, cloneParent) =>
         && current in s.tasks && Fresh(s, child)
         && var me := s.tasks[current];
            var parent := if cloneParent then s.procs[me].parent else me;
            s' == Table(s.tasks[child := child],
                        s.procs[child := Process(parent, s.procs[me].pgrp, s.procs[me].session, false, true)])
       case CloneThread(current, tid) =>
         current in s.tasks && Fresh(s, tid) && s' == s.(tasks := s.tasks[tid := s.tasks[current]])
       case Exec(current) =>
         && current in s.tasks
         && var me := s.tasks[current];
            s' == s.(procs := s.procs[me := s.procs[me].(forkNoExec := false)])
       case ExitThread(tid) =>
         tid in s.tasks && tid !in s.procs && s' == s.(tasks := s.tasks - {tid})
       case Release(pid, reaper) =>
         && pid in s.procs
         && s' == Table(map t | t in s.tasks && s.tasks[t] != pid :: s.tasks[t], Reparent(s.procs, pid, reaper))
  }

  ghost predicate Run(states: seq<Table>, events: seq<Event>) {
    && |states| == |events| + 1
    && Init(states[0])
    && forall i :: 0 <= i < |events| ==> Next(states[i], events[i], states[i + 1])
  }

  lemma SetPgidKeepsInv(s: Table, current: Pid, pid: int, pgid: int, hook: int, err: int, s': Table)
    requires Inv(s) && current in s.tasks
    requires SetPgidOutcome(s, current, pid, pgid, hook, err, s')
    ensures Inv(s')
  {
    if err == 0 {
      var me, p, g := s.tasks[current], TargetOf(s, current, pid), GroupOf(s, current, pid, pgid);
      assert s.procs[p].session == s.procs[me].session;
      forall q | q in s'.procs && q != p && s'.procs[q].pgrp == g
        ensures s'.procs[q].session == s.procs[me].session
      {
        assert q in s.procs;
      }
    }
  }

  lemma NextKeepsInv(s: Table, e: Event, s': Table)
    requires Inv(s) && Next(s, e, s')
    ensures Inv(s')
  {
    match e
    case SetPgid(current, pid, pgid, hook, err) => SetPgidKeepsInv(s, current, pid, pgid, hook, err, s');
    case SetSid(_, _) => SetSidKeepsInv(s, e, s');
    case Fork(_, _, _) => ForkKeepsInv(s, e, s');
    case Release(_, _) => ReleaseKeepsInv(s, e, s');
    case _ =>
  }

  lemma SetSidKeepsInv(s: Table, e: Event, s': Table)
    requires Inv(s) && Next(s, e, s') && e.SetSid?
    ensures Inv(s')
  {
  }

  lemma ForkKeepsInv(s: Table, e: Event, s': Table)
    requires Inv(s) && Next(s, e, s') && e.Fork?
    ensures Inv(s')
  {
    var me, child := s.tasks[e.current], e.child;
    assert s'.procs[child].pgrp == s.procs[me].pgrp && s'.procs[child].session == s.procs[me].session;
    assert forall p <- s'.procs :: p != child ==> p in s.procs && s'.procs[p] == s.procs[p];
  }

  lemma ReleaseKeepsInv(s: Table, e: Event, s': Table)
    requires Inv(s) && Next(s, e, s') && e.Release?
    ensures Inv(s')
  {
    assert forall p <- s'.procs :: p in s.procs && s'.procs[p].(parent := s.procs[p].parent) == s.procs[p];
  }

  /** Over every run, groups stay within sessions and leaders lead. */
  lemma {:induction false} RunKeepsInv(states: seq<Table>, events: seq<Event>, n: nat)
    requires Run(states, events) && n < |states|
    ensures Inv(states[n])
  {
    if n > 0 {
      RunKeepsInv(states, events, n - 1);
      NextKeepsInv(states[n - 1], events[n - 1], states[n]);
    }
  }

  /** On every reachable table setpgid succeeds exactly when its POSIX conditions hold, and then changes one group id. */
  lemma SetPgidIsPosix(states: seq<Table>, events: seq<Event>, n: nat, current: Pid, pid: int, pgid: int, err: int, s': Table)
    requires Run(states, events) && n < |states| && current in states[n].tasks
    requires WellFormed(states[n]) && SetPgidOutcome(states[n], current, pid, pgid, 0, err, s')
    ensures var s := states[n];
            var me, p, g := s.tasks[current], TargetOf(s, current, pid), GroupOf(s, current, pid, pgid);
            err == 0 <==> && 0 <= g && MayBeMoved(s, me, p)
                          && (g == p || ((exists q :: q in s.procs && s.procs[q].pgrp == g)
                                         && forall q <- s.procs :: s.procs[q].pgrp == g ==> s.procs[q].session == s.procs[me].session))
  {
    RunKeepsInv(states, events, n);
  }

  /**
   Who a successful setpgid moves and where to: 0 stands for the caller's process, and for a group named after the one
   that is moved. Anyone but the caller is a child of it, in its session, that has not called exec.
   */
  lemma SetPgidMoves(s: Table, current: Pid, pid: int, pgid: int, hook: int, s': Table)
    requires WellFormed(s) && current in s.tasks && SetPgidOutcome(s, current, pid, pgid, hook, 0, s')
    ensures var me := s.tasks[current];
            && (pid == 0 && pgid == 0 ==> s'.procs[me].pgrp == me)
            && (pid == 0 && pgid != 0 ==> s'.procs[me].pgrp == pgid)
            && (pid != 0 ==> pid in s'.procs && s'.procs[pid].pgrp == if pgid == 0 then pid else pgid)
            && s'.tasks == s.tasks && s'.procs.Keys == s.procs.Keys
            && forall q <- s.procs ::
                 && s'.procs[q].(pgrp := s.procs[q].pgrp) == s.procs[q]
                 && (q != (if pid == 0 then me else pid) ==> s'.procs[q] == s.procs[q])
                 && (s'.procs[q] != s.procs[q] && q != me ==>
                       s.procs[q].parent == me && s.procs[q].session == s.procs[me].session && s.procs[q].forkNoExec)
  {
  }

  /** What fork passes on, and what becomes of the children of a process that goes. */
  lemma Kinship(s: Table, e: Event, s': Table)
    requires Next(s, e, s')
    ensures e.Fork? ==>
              var me, child := s.procs[s.tasks[e.current]], s'.procs[e.child];
              && child.pgrp == me.pgrp && child.session == me.session && !child.leader && child.forkNoExec
              && child.parent == if e.cloneParent then me.parent else s.tasks[e.current]
    ensures e.Release? ==>
              && e.pid in s.procs && s'.procs.Keys == s.procs.Keys - {e.pid} && e.pid !in s'.tasks.Values
              && forall p <- s'.procs ::
                   && s'.procs[p].(parent := s.procs[p].parent) == s.procs[p]
                   && s'.procs[p].parent == if s.procs[p].parent == e.pid then e.reaper else s.procs[p].parent
    ensures e.ExitThread? ==> e.tid in s.tasks && e.tid !in s.procs && e.tid !in s'.tasks && s'.procs == s.procs
  {
  }

  /** As long as orphans are handed to the living, every process but the first has a living parent. */
  lemma {:induction false} ParentsLive(states: seq<Table>, events: seq<Event>, n: nat)
    requires Run(states, events) && n < |states|
    requires forall i :: 0 <= i < |events| && events[i].Release? ==> events[i].reaper in states[i].procs && events[i].reaper != events[i].pid
    ensures forall p <- states[n].procs :: states[n].procs[p].parent == 0 || states[n].procs[p].parent in states[n].procs
  {
    if n > 0 {
      ParentsLive(states, events, n - 1);
      var s, e, s' := states[n - 1], events[n - 1], states[n];
      assert Next(s, e, s');
      Kinship(s, e, s');
      forall p | p in s'.procs
        ensures s'.procs[p].parent == 0 || s'.procs[p].parent in s'.procs
      {
        ParentStep(s, e, s', p);
      }
    }
  }

  lemma ParentStep(s: Table, e: Event, s': Table, p: Pid)
    requires Next(s, e, s') && p in s'.procs && (e.Release? ==> e.reaper in s.procs && e.reaper != e.pid)
    requires forall q <- s.procs :: s.procs[q].parent == 0 || s.procs[q].parent in s.procs
    ensures s'.procs[p].parent == 0 || s'.procs[p].parent in s'.procs
  {
  }

  /** Whether process p last came from a fork or has called exec since. */
  ghost function LastForkOrExec(states: seq<Table>, events: seq<Event>, n: nat, p: Pid): Option<bool>
    requires n <= |events| && |states| == |events| + 1
  {
    if n == 0 then None
    else
      var s, e := states[n - 1], events[n - 1];
      if e.Fork? && e.child == p then Some(true)
      else if e.Exec? && e.current in s.tasks && s.tasks[e.current] == p then Some(false)
      else LastForkOrExec(states, events, n - 1, p)
  }

  lemma ForkExecStep(s: Table, e: Event, s': Table, p: Pid)
    requires Next(s, e, s') && p in s'.procs
    ensures e.Fork? && e.child == p ==> s'.procs[p].forkNoExec
    ensures e.Exec? && s.tasks[e.current] == p ==> !s'.procs[p].forkNoExec
    ensures !(e.Fork? && e.child == p) && !(e.Exec? && s.tasks[e.current] == p) ==>
              p in s.procs && s'.procs[p].forkNoExec == s.procs[p].forkNoExec
  {
  }

  /** Over every run, a process counts as fresh from fork exactly when it was forked and has not called exec since. */
  lemma {:induction false} FreshUntilExec(states: seq<Table>, events: seq<Event>, n: nat, p: Pid)
    requires Run(states, events) && n < |states| && p in states[n].procs
    ensures states[n].procs[p].forkNoExec <==> LastForkOrExec(states, events, n, p) == Some(true)
  {
    if n > 0 {
      var s, e := states[n - 1], events[n - 1];
      assert Next(s, e, states[n]);
      ForkExecStep(s, e, states[n], p);
      if !(e.Fork? && e.child == p) && !(e.Exec? && s.tasks[e.current] == p) {
        FreshUntilExec(states, events, n - 1, p);
      }
    }
  }

  /** After a successful setsid the caller alone makes up both its session and its group. */
  lemma SetSidIsolates(states: seq<Table>, events: seq<Event>, n: nat, current: Pid, r: int, s': Table)
    requires Run(states, events) && n < |states| && current in states[n].tasks
    requires WellFormed(states[n]) && SetSidOutcome(states[n], current, r, s')
    ensures var s := states[n];
            var me := s.tasks[current];
            && (r > 0 <==> !s.procs[me].leader && forall q <- s.procs :: s.procs[q].pgrp != me)
            && (r <= 0 ==> r == -EPERM && s' == s)
            && (r > 0 ==> r == me && s'.procs[me].leader
                          && forall q <- s'.procs :: (s'.procs[q].session == me <==> q == me)
                                                     && (s'.procs[q].pgrp == me <==> q == me))
  {
    RunKeepsInv(states, events, n);
  }

  /** Between two points of a run a process that lives on changes session only by its own setsid, and then only once. */
  lemma {:induction false} SessionChangesOnlyBySetSid(states: seq<Table>, events: seq<Event>, i: nat, j: nat, p: Pid)
    requires Run(states, events) && i <= j < |states|
    requires forall k :: i <= k <= j ==> p in states[k].procs
    ensures states[j].procs[p].session == states[i].procs[p].session || states[j].procs[p].leader
    ensures states[i].procs[p].leader ==> states[j].procs[p].leader && states[j].procs[p].session == states[j].procs[p].pgrp == p
    ensures (forall k :: i <= k < j && events[k].SetSid? && events[k].current in states[k].tasks ==> states[k].tasks[events[k].current] != p)
            ==> states[j].procs[p].session == states[i].procs[p].session
  {
    RunKeepsInv(states, events, j);
    if i < j {
      SessionChangesOnlyBySetSid(states, events, i, j - 1, p);
      assert Next(states[j - 1], events[j - 1], states[j]);
      assert p in states[j - 1].procs && p in states[j].procs;
      match events[j - 1]
      case Fork(_, child, _) => assert p != child by { RunKeepsInv(states, events, j - 1); }
      case _ =>
    }
  }
}
