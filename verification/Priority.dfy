/** setpriority and getpriority of kernel/sys.c: folds of one error or one maximum over the tasks a request names. */
module Priority {
  import opened Errno

  const MIN_NICE := -20
  const MAX_NICE := 19

  /** `capNice`: the caller has CAP_SYS_NICE over the task; `canNice`: it may lower the value; `hook`: security_task_setnice. */
  datatype Task = Task(pid: int, pgrp: int, uid: int, euid: int, capNice: bool, canNice: bool, hook: int)

  datatype Caller = Caller(task: nat, uid: int, euid: int)

  const PRIO_PROCESS := 0
  const PRIO_PGRP := 1
  const PRIO_USER := 2

  /** The tasks a request names; 0 names the caller's own process, group or user. */
  predicate Named(t: Task, me: Task, c: Caller, which: int, who: int) {
    if which == PRIO_PROCESS then t.pid == (if who == 0 then me.pid else who)
    else if which == PRIO_PGRP then t.pgrp == (if who == 0 then me.pgrp else who)
    else t.uid == (if who == 0 then c.uid else who) && t.pid != 0
  }

  /** Who is named: one process by its id, a group by its id, the processes of a user; with 0 the caller's own. */
  lemma NamedById(t: Task, me: Task, c: Caller, who: int)
    ensures who != 0 ==>
              && (Named(t, me, c, PRIO_PROCESS, who) <==> t.pid == who)
              && (Named(t, me, c, PRIO_PGRP, who) <==> t.pgrp == who)
              && (Named(t, me, c, PRIO_USER, who) <==> t.uid == who && t.pid != 0)
    ensures Named(t, me, c, PRIO_PROCESS, 0) <==> t.pid == me.pid
    ensures Named(t, me, c, PRIO_PGRP, 0) <==> t.pgrp == me.pgrp
    ensures Named(t, me, c, PRIO_USER, 0) <==> t.uid == c.uid && t.pid != 0
  {
  }

  function Clamp(n: int): int {
    if n < MIN_NICE then MIN_NICE else if n > MAX_NICE then MAX_NICE else n
  }

  /** Why a task is refused, 0 if it is not. */
  function Refusal(t: Task, c: Caller, nice: int, n: int): int {
    if t.uid != c.euid && t.euid != c.euid && !t.capNice then -EPERM
    else if n < nice && !t.canNice then -EACCES
    else t.hook
  }

  /** A task that is not refused belongs to the caller or is in its power, and lowering takes leave of its own. */
  lemma NotRefused(t: Task, c: Caller, nice: int, n: int)
    ensures Refusal(t, c, nice, n) == 0 <==>
              (t.uid == c.euid || t.euid == c.euid || t.capNice) && (nice <= n || t.canNice) && t.hook == 0
    ensures t.uid != c.euid && t.euid != c.euid && !t.capNice ==> Refusal(t, c, nice, n) == -EPERM
    ensures (t.uid == c.euid || t.euid == c.euid || t.capNice) && n < nice && !t.canNice ==> Refusal(t, c, nice, n) == -EACCES
  {
  }

  /** The answers of the named tasks, in list order. */
  function Refusals(tasks: seq<Task>, nices: seq<int>, me: Task, c: Caller, which: int, who: int, n: int): seq<int>
    requires |tasks| == |nices|
  {
    if tasks == [] then []
    else
      var k := |tasks| - 1;
      Refusals(tasks[..k], nices[..k], me, c, which, who, n)
      + if Named(tasks[k], me, c, which, who) then [Refusal(tasks[k], c, nices[k], n)] else []
  }

  /** set_one_prio's running error: a refusal replaces it, a success only clears "no such process". */
  function Fold(rs: seq<int>): int {
    if rs == [] then -ESRCH
    else
      var e := Fold(rs[..|rs| - 1]);
      var r := rs[|rs| - 1];
      if r != 0 then r else if e == -ESRCH then 0 else e
  }

  /** The running error after one more task of the list. */
  lemma FoldStep(tasks: seq<Task>, nices: seq<int>, me: Task, c: Caller, which: int, who: int, n: int, i: nat)
    requires i < |tasks| == |nices|
    ensures var e := Fold(Refusals(tasks[..i], nices[..i], me, c, which, who, n));
            var r := Refusal(tasks[i], c, nices[i], n);
            Fold(Refusals(tasks[..i + 1], nices[..i + 1], me, c, which, who, n))
            == if !Named(tasks[i], me, c, which, who) then e else if r != 0 then r else if e == -ESRCH then 0 else e
  {
    assert tasks[..i + 1][..i] == tasks[..i] && nices[..i + 1][..i] == nices[..i];
    var rs := Refusals(tasks[..i], nices[..i], me, c, which, who, n);
    if Named(tasks[i], me, c, which, who) {
      assert (rs + [Refusal(tasks[i], c, nices[i], n)])[..|rs|] == rs;
    } else {
      assert rs + [] == rs;
    }
  }

  // ---------------------------------------------------------------------------------------------

  class Scheduler {
    const tasks: seq<Task>
    const nice: array<int>

    ghost predicate Valid()
      reads this, nice
    {
      && |tasks| == nice.Length
      && (forall i, j :: 0 <= i < j < |tasks| ==> tasks[i].pid != tasks[j].pid)
      && (forall i :: 0 <= i < nice.Length ==> MIN_NICE <= nice[i] <= MAX_NICE)
    }

    constructor (tasks: seq<Task>)
      requires forall i, j :: 0 <= i < j < |tasks| ==> tasks[i].pid != tasks[j].pid
      ensures Valid() && this.tasks == tasks && fresh(nice) && forall i :: 0 <= i < nice.Length ==> nice[i] == 0
    {
      this.tasks := tasks;
      nice := new int[|tasks|](_ => 0);
    }

    method SetOnePrio(c: Caller, i: nat, n: int, error: int) returns (error': int)
      requires Valid() && i < |tasks| && MIN_NICE <= n <= MAX_NICE
      modifies nice
      ensures Valid()
      ensures var r := Refusal(tasks[i], c, old(nice[i]), n);
              && error' == (if r != 0 then r else if error == -ESRCH then 0 else error)
              && nice[..] == if r == 0 then old(nice[..])[i := n] else old(nice[..])
    {
      var p := tasks[i];
      error' := error;
      if !(p.uid == c.euid || p.euid == c.euid || p.capNice) {
        return -EPERM;
      }
      if n < nice[i] && !p.canNice {
        return -EACCES;
      }
      if p.hook != 0 {
        return p.hook;
      }
      if error == -ESRCH {
        error' := 0;
      }
      nice[i] := n;
    }

    /** The loops of setpriority; for a single process the loop meets at most one task. */
    method SetPriority(c: Caller, which: int, who: int, niceval: int) returns (error: int)
      requires Valid() && c.task < |tasks|
      modifies nice
      ensures Valid()
      ensures !(PRIO_PROCESS <= which <= PRIO_USER) ==> error == -EINVAL && nice[..] == old(nice[..])
      ensures PRIO_PROCESS <= which <= PRIO_USER ==>
                && error == Fold(Refusals(tasks, old(nice[..]), tasks[c.task], c, which, who, Clamp(niceval)))
                && forall i :: 0 <= i < |tasks| ==>
                     nice[i] == if Named(tasks[i], tasks[c.task], c, which, who)
                                   && Refusal(tasks[i], c, old(nice[i]), Clamp(niceval)) == 0
                                then Clamp(niceval) else old(nice[i])
      ensures forall i :: 0 <= i < |tasks| && nice[i] != old(nice[i]) ==>
                var t := tasks[i];
                && nice[i] == (if niceval < -20 then -20 else if niceval > 19 then 19 else niceval)
                && (t.uid == c.euid || t.euid == c.euid || t.capNice)
                && (nice[i] < old(nice[i]) ==> t.canNice)
                && (which == PRIO_PROCESS && who != 0 ==> t.pid == who)
                && (which == PRIO_PGRP && who != 0 ==> t.pgrp == who)
                && (which == PRIO_USER && who != 0 ==> t.uid == who && t.pid != 0)
    {
      if which > PRIO_USER || which < PRIO_PROCESS {
        return -EINVAL;
      }
      error := -ESRCH;
      var n := niceval;
      if n < MIN_NICE {
        n := MIN_NICE;
      }
      if n > MAX_NICE {
        n := MAX_NICE;
      }
      ghost var before := nice[..];
      var i := 0;
      var me := tasks[c.task];
      while i < |tasks|
        invariant 0 <= i <= |tasks| && Valid()
        invariant error == Fold(Refusals(tasks[..i], before[..i], me, c, which, who, n))
        invariant forall k :: 0 <= k < |tasks| ==>
                    nice[k] == if k < i && Named(tasks[k], me, c, which, who) && Refusal(tasks[k], c, before[k], n) == 0
                               then n else before[k]
      {
        FoldStep(tasks, before, me, c, which, who, n, i);
        if Named(tasks[i], me, c, which, who) {
          error := SetOnePrio(c, i, n, error);
        }
        i := i + 1;
      }
      assert tasks[..i] == tasks && before[..i] == before;
    }

    /** The largest 20 - nice over the named tasks, or -ESRCH if there are none. */
    method GetPriority(c: Caller, which: int, who: int) returns (ret: int)
      requires Valid() && c.task < |tasks|
      ensures !(PRIO_PROCESS <= which <= PRIO_USER) ==> ret == -EINVAL
      ensures PRIO_PROCESS <= which <= PRIO_USER ==>
                && (ret == -ESRCH <==> forall i :: 0 <= i < |tasks| ==> !Named(tasks[i], tasks[c.task], c, which, who))
                && (ret != -ESRCH ==> exists i :: 0 <= i < |tasks| && Named(tasks[i], tasks[c.task], c, which, who) && ret == 20 - nice[i])
                && (forall i :: 0 <= i < |tasks| && Named(tasks[i], tasks[c.task], c, which, who) ==> 20 - nice[i] <= ret)
    {
      if which > PRIO_USER || which < PRIO_PROCESS {
        return -EINVAL;
      }
      ret := -ESRCH;
      var me := tasks[c.task];
      var i := 0;
      while i < |tasks|
        invariant 0 <= i <= |tasks|
        invariant ret == -ESRCH <==> forall k :: 0 <= k < i ==> !Named(tasks[k], me, c, which, who)
        invariant ret != -ESRCH ==> exists k :: 0 <= k < i && Named(tasks[k], me, c, which, who) && ret == 20 - nice[k]
        invariant forall k :: 0 <= k < i && Named(tasks[k], me, c, which, who) ==> 20 - nice[k] <= ret
      {
        if Named(tasks[i], me, c, which, who) {
          var niceval := MAX_NICE - nice[i] + 1;  // nice_to_rlimit
          if niceval > ret {
            ret := niceval;
          }
        }
        i := i + 1;
      }
    }

    /** What setpriority set, getpriority reports: after a 0 answer the same request yields 20 minus the clamped value. */
    method SetThenGet(c: Caller, which: int, who: int, niceval: int) returns (error: int, ret: int)
      requires Valid() && c.task < |tasks| && forall i :: 0 <= i < |tasks| ==> tasks[i].hook != -ESRCH
      modifies nice
      ensures error == 0 ==> ret == 20 - Clamp(niceval)
    {
      error := SetPriority(c, which, who, niceval);
      ghost var before := old(nice[..]);
      ret := GetPriority(c, which, who);
      if error == 0 {
        ghost var rs := Refusals(tasks, before, tasks[c.task], c, which, who, Clamp(niceval));
        NoRefusalIsSearch(tasks, before, tasks[c.task], c, which, who, Clamp(niceval));
        FoldZero(rs);
        AllAccepted(tasks, before, tasks[c.task], c, which, who, Clamp(niceval));
      }
    }
  }

  // ---------------------------------------------------------------------------------------------
  // What the running error amounts to

  /** The position after the last refusal. */
  function AfterLast(rs: seq<int>): (k: nat)
    ensures k <= |rs| && (k > 0 ==> rs[k - 1] != 0) && forall i :: k <= i < |rs| ==> rs[i] == 0
  {
    if rs == [] then 0 else if rs[|rs| - 1] != 0 then |rs| else AfterLast(rs[..|rs| - 1])
  }

  /** The error is the last refusal; only a refusal that says "no such process" is forgotten when a success follows. */
  lemma {:induction false} FoldIsLastRefusal(rs: seq<int>)
    ensures var k := AfterLast(rs);
            Fold(rs) == if k > 0 && rs[k - 1] != -ESRCH then rs[k - 1] else if k < |rs| then 0 else -ESRCH
  {
    if rs != [] {
      FoldIsLastRefusal(rs[..|rs| - 1]);
    }
  }

  /** With no refusal of -ESRCH, 0 means exactly that some task was named and none refused. */
  lemma FoldZero(rs: seq<int>)
    requires -ESRCH !in rs
    ensures Fold(rs) == 0 <==> rs != [] && forall i :: 0 <= i < |rs| ==> rs[i] == 0
    ensures Fold(rs) == -ESRCH <==> rs == []
  {
    FoldIsLastRefusal(rs);
  }

  /** That reading of 0 fails exactly when the last refusal was -ESRCH and a success came after it. */
  lemma ZeroMeansAllAcceptedExactly(rs: seq<int>)
    ensures (Fold(rs) == 0 <==> rs != [] && forall i :: 0 <= i < |rs| ==> rs[i] == 0)
            <==> !(0 < AfterLast(rs) < |rs| && rs[AfterLast(rs) - 1] == -ESRCH)
  {
    FoldIsLastRefusal(rs);
  }

  lemma {:induction false} NoRefusalIsSearch(tasks: seq<Task>, nices: seq<int>, me: Task, c: Caller, which: int, who: int, n: int)
    requires |tasks| == |nices| && forall i :: 0 <= i < |tasks| ==> tasks[i].hook != -ESRCH
    ensures -ESRCH !in Refusals(tasks, nices, me, c, which, who, n)
  {
    if tasks != [] {
      var k := |tasks| - 1;
      NoRefusalIsSearch(tasks[..k], nices[..k], me, c, which, who, n);
    }
  }

  lemma {:induction false} AllAccepted(tasks: seq<Task>, nices: seq<int>, me: Task, c: Caller, which: int, who: int, n: int)
    requires |tasks| == |nices|
    requires var rs := Refusals(tasks, nices, me, c, which, who, n); rs != [] && forall i :: 0 <= i < |rs| ==> rs[i] == 0
    ensures exists i :: 0 <= i < |tasks| && Named(tasks[i], me, c, which, who)
    ensures forall i :: 0 <= i < |tasks| && Named(tasks[i], me, c, which, who) ==> Refusal(tasks[i], c, nices[i], n) == 0
  {
    var k := |tasks| - 1;
    var front := Refusals(tasks[..k], nices[..k], me, c, which, who, n);
    var rs := Refusals(tasks, nices, me, c, which, who, n);
    assert forall i :: 0 <= i < |front| ==> front[i] == rs[i];
    if Named(tasks[k], me, c, which, who) {
      assert rs[|front|] == Refusal(tasks[k], c, nices[k], n);
    }
    if front != [] {
      AllAccepted(tasks[..k], nices[..k], me, c, which, who, n);
      var i :| 0 <= i < k && Named(tasks[..k][i], me, c, which, who);
      assert Named(tasks[i], me, c, which, who);
      assert forall i :: 0 <= i < k ==> tasks[..k][i] == tasks[i] && nices[..k][i] == nices[i];
    } else {
      NoneNamed(tasks[..k], nices[..k], me, c, which, who, n);
      assert forall i :: 0 <= i < k ==> tasks[..k][i] == tasks[i];
    }
  }

  lemma {:induction false} NoneNamed(tasks: seq<Task>, nices: seq<int>, me: Task, c: Caller, which: int, who: int, n: int)
    requires |tasks| == |nices| && Refusals(tasks, nices, me, c, which, who, n) == []
    ensures forall i :: 0 <= i < |tasks| ==> !Named(tasks[i], me, c, which, who)
  {
    if tasks != [] {
      var k := |tasks| - 1;
      NoneNamed(tasks[..k], nices[..k], me, c, which, who, n);
      assert forall i :: 0 <= i < k ==> tasks[..k][i] == tasks[i];
    }
  }
}
