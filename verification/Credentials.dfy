/**
 The set*uid and set*gid system calls of kernel/sys.c. User and group ids follow the same rules, so one
 `Ids` record serves both; the methods of `Cred` follow the two families of functions as they are written.
 */
module Credentials {
  import opened Errno

  /** A kernel id. The user-namespace map is taken to be injective, so ids stand for themselves. */
  type Kid = nat

  /** An id argument: -1 (leave unchanged), an id with no mapping, or a mapped id. */
  datatype Arg = Keep | Unmapped | Id(k: Kid)

  /** Real, effective, saved and filesystem id. */
  datatype Ids = Ids(r: Kid, e: Kid, s: Kid, fs: Kid)

  /**
   What the environment decides during one call: the CAP_SETUID or CAP_SETGID check, whether prepare_creds,
   set_user and set_cred_ucounts find memory, and the answer of the security hook.
   */
  datatype Env = Env(capable: bool, haveCreds: bool, haveUser: bool, hook: int, haveUcounts: bool)

  datatype Call = SetRe(r: Arg, e: Arg) | Set(k: Arg) | SetRes(r: Arg, e: Arg, s: Arg) | SetFs(k: Arg)

  // ---------------------------------------------------------------------------------------------
  // What the calls promise

  function Or(a: Arg, kept: Kid): Kid {
    match a
    case Id(k) => k
    case _ => kept
  }

  function Triple(c: Ids): set<Kid> {
    {c.r, c.e, c.s}
  }

  /** The call names only ids that it may take over without the capability. */
  predicate Permitted(c: Ids, call: Call) {
    match call
    case SetRe(r, e) => Or(r, c.r) in {c.r, c.e} && Or(e, c.e) in Triple(c)
    case Set(k) => k.Id? && k.k in {c.r, c.s}
    case SetRes(r, e, s) => Or(r, c.r) in Triple(c) && Or(e, c.e) in Triple(c) && Or(s, c.s) in Triple(c)
    case SetFs(k) => k.Id? && k.k in Triple(c) + {c.fs}
  }

  predicate Mapped(call: Call) {
    match call
    case SetRe(r, e) => !r.Unmapped? && !e.Unmapped?
    case Set(k) => k.Id?
    case SetRes(r, e, s) => !r.Unmapped? && !e.Unmapped? && !s.Unmapped?
    case SetFs(k) => k.Id?
  }

  /** The ids after a call that succeeds. */
  function Granted(c: Ids, call: Call, capable: bool): Ids {
    match call
    case SetRe(r, e) =>
      var e' := Or(e, c.e);
      Ids(Or(r, c.r), e', if r.Id? || (e.Id? && e.k != c.r) then e' else c.s, e')
    case Set(k) =>
      var k' := Or(k, c.e);
      if capable then Ids(k', k', k', k') else Ids(c.r, k', c.s, k')
    case SetRes(r, e, s) =>
      var e' := Or(e, c.e);
      Ids(Or(r, c.r), e', Or(s, c.s), if e == Keep && Or(r, c.r) == c.r && Or(s, c.s) == c.s then c.fs else e')
    case SetFs(k) => c.(fs := Or(k, c.fs))
  }

  predicate Allowed(c: Ids, call: Call, env: Env) {
    Mapped(call) && (env.capable || Permitted(c, call))
  }

  predicate Unhindered(env: Env) {
    env.haveCreds && env.haveUser && env.hook == 0 && env.haveUcounts
  }

  /** A call either changes nothing or, when allowed, has its full effect; unhindered and allowed, it has its effect. */
  ghost predicate Outcome(c: Ids, call: Call, env: Env, c': Ids) {
    && (c' == c || (Allowed(c, call, env) && c' == Granted(c, call, env.capable)))
    && (Allowed(c, call, env) && Unhindered(env) ==> c' == Granted(c, call, env.capable))
  }

  /** A new real id takes a user record, and none is to be had. */
  ghost predicate NeedsUser(c: Ids, call: Call, env: Env) {
    Granted(c, call, env.capable).r != c.r && !env.haveUser
  }

  ghost predicate Returns(c: Ids, call: Call, env: Env, ret: int, c': Ids) {
    && Outcome(c, call, env, c')
    && (ret == 0 ==> Allowed(c, call, env) && c' == Granted(c, call, env.capable))
    && (ret != 0 ==> ret < 0 && c' == c)
    && (Allowed(c, call, env) && Unhindered(env) ==> ret == 0)
    && (0 <= env.hook ==> (ret == -EINVAL <==> !Mapped(call)))
    && (0 <= env.hook && ret == -EPERM ==> !env.capable && !Permitted(c, call))
    && (Mapped(call) && !env.capable && !Permitted(c, call) && env.haveCreds ==> ret == -EPERM)
    && (Allowed(c, call, env) && ret != 0 ==>
          || (ret == -ENOMEM && !env.haveCreds) || (ret == env.hook && env.hook < 0)
          || (ret == -EAGAIN && (!env.haveUcounts || NeedsUser(c, call, env))))
  }

  // ---------------------------------------------------------------------------------------------
  // The calls

  class Cred {
    var ids: Ids

    constructor (ids: Ids)
      ensures this.ids == ids
    {
      this.ids := ids;
    }

    method SetReUid(ruid: Arg, euid: Arg, env: Env) returns (ret: int)
      modifies this
      ensures Returns(old(ids), SetRe(ruid, euid), env, ret, ids)
      ensures Allowed(old(ids), SetRe(ruid, euid), env) && env.haveCreds && NeedsUser(old(ids), SetRe(ruid, euid), env) ==> ret == -EAGAIN
    {
      if ruid.Unmapped? {
        return -EINVAL;
      }
      if euid.Unmapped? {
        return -EINVAL;
      }
      if !env.haveCreds {
        return -ENOMEM;
      }
      var cur, next := ids, ids;
      if ruid.Id? {
        next := next.(r := ruid.k);
        if cur.r != ruid.k && cur.e != ruid.k && !env.capable {
          return -EPERM;
        }
      }
      if euid.Id? {
        next := next.(e := euid.k);
        if cur.r != euid.k && cur.e != euid.k && cur.s != euid.k && !env.capable {
          return -EPERM;
        }
      }
      if next.r != cur.r {
        if !env.haveUser {
          return -EAGAIN;
        }
      }
      if ruid.Id? || (euid.Id? && euid.k != cur.r) {
        next := next.(s := next.e);
      }
      next := next.(fs := next.e);
      if env.hook < 0 {
        return env.hook;
      }
      if !env.haveUcounts {
        return -EAGAIN;
      }
      ids := next;
      return 0;
    }

    method SetUid(uid: Arg, env: Env) returns (ret: int)
      modifies this
      ensures Returns(old(ids), Set(uid), env, ret, ids)
      ensures Allowed(old(ids), Set(uid), env) && env.haveCreds && NeedsUser(old(ids), Set(uid), env) ==> ret == -EAGAIN
    {
      if !uid.Id? {
        return -EINVAL;
      }
      if !env.haveCreds {
        return -ENOMEM;
      }
      var cur, next := ids, ids;
      if env.capable {
        next := next.(s := uid.k, r := uid.k);
        if uid.k != cur.r {
          if !env.haveUser {
            return -EAGAIN;
          }
        }
      } else if uid.k != cur.r && uid.k != next.s {
        return -EPERM;
      }
      next := next.(fs := uid.k, e := uid.k);
      if env.hook < 0 {
        return env.hook;
      }
      if !env.haveUcounts {
        return -EAGAIN;
      }
      ids := next;
      return 0;
    }

    method SetResUid(ruid: Arg, euid: Arg, suid: Arg, env: Env) returns (ret: int)
      modifies this
      ensures Returns(old(ids), SetRes(ruid, euid, suid), env, ret, ids)
      ensures var call := SetRes(ruid, euid, suid);
              Allowed(old(ids), call, env) && env.haveCreds && NeedsUser(old(ids), call, env) ==> ret == -EAGAIN
    {
      if ruid.Unmapped? {
        return -EINVAL;
      }
      if euid.Unmapped? {
        return -EINVAL;
      }
      if suid.Unmapped? {
        return -EINVAL;
      }
      var cur := ids;
      if (ruid == Keep || ruid.k == cur.r)
         && (euid == Keep || (euid.k == cur.e && euid.k == cur.fs))
         && (suid == Keep || suid.k == cur.s) {
        return 0;
      }
      var ruidNew := ruid.Id? && ruid.k != cur.r && ruid.k != cur.e && ruid.k != cur.s;
      var euidNew := euid.Id? && euid.k != cur.r && euid.k != cur.e && euid.k != cur.s;
      var suidNew := suid.Id? && suid.k != cur.r && suid.k != cur.e && suid.k != cur.s;
      if (ruidNew || euidNew || suidNew) && !env.capable {
        return -EPERM;
      }
      if !env.haveCreds {
        return -ENOMEM;
      }
      var next := ids;
      if ruid.Id? {
        next := next.(r := ruid.k);
        if ruid.k != cur.r {
          if !env.haveUser {
            return -EAGAIN;
          }
        }
      }
      if euid.Id? {
        next := next.(e := euid.k);
      }
      if suid.Id? {
        next := next.(s := suid.k);
      }
      next := next.(fs := next.e);
      if env.hook < 0 {
        return env.hook;
      }
      if !env.haveUcounts {
        return -EAGAIN;
      }
      ids := next;
      return 0;
    }

    /** Returns the previous filesystem id whether or not it changed anything. */
    method SetFsUid(uid: Arg, env: Env) returns (oldFs: Kid)
      modifies this
      ensures oldFs == old(ids).fs
      ensures Outcome(old(ids), SetFs(uid), env, ids)
    {
      oldFs := ids.fs;
      if !uid.Id? {
        return;
      }
      if !env.haveCreds {
        return;
      }
      var cur := ids;
      if uid.k == cur.r || uid.k == cur.e || uid.k == cur.s || uid.k == cur.fs || env.capable {
        if uid.k != cur.fs {
          if env.hook == 0 {
            ids := ids.(fs := uid.k);
          }
        }
      }
    }

    // the group twins, which test before they assign and allocate no user

    method SetReGid(rgid: Arg, egid: Arg, env: Env) returns (ret: int)
      modifies this
      ensures Returns(old(ids), SetRe(rgid, egid), env, ret, ids)
    {
      if rgid.Unmapped? {
        return -EINVAL;
      }
      if egid.Unmapped? {
        return -EINVAL;
      }
      if !env.haveCreds {
        return -ENOMEM;
      }
      var cur, next := ids, ids;
      if rgid.Id? {
        if cur.r == rgid.k || cur.e == rgid.k || env.capable {
          next := next.(r := rgid.k);
        } else {
          return -EPERM;
        }
      }
      if egid.Id? {
        if cur.r == egid.k || cur.e == egid.k || cur.s == egid.k || env.capable {
          next := next.(e := egid.k);
        } else {
          return -EPERM;
        }
      }
      if rgid.Id? || (egid.Id? && egid.k != cur.r) {
        next := next.(s := next.e);
      }
      next := next.(fs := next.e);
      if env.hook < 0 {
        return env.hook;
      }
      ids := next;
      return 0;
    }

    method SetGid(gid: Arg, env: Env) returns (ret: int)
      modifies this
      ensures Returns(old(ids), Set(gid), env, ret, ids)
    {
      if !gid.Id? {
        return -EINVAL;
      }
      if !env.haveCreds {
        return -ENOMEM;
      }
      var cur, next := ids, ids;
      if env.capable {
        next := Ids(gid.k, gid.k, gid.k, gid.k);
      } else if gid.k == cur.r || gid.k == cur.s {
        next := next.(e := gid.k, fs := gid.k);
      } else {
        return -EPERM;
      }
      if env.hook < 0 {
        return env.hook;
      }
      ids := next;
      return 0;
    }
  }

  // ---------------------------------------------------------------------------------------------
  // Runs

  ghost predicate Run(cs: seq<Ids>, calls: seq<Call>, envs: seq<Env>) {
    && |cs| == |calls| + 1 && |envs| == |calls|
    && forall i :: 0 <= i < |calls| ==> Outcome(cs[i], calls[i], envs[i], cs[i + 1])
  }

  ghost predicate Unprivileged(envs: seq<Env>) {
    forall i :: 0 <= i < |envs| ==> !envs[i].capable
  }

  /** Without the capability no run brings in an id that was not there at its start. */
  lemma {:induction false} IdsNeverGrow(cs: seq<Ids>, calls: seq<Call>, envs: seq<Env>, n: nat)
    requires Run(cs, calls, envs) && Unprivileged(envs) && n < |cs|
    ensures Triple(cs[n]) <= Triple(cs[0])
    ensures cs[n].fs in Triple(cs[0]) + {cs[0].fs}
  {
    if n > 0 {
      IdsNeverGrow(cs, calls, envs, n - 1);
      assert Outcome(cs[n - 1], calls[n - 1], envs[n - 1], cs[n]);
    }
  }

  ghost predicate Reachable(c: Ids, r: Kid, e: Kid, s: Kid) {
    exists cs: seq<Ids>, calls: seq<Call>, envs: seq<Env> :: Run(cs, calls, envs) && Unprivileged(envs)
                              && cs[0] == c && cs[|calls|].r == r && cs[|calls|].e == e && cs[|calls|].s == s
  }

  /** The triples an unprivileged run can reach are those made of the starting ids, and one setresuid reaches each. */
  lemma ReachableTriples(c: Ids, r: Kid, e: Kid, s: Kid, env: Env)
    requires !env.capable && Unhindered(env)
    ensures Reachable(c, r, e, s) <==> {r, e, s} <= Triple(c)
    ensures {r, e, s} <= Triple(c) ==>
              var call := SetRes(Id(r), Id(e), Id(s));
              Allowed(c, call, env) && forall c' :: Outcome(c, call, env, c') ==> c'.r == r && c'.e == e && c'.s == s
  {
    if {r, e, s} <= Triple(c) {
      assert r in {r, e, s} && e in {r, e, s} && s in {r, e, s};
      var call := SetRes(Id(r), Id(e), Id(s));
      var cs, calls, envs := [c, Granted(c, call, false)], [call], [env];
      assert Run(cs, calls, envs) && Unprivileged(envs);
      assert cs[|calls|].r == r;
    }
    if Reachable(c, r, e, s) {
      var cs: seq<Ids>, calls: seq<Call>, envs: seq<Env> :| Run(cs, calls, envs) && Unprivileged(envs)
                             && cs[0] == c && cs[|calls|].r == r && cs[|calls|].e == e && cs[|calls|].s == s;
      IdsNeverGrow(cs, calls, envs, |calls|);
    }
  }

  /** A task with one id everywhere keeps it in every unprivileged run: a full drop cannot be undone. */
  lemma DroppedForGood(cs: seq<Ids>, calls: seq<Call>, envs: seq<Env>, n: nat)
    requires Run(cs, calls, envs) && Unprivileged(envs) && n < |cs|
    requires cs[0].r == cs[0].e == cs[0].s == cs[0].fs
    ensures cs[n] == cs[0]
  {
    IdsNeverGrow(cs, calls, envs, n);
    assert cs[n].r in Triple(cs[n]) && cs[n].e in Triple(cs[n]) && cs[n].s in Triple(cs[n]);
  }

  /** Two ways to a full drop: setreuid to the real id by anyone, setuid by a capable task. */
  lemma WaysToDrop(c: Ids, k: Kid, env: Env, env': Env, c': Ids, c'': Ids)
    requires Unhindered(env) && Outcome(c, SetRe(Id(c.r), Id(c.r)), env, c')
    requires Unhindered(env') && env'.capable && Outcome(c, Set(Id(k)), env', c'')
    ensures c' == Ids(c.r, c.r, c.r, c.r)
    ensures c'' == Ids(k, k, k, k)
  {
  }

  /** The filesystem id follows the effective one over every run of calls that do not name it, privileged or not. */
  lemma {:induction false} FsFollowsEffective(cs: seq<Ids>, calls: seq<Call>, envs: seq<Env>, n: nat)
    requires Run(cs, calls, envs) && n < |cs| && cs[0].fs == cs[0].e
    requires forall i :: 0 <= i < |calls| ==> !calls[i].SetFs?
    ensures cs[n].fs == cs[n].e
  {
    if n > 0 {
      FsFollowsEffective(cs, calls, envs, n - 1);
      assert Outcome(cs[n - 1], calls[n - 1], envs[n - 1], cs[n]);
    }
  }

  /** Any change by setresuid, and any setreuid or setuid, ends with the filesystem id at the new effective one. */
  lemma ChangeMovesFs(c: Ids, call: Call, env: Env, c': Ids)
    requires Outcome(c, call, env, c') && !call.SetFs? && (c'.r != c.r || c'.e != c.e || c'.s != c.s || c'.fs != c.fs)
    ensures c'.fs == c'.e
  {
  }

  /** setresuid to one id three times, by a task that may, is a full drop from wherever it starts. */
  lemma SetResDrops(c: Ids, k: Kid, env: Env, c': Ids)
    requires Unhindered(env) && (env.capable || k in Triple(c)) && Outcome(c, SetRes(Id(k), Id(k), Id(k)), env, c')
    ensures c' == Ids(k, k, k, k)
  {
  }

  /** setresuid sets each id by itself: an id that is not named stays. */
  lemma SetResNamesEach(c: Ids, r: Arg, e: Arg, s: Arg, env: Env, c': Ids)
    requires Unhindered(env) && env.capable && !r.Unmapped? && !e.Unmapped? && !s.Unmapped?
    requires Outcome(c, SetRes(r, e, s), env, c')
    ensures (r.Id? ==> c'.r == r.k) && (e.Id? ==> c'.e == e.k) && (s.Id? ==> c'.s == s.k)
    ensures (r == Keep ==> c'.r == c.r) && (e == Keep ==> c'.e == c.e) && (s == Keep ==> c'.s == c.s)
  {
  }

  /** A step down by setreuid(-1, real id) keeps the saved id, so that the task can come back to it. */
  lemma StepDownAndBack(c: Ids, env: Env, c': Ids, c'': Ids)
    requires Unhindered(env)
    requires Outcome(c, SetRe(Keep, Id(c.r)), env, c') && Outcome(c', SetRe(Keep, Id(c.s)), env, c'')
    ensures c' == Ids(c.r, c.r, c.s, c.r)
    ensures c'' == Ids(c.r, c.s, c.s, c.s)
  {
  }

  /** The saved id goes along exactly with calls that name the real id or lead away from it. */
  lemma SetReMovesSaved(c: Ids, r: Arg, e: Arg, env: Env, c': Ids)
    requires Outcome(c, SetRe(r, e), env, c') && Unhindered(env) && Allowed(c, SetRe(r, e), env)
    ensures r == Keep && e == Keep ==> c' == c.(fs := c.e)
    ensures r == Keep && e == Id(c.r) ==> c'.s == c.s
    ensures r.Id? || (e.Id? && e.k != c.r) ==> c'.s == c'.e
    ensures (r.Id? ==> c'.r == r.k) && (r == Keep ==> c'.r == c.r) && (e.Id? ==> c'.e == e.k) && (e == Keep ==> c'.e == c.e)
    ensures c'.fs == c'.e
  {
  }

  /** setfsuid moves the filesystem id alone; a plain setuid the effective and the filesystem id. */
  lemma OnlyTheirIds(c: Ids, k: Kid, env: Env, c': Ids, c'': Ids)
    requires Outcome(c, SetFs(Id(k)), env, c')
    requires Unhindered(env) && !env.capable && Outcome(c, Set(Id(k)), env, c'')
    ensures c'.r == c.r && c'.e == c.e && c'.s == c.s && (c'.fs == c.fs || c'.fs == k)
    ensures Unhindered(env) && k in {c.r, c.e, c.s, c.fs} ==> c'.fs == k
    ensures c'' == if k == c.r || k == c.s then Ids(c.r, k, c.s, k) else c
  {
  }

  /** Swapping real and effective id is always allowed, and doing it twice restores both. */
  lemma SwapTwiceRestores(c: Ids, env: Env, c': Ids, c'': Ids)
    requires Unhindered(env)
    requires Outcome(c, SetRe(Id(c.e), Id(c.r)), env, c')
    requires Outcome(c', SetRe(Id(c'.e), Id(c'.r)), env, c'')
    ensures c'.r == c.e && c'.e == c.r && c'.s == c.r
    ensures c''.r == c.r && c''.e == c.e && c''.s == c.e
  {
  }

  /** A program that uses only setuid keeps its real and saved id, so it can always come back to either. */
  lemma {:induction false} SetUidAloneKeepsSaved(cs: seq<Ids>, calls: seq<Call>, envs: seq<Env>, n: nat)
    requires Run(cs, calls, envs) && Unprivileged(envs) && n < |cs|
    requires forall i :: 0 <= i < |calls| ==> calls[i].Set?
    ensures cs[n].r == cs[0].r && cs[n].s == cs[0].s
    ensures Permitted(cs[n], Set(Id(cs[0].s))) && Permitted(cs[n], Set(Id(cs[0].r)))
    ensures cs[n].e in {cs[0].r, cs[0].s, cs[0].e}
  {
    if n > 0 {
      SetUidAloneKeepsSaved(cs, calls, envs, n - 1);
      assert Outcome(cs[n - 1], calls[n - 1], envs[n - 1], cs[n]);
    }
  }
}
