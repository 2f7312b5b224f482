/**
 Opens, closes and truncations of one path, interleaved one count at a time. Each thread follows the steps of
 do_dentry_open, file_get_write_access and vfs_truncate in fs/open.c; the counters are shared.
 */
module OpenRuns {
  import opened OpenCounts

  /** A reference on the path, a reader or writer of the inode, a writer on the path's mount or on the one it is seen through. */
  datatype Hold = PathRef | Reader | InodeWriter | MntWriter | UserMntWriter

  /** The next thing a thread does. */
  datatype Stage =
      // do_dentry_open
    | GetPath
    | GetAccess
    | GetMnt       // file_get_write_access, once it has the inode
    | GetUserMnt   // and once it has the mount
    | RunChecks
    | Open         // FMODE_OPENED; closing is next
      // the ways out: put_file_access, cleanup_mnt, cleanup_inode, cleanup_file
      // (fs/internal.h, which says in which order put_file_access gives the writers back, is not part of this model)
    | PutAccess | PutMnt | PutInode | PutPath
      // vfs_truncate
    | WantWrite | TruncateAccess | Truncate | TruncatePutInode | DropWrite
    | Ended

  /** The mode bits are those of the file that is opened; a truncation has none. */
  datatype Pc = Pc(at: Stage, mode: set<Mode>, oPath: bool)

  datatype Act = Take(h: Hold) | Put(h: Hold) | Skip

  /** What the rest of the kernel answers in one step: success or refusal, and the environment of the checks. */
  datatype Answer = Answer(ok: bool, env: Env)

  ghost predicate ChecksPass(env: Env) {
    env.hasFops && env.security == 0 && env.lease == 0 && env.open == 0
  }

  /** One step of a thread on an inode of this kind, whose write count is `writers`. */
  ghost function Does(kind: Kind, writers: int, pc: Pc, a: Answer): (Pc, Act) {
    var mode := pc.mode;
    match pc.at
    case GetPath => (pc.(at := GetAccess), Take(PathRef))
    case GetAccess =>
      if pc.oPath then (pc.(at := Open, mode := {PATH, OPENED}), Skip)
      else if READ in mode && WRITE !in mode then (pc.(at := RunChecks), Take(Reader))
      else if WRITE in mode && kind != SpecialFile then
        if writers < 0 then (pc.(at := PutPath), Skip) else (pc.(at := GetMnt), Take(InodeWriter))
      else (pc.(at := RunChecks), Skip)
    case GetMnt => if a.ok then (pc.(at := GetUserMnt), Take(MntWriter)) else (pc.(at := PutInode), Skip)
    case GetUserMnt =>
      if BACKING !in mode then (pc.(at := RunChecks, mode := mode + {WRITER}), Skip)
      else if a.ok then (pc.(at := RunChecks, mode := mode + {WRITER}), Take(UserMntWriter))
      else (pc.(at := PutMnt), Skip)
    case RunChecks =>
      if ChecksPass(a.env) then (pc.(at := Open, mode := FinishedMode(CheckedMode(mode, kind, a.env), a.env)), Skip)
      else (pc.(at := PutAccess), Skip)
    case Open => (pc.(at := PutAccess), Skip)
    case PutAccess =>
      if READ in mode && WRITE !in mode then (pc.(at := PutPath), Put(Reader))
      else if WRITER !in mode then (pc.(at := PutPath), Skip)
      else if BACKING in mode then (pc.(at := PutMnt), Put(UserMntWriter))
      else (pc.(at := PutMnt), Skip)
    case PutMnt => (pc.(at := PutInode), Put(MntWriter))
    case PutInode => (pc.(at := PutPath), Put(InodeWriter))
    case PutPath => (pc.(at := Ended), Put(PathRef))
    case WantWrite => if a.ok then (pc.(at := TruncateAccess), Take(MntWriter)) else (pc.(at := Ended), Skip)
    case TruncateAccess =>
      if a.ok && 0 <= writers then (pc.(at := Truncate), Take(InodeWriter)) else (pc.(at := DropWrite), Skip)
    case Truncate => (pc.(at := TruncatePutInode), Skip)
    case TruncatePutInode => (pc.(at := DropWrite), Put(InodeWriter))
    case DropWrite => (pc.(at := Ended), Put(MntWriter))
    case Ended => (pc, Skip)
  }

  /** `log` is a history variable: what the thread took and gave back so far. No step looks at it. */
  datatype Thread = Thread(pc: Pc, log: seq<Act>)

  datatype World = World(threads: seq<Thread>, counts: Counts)

  datatype Event =
    | BeginOpen(mode: set<Mode>, oPath: bool)
    | BeginTruncate
    | Step(id: nat, a: Answer)

  /** One more or one less of a count; both mounts may be one and the same. */
  ghost function Bumped(c: Counts, h: Hold, d: int, mnt: Mount, userMnt: Mount): Counts {
    var one := mnt == userMnt;
    match h
    case PathRef => c.(refs := c.refs + d)
    case Reader => c.(readers := c.readers + d)
    case InodeWriter => c.(writers := c.writers + d)
    case MntWriter => c.(mnt := c.mnt + d, userMnt := if one then c.userMnt + d else c.userMnt)
    case UserMntWriter => c.(userMnt := c.userMnt + d, mnt := if one then c.mnt + d else c.mnt)
  }

  ghost function Acted(c: Counts, act: Act, mnt: Mount, userMnt: Mount): Counts {
    match act
    case Take(h) => Bumped(c, h, 1, mnt, userMnt)
    case Put(h) => Bumped(c, h, -1, mnt, userMnt)
    case Skip => c
  }

  /** Where the thread stands after its step, and what it did. */
  ghost function Moved(kind: Kind, writers: int, x: Thread, a: Answer): Thread {
    var (pc, act) := Does(kind, writers, x.pc, a);
    Thread(pc, x.log + [act])
  }

  ghost predicate Next(kind: Kind, mnt: Mount, userMnt: Mount, w: World, e: Event, w': World) {
    match e
    case BeginOpen(mode, oPath) =>
      mode <= {READ, WRITE, BACKING} && w' == w.(threads := w.threads + [Thread(Pc(GetPath, mode, oPath), [])])
    case BeginTruncate => kind == Regular && w' == w.(threads := w.threads + [Thread(Pc(WantWrite, {}, false), [])])
    case Step(id, a) =>
      && id < |w.threads| && EnvOk(a.env)
      && w' == World(w.threads[id := Moved(kind, w.counts.writers, w.threads[id], a)],
                     Acted(w.counts, Does(kind, w.counts.writers, w.threads[id].pc, a).1, mnt, userMnt))
  }

  ghost predicate Run(kind: Kind, mnt: Mount, userMnt: Mount, ws: seq<World>, es: seq<Event>) {
    && |ws| == |es| + 1 && ws[0].threads == []
    && forall i :: 0 <= i < |es| ==> Next(kind, mnt, userMnt, ws[i], es[i], ws[i + 1])
  }

  // ---------------------------------------------------------------------------------------------
  // What a thread holds, from where it stands

  function Change(act: Act, h: Hold): int {
    if act == Take(h) then 1 else if act == Put(h) then -1 else 0
  }

  /** How many of these a thread with this past holds. */
  function Held(log: seq<Act>, h: Hold): int {
    if log == [] then 0 else Held(log[..|log| - 1], h) + Change(log[|log| - 1], h)
  }

  predicate Has(x: seq<Act>, path: int, reader: int, inode: int, mnt: int, userMnt: int) {
    && Held(x, PathRef) == path && Held(x, Reader) == reader && Held(x, InodeWriter) == inode
    && Held(x, MntWriter) == mnt && Held(x, UserMntWriter) == userMnt
  }

  predicate HasNothing(x: seq<Act>) {
    Has(x, 0, 0, 0, 0, 0)
  }

  /** The holds that belong to an opened file of this mode. */
  predicate HasWhatIsNeeded(x: seq<Act>, mode: set<Mode>) {
    Has(x, 1, Reads(mode), Writes(mode), Writes(mode), if BACKING in mode then Writes(mode) else 0)
  }

  predicate HoldsAt(pc: Pc, x: seq<Act>) {
    match pc.at
    case GetPath => HasNothing(x)
    case GetAccess => Has(x, 1, 0, 0, 0, 0)
    case GetMnt => Has(x, 1, 0, 1, 0, 0)
    case GetUserMnt => Has(x, 1, 0, 1, 1, 0)
    case RunChecks => HasWhatIsNeeded(x, pc.mode)
    case Open => HasWhatIsNeeded(x, pc.mode)
    case PutAccess => HasWhatIsNeeded(x, pc.mode)
    case PutMnt => Has(x, 1, 0, 1, 1, 0)
    case PutInode => Has(x, 1, 0, 1, 0, 0)
    case PutPath => Has(x, 1, 0, 0, 0, 0)
    case WantWrite => HasNothing(x)
    case TruncateAccess => Has(x, 0, 0, 0, 1, 0)
    case Truncate => Has(x, 0, 0, 1, 1, 0)
    case TruncatePutInode => Has(x, 0, 0, 1, 1, 0)
    case DropWrite => Has(x, 0, 0, 0, 1, 0)
    case Ended => HasNothing(x)
  }

  /** The mode bits that reach each point. */
  ghost predicate ModeOk(pc: Pc) {
    match pc.at
    case GetPath => WRITER !in pc.mode
    case GetAccess => WRITER !in pc.mode
    case GetMnt => WRITER !in pc.mode && WRITE in pc.mode
    case GetUserMnt => WRITER !in pc.mode && WRITE in pc.mode
    case RunChecks => WRITER in pc.mode ==> WRITE in pc.mode
    case Open => OPENED in pc.mode && (WRITER in pc.mode ==> WRITE in pc.mode)
    case PutAccess => WRITER in pc.mode ==> WRITE in pc.mode
    case _ => true
  }

  ghost predicate Good(x: Thread) {
    ModeOk(x.pc) && HoldsAt(x.pc, x.log)
  }

  lemma ChecksKeepHolds(mode: set<Mode>, kind: Kind, env: Env)
    requires EnvOk(env) && (WRITER in mode ==> WRITE in mode)
    ensures var m := FinishedMode(CheckedMode(mode, kind, env), env);
            SameHolds(mode, m) && OPENED in m && (WRITER in m ==> WRITE in m)
  {
    HoldsKept(mode, kind, env);
  }

  lemma HeldNext(x: seq<Act>, act: Act, h: Hold)
    ensures Held(x + [act], h) == Held(x, h) + Change(act, h)
  {
    assert (x + [act])[..|x|] == x;
  }

  lemma HasNext(x: seq<Act>, act: Act, path: int, reader: int, inode: int, mnt: int, userMnt: int)
    requires Has(x, path, reader, inode, mnt, userMnt)
    ensures Has(x + [act], path + Change(act, PathRef), reader + Change(act, Reader), inode + Change(act, InodeWriter),
                mnt + Change(act, MntWriter), userMnt + Change(act, UserMntWriter))
  {
    HeldNext(x, act, PathRef);
    HeldNext(x, act, Reader);
    HeldNext(x, act, InodeWriter);
    HeldNext(x, act, MntWriter);
    HeldNext(x, act, UserMntWriter);
  }

  // Taking the access that a mode asks for, in the order of the source, ends with what the mode then says is held.

  lemma AccessKeepsGood(kind: Kind, writers: int, x: Thread, a: Answer)
    requires Good(x) && x.pc.at == GetAccess
    ensures Good(Moved(kind, writers, x, a))
  {
    HasNext(x.log, Does(kind, writers, x.pc, a).1, 1, 0, 0, 0, 0);
  }

  lemma MntKeepsGood(kind: Kind, writers: int, x: Thread, a: Answer)
    requires Good(x) && x.pc.at == GetMnt
    ensures Good(Moved(kind, writers, x, a))
  {
    HasNext(x.log, Does(kind, writers, x.pc, a).1, 1, 0, 1, 0, 0);
  }

  lemma UserMntKeepsGood(kind: Kind, writers: int, x: Thread, a: Answer)
    requires Good(x) && x.pc.at == GetUserMnt
    ensures Good(Moved(kind, writers, x, a))
  {
    HasNext(x.log, Does(kind, writers, x.pc, a).1, 1, 0, 1, 1, 0);
    var mode := x.pc.mode;
    var m := mode + {WRITER};
    assert Writes(m) == 1 && Reads(m) == 0 && (BACKING in m <==> BACKING in mode);
  }

  /** Giving back what the mode says is held leaves the path reference, or the chain that leads to it. */
  lemma ReleaseKeepsGood(kind: Kind, writers: int, x: Thread, a: Answer)
    requires Good(x) && x.pc.at == PutAccess
    ensures Good(Moved(kind, writers, x, a))
  {
    var w, m := Writes(x.pc.mode), x.pc.mode;
    HasNext(x.log, Does(kind, writers, x.pc, a).1, 1, Reads(m), w, w, if BACKING in m then w else 0);
  }

  lemma SameNeeds(x: seq<Act>, mode: set<Mode>, mode': set<Mode>)
    requires HasWhatIsNeeded(x, mode) && SameHolds(mode, mode')
    ensures HasWhatIsNeeded(x + [Skip], mode')
  {
    var w := Writes(mode);
    HasNext(x, Skip, 1, Reads(mode), w, w, if BACKING in mode then w else 0);
  }

  lemma ChecksKeepGood(kind: Kind, writers: int, x: Thread, a: Answer)
    requires Good(x) && x.pc.at == RunChecks && EnvOk(a.env)
    ensures Good(Moved(kind, writers, x, a))
  {
    var mode := x.pc.mode;
    if ChecksPass(a.env) {
      var m := FinishedMode(CheckedMode(mode, kind, a.env), a.env);
      ChecksKeepHolds(mode, kind, a.env);
      SameNeeds(x.log, mode, m);
      assert Moved(kind, writers, x, a) == Thread(x.pc.(at := Open, mode := m), x.log + [Skip]);
    } else {
      SameNeeds(x.log, mode, mode);
    }
  }

  lemma PutsKeepGood(kind: Kind, writers: int, x: Thread, a: Answer)
    requires Good(x) && (x.pc.at == PutMnt || x.pc.at == PutInode || x.pc.at == PutPath)
    ensures Good(Moved(kind, writers, x, a))
  {
    var act := Does(kind, writers, x.pc, a).1;
    HasNext(x.log, act, 1, 0, if x.pc.at == PutPath then 0 else 1, if x.pc.at == PutMnt then 1 else 0, 0);
  }

  lemma EndsKeepGood(kind: Kind, writers: int, x: Thread, a: Answer)
    requires Good(x) && (x.pc.at == GetPath || x.pc.at == Open || x.pc.at == Ended)
    ensures Good(Moved(kind, writers, x, a))
  {
    if x.pc.at == Open {
      SameNeeds(x.log, x.pc.mode, x.pc.mode);
    } else {
      HasNext(x.log, Does(kind, writers, x.pc, a).1, 0, 0, 0, 0, 0);
    }
  }

  lemma TruncationTakesGood(kind: Kind, writers: int, x: Thread, a: Answer)
    requires Good(x) && (x.pc.at == WantWrite || x.pc.at == TruncateAccess)
    ensures Good(Moved(kind, writers, x, a))
  {
    HasNext(x.log, Does(kind, writers, x.pc, a).1, 0, 0, 0, if x.pc.at == WantWrite then 0 else 1, 0);
  }

  lemma TruncationPutsGood(kind: Kind, writers: int, x: Thread, a: Answer)
    requires Good(x) && (x.pc.at == Truncate || x.pc.at == TruncatePutInode || x.pc.at == DropWrite)
    ensures Good(Moved(kind, writers, x, a))
  {
    HasNext(x.log, Does(kind, writers, x.pc, a).1, 0, 0, if x.pc.at == DropWrite then 0 else 1, 1, 0);
  }

  lemma MoveKeepsGood(kind: Kind, writers: int, x: Thread, a: Answer)
    requires Good(x) && EnvOk(a.env)
    ensures Good(Moved(kind, writers, x, a))
  {
    match x.pc.at
    case GetAccess => AccessKeepsGood(kind, writers, x, a);
    case GetMnt => MntKeepsGood(kind, writers, x, a);
    case GetUserMnt => UserMntKeepsGood(kind, writers, x, a);
    case RunChecks => ChecksKeepGood(kind, writers, x, a);
    case PutAccess => ReleaseKeepsGood(kind, writers, x, a);
    case GetPath | Open | Ended => EndsKeepGood(kind, writers, x, a);
    case PutMnt | PutInode | PutPath => PutsKeepGood(kind, writers, x, a);
    case WantWrite | TruncateAccess => TruncationTakesGood(kind, writers, x, a);
    case Truncate | TruncatePutInode | DropWrite => TruncationPutsGood(kind, writers, x, a);
  }

  // ---------------------------------------------------------------------------------------------
  // The counters

  function Total(xs: seq<Thread>, h: Hold): int {
    if xs == [] then 0 else Total(xs[..|xs| - 1], h) + Held(xs[|xs| - 1].log, h)
  }

  /** The counters on top of `base` when the threads hold what they do. */
  ghost function Expected(base: Counts, xs: seq<Thread>, mnt: Mount, userMnt: Mount): Counts {
    var m, u, one := Total(xs, MntWriter), Total(xs, UserMntWriter), mnt == userMnt;
    Counts(base.refs + Total(xs, PathRef), base.readers + Total(xs, Reader), base.writers + Total(xs, InodeWriter),
           base.mnt + m + (if one then u else 0), base.userMnt + u + (if one then m else 0))
  }

  lemma {:induction false} TotalChanged(xs: seq<Thread>, id: nat, x: Thread, act: Act, h: Hold)
    requires id < |xs| && x.log == xs[id].log + [act]
    ensures Total(xs[id := x], h) == Total(xs, h) + Change(act, h)
  {
    var n := |xs| - 1;
    HeldNext(xs[id].log, act, h);
    if id < n {
      TotalChanged(xs[..n], id, x, act, h);
      assert xs[id := x][..n] == xs[..n][id := x];
    } else {
      assert xs[id := x][..n] == xs[..n];
    }
  }

  /** A step does to the counters what it does to the holds. */
  lemma ActChanges(base: Counts, xs: seq<Thread>, id: nat, x: Thread, act: Act, mnt: Mount, userMnt: Mount)
    requires id < |xs| && x.log == xs[id].log + [act]
    ensures Expected(base, xs[id := x], mnt, userMnt) == Acted(Expected(base, xs, mnt, userMnt), act, mnt, userMnt)
  {
    TotalChanged(xs, id, x, act, PathRef);
    TotalChanged(xs, id, x, act, Reader);
    TotalChanged(xs, id, x, act, InodeWriter);
    TotalChanged(xs, id, x, act, MntWriter);
    TotalChanged(xs, id, x, act, UserMntWriter);
  }

  lemma NewHoldsNothing(xs: seq<Thread>, x: Thread, h: Hold)
    requires HasNothing(x.log)
    ensures Total(xs + [x], h) == Total(xs, h)
  {
    assert (xs + [x])[..|xs|] == xs;
  }

  lemma NewCountsNothing(base: Counts, xs: seq<Thread>, x: Thread, mnt: Mount, userMnt: Mount)
    requires HasNothing(x.log)
    ensures Expected(base, xs + [x], mnt, userMnt) == Expected(base, xs, mnt, userMnt)
  {
    NewHoldsNothing(xs, x, PathRef);
    NewHoldsNothing(xs, x, Reader);
    NewHoldsNothing(xs, x, InodeWriter);
    NewHoldsNothing(xs, x, MntWriter);
    NewHoldsNothing(xs, x, UserMntWriter);
  }

  ghost predicate Inv(base: Counts, mnt: Mount, userMnt: Mount, w: World) {
    w.counts == Expected(base, w.threads, mnt, userMnt) && forall i :: 0 <= i < |w.threads| ==> Good(w.threads[i])
  }

  lemma BeginKeepsInv(base: Counts, mnt: Mount, userMnt: Mount, w: World, pc: Pc, w': World)
    requires Inv(base, mnt, userMnt, w) && w' == w.(threads := w.threads + [Thread(pc, [])])
    requires (pc.at == GetPath || pc.at == WantWrite) && ModeOk(pc)
    ensures Inv(base, mnt, userMnt, w')
  {
    NewCountsNothing(base, w.threads, Thread(pc, []), mnt, userMnt);
  }

  lemma StepKeepsInv(base: Counts, kind: Kind, mnt: Mount, userMnt: Mount, w: World, id: nat, a: Answer, w': World)
    requires Inv(base, mnt, userMnt, w) && Next(kind, mnt, userMnt, w, Step(id, a), w')
    ensures Inv(base, mnt, userMnt, w')
  {
    var x := w.threads[id];
    MoveKeepsGood(kind, w.counts.writers, x, a);
    ActChanges(base, w.threads, id, w'.threads[id], Does(kind, w.counts.writers, x.pc, a).1, mnt, userMnt);
  }

  lemma NextKeepsInv(base: Counts, kind: Kind, mnt: Mount, userMnt: Mount, w: World, e: Event, w': World)
    requires Inv(base, mnt, userMnt, w) && Next(kind, mnt, userMnt, w, e, w')
    ensures Inv(base, mnt, userMnt, w')
  {
    match e
    case BeginOpen(mode, oPath) => BeginKeepsInv(base, mnt, userMnt, w, Pc(GetPath, mode, oPath), w');
    case BeginTruncate => BeginKeepsInv(base, mnt, userMnt, w, Pc(WantWrite, {}, false), w');
    case Step(id, a) => StepKeepsInv(base, kind, mnt, userMnt, w, id, a, w');
  }

  lemma {:induction false} RunKeepsInv(kind: Kind, mnt: Mount, userMnt: Mount, ws: seq<World>, es: seq<Event>, n: nat)
    requires Run(kind, mnt, userMnt, ws, es) && n < |ws|
    ensures Inv(ws[0].counts, mnt, userMnt, ws[n])
  {
    if n > 0 {
      RunKeepsInv(kind, mnt, userMnt, ws, es, n - 1);
      NextKeepsInv(ws[0].counts, kind, mnt, userMnt, ws[n - 1], es[n - 1], ws[n]);
    }
  }

  // ---------------------------------------------------------------------------------------------
  // What follows for every interleaving

  /**
   A file holds, from FMODE_OPENED on, exactly what its mode bits say; an open that failed, a file that is closed and a
   truncation that is over hold nothing.
   */
  lemma HoldsFollowMode(kind: Kind, mnt: Mount, userMnt: Mount, ws: seq<World>, es: seq<Event>, n: nat, i: nat)
    requires Run(kind, mnt, userMnt, ws, es) && n < |ws| && i < |ws[n].threads|
    ensures var x := ws[n].threads[i];
            && (x.pc.at == Open ==> HasWhatIsNeeded(x.log, x.pc.mode) && OPENED in x.pc.mode)
            && (x.pc.at == Ended ==> HasNothing(x.log))
  {
    RunKeepsInv(kind, mnt, userMnt, ws, es, n);
    assert Good(ws[n].threads[i]);
  }

  /** The counters once the files among these threads are added. */
  ghost function WithFiles(base: Counts, xs: seq<Thread>, mnt: Mount, userMnt: Mount): Counts {
    if xs == [] then base
    else
      var rest, x := WithFiles(base, xs[..|xs| - 1], mnt, userMnt), xs[|xs| - 1];
      if x.pc.at == Open then WithFile(rest, x.pc.mode, mnt, userMnt) else rest
  }

  ghost predicate AtRest(xs: seq<Thread>) {
    forall i :: 0 <= i < |xs| ==> xs[i].pc.at == Open || xs[i].pc.at == Ended
  }

  /** What a file holds is what opening it does to the counters. */
  lemma OneMoreFile(base: Counts, xs: seq<Thread>, mnt: Mount, userMnt: Mount)
    requires xs != [] && var x := xs[|xs| - 1]; Good(x) && (x.pc.at == Open || x.pc.at == Ended)
    ensures var rest, x := Expected(base, xs[..|xs| - 1], mnt, userMnt), xs[|xs| - 1];
            Expected(base, xs, mnt, userMnt) == if x.pc.at == Open then WithFile(rest, x.pc.mode, mnt, userMnt) else rest
  {
  }

  lemma {:induction false} RestIsFiles(base: Counts, xs: seq<Thread>, mnt: Mount, userMnt: Mount)
    requires AtRest(xs) && forall i :: 0 <= i < |xs| ==> Good(xs[i])
    ensures Expected(base, xs, mnt, userMnt) == WithFiles(base, xs, mnt, userMnt)
  {
    if xs != [] {
      RestIsFiles(base, xs[..|xs| - 1], mnt, userMnt);
      OneMoreFile(base, xs, mnt, userMnt);
    }
  }

  /** Whenever no open, close or truncation is under way, the counters are the starting ones plus the open files. */
  lemma CountersCountOpenFiles(kind: Kind, mnt: Mount, userMnt: Mount, ws: seq<World>, es: seq<Event>, n: nat)
    requires Run(kind, mnt, userMnt, ws, es) && n < |ws| && AtRest(ws[n].threads)
    ensures ws[n].counts == WithFiles(ws[0].counts, ws[n].threads, mnt, userMnt)
  {
    RunKeepsInv(kind, mnt, userMnt, ws, es, n);
    RestIsFiles(ws[0].counts, ws[n].threads, mnt, userMnt);
  }

  lemma DeniedAct(kind: Kind, writers: int, x: Thread, a: Answer)
    requires Good(x) && Held(x.log, InodeWriter) == 0 && writers < 0
    ensures Change(Does(kind, writers, x.pc, a).1, InodeWriter) == 0
  {
  }

  ghost predicate NoWriters(xs: seq<Thread>) {
    forall i :: 0 <= i < |xs| ==> Held(xs[i].log, InodeWriter) == 0
  }

  lemma DeniedStep(kind: Kind, mnt: Mount, userMnt: Mount, w: World, id: nat, a: Answer, w': World)
    requires Next(kind, mnt, userMnt, w, Step(id, a), w') && Good(w.threads[id]) && NoWriters(w.threads) && w.counts.writers < 0
    ensures w'.counts.writers == w.counts.writers && NoWriters(w'.threads)
  {
    var x := w.threads[id];
    DeniedAct(kind, w.counts.writers, x, a);
    HeldNext(x.log, Does(kind, w.counts.writers, x.pc, a).1, InodeWriter);
  }

  /** While writing is denied, as the negative count of a running program does, nothing becomes a writer of the inode. */
  lemma {:induction false} DenialLasts(kind: Kind, mnt: Mount, userMnt: Mount, ws: seq<World>, es: seq<Event>, n: nat)
    requires Run(kind, mnt, userMnt, ws, es) && n < |ws| && ws[0].counts.writers < 0
    ensures ws[n].counts.writers == ws[0].counts.writers && NoWriters(ws[n].threads)
  {
    if n > 0 {
      DenialLasts(kind, mnt, userMnt, ws, es, n - 1);
      RunKeepsInv(kind, mnt, userMnt, ws, es, n - 1);
      assert Next(kind, mnt, userMnt, ws[n - 1], es[n - 1], ws[n]);
      match es[n - 1]
      case Step(id, a) => DeniedStep(kind, mnt, userMnt, ws[n - 1], id, a, ws[n]);
      case _ =>
    }
  }

  /** Steps left until the operation is over. */
  function Rank(at: Stage): nat {
    match at
    case GetPath => 10
    case GetAccess => 9
    case GetMnt => 8
    case GetUserMnt => 7
    case RunChecks => 6
    case Open => 5
    case PutAccess => 4
    case PutMnt => 3
    case PutInode => 2
    case PutPath => 1
    case WantWrite => 5
    case TruncateAccess => 4
    case Truncate => 3
    case TruncatePutInode => 2
    case DropWrite => 1
    case Ended => 0
  }

  /** Whatever the answers, every operation is over after at most ten steps of its own. */
  lemma OperationsEnd(kind: Kind, writers: int, pc: Pc, a: Answer)
    ensures Rank(pc.at) <= 10 && (pc.at == Ended <==> Rank(pc.at) == 0)
    ensures pc.at != Ended ==> Rank(Does(kind, writers, pc, a).0.at) < Rank(pc.at)
  {
  }

  // ---------------------------------------------------------------------------------------------
  // One open by itself

  /** What do_dentry_open is told when its whole environment is fixed beforehand. */
  ghost function Told(at: Stage, env: Env): Answer {
    Answer(if at == GetMnt then env.mntRefusal == 0 else env.userMntRefusal == 0, env)
  }

  /** At most `n` steps on an inode that nobody else touches until the file is open. */
  ghost function Alone(kind: Kind, writers: int, pc: Pc, env: Env, n: nat): Pc
    decreases n
  {
    if n == 0 || pc.at == Open then pc else Alone(kind, writers, Does(kind, writers, pc, Told(pc.at, env)).0, env, n - 1)
  }

  lemma AloneFromChecks(kind: Kind, writers: int, pc: Pc, env: Env, n: nat)
    requires pc.at == RunChecks && 0 < n
    ensures var r := Alone(kind, writers, pc, env, n);
            && (r.at == Open <==> ChecksPass(env))
            && (r.at == Open ==> r.mode == FinishedMode(CheckedMode(pc.mode, kind, env), env))
  {
    var p := Does(kind, writers, pc, Told(pc.at, env)).0;
    if !ChecksPass(env) {
      AloneFromPut(kind, writers, p, env, n - 1);
    }
  }

  /** On the way out there is no way back. */
  lemma {:induction false} AloneFromPut(kind: Kind, writers: int, pc: Pc, env: Env, n: nat)
    requires pc.at == PutAccess || pc.at == PutMnt || pc.at == PutInode || pc.at == PutPath || pc.at == Ended
    ensures Alone(kind, writers, pc, env, n).at != Open
    decreases n
  {
    if n > 0 {
      AloneFromPut(kind, writers, Does(kind, writers, pc, Told(pc.at, env)).0, env, n - 1);
    }
  }

  lemma AloneFromMnt(kind: Kind, writers: int, pc: Pc, env: Env)
    requires pc.at == GetMnt
    ensures var r := Alone(kind, writers, pc, env, 3);
            && (r.at == Open <==> env.mntRefusal == 0 && (BACKING in pc.mode ==> env.userMntRefusal == 0) && ChecksPass(env))
            && (r.at == Open ==> r.mode == FinishedMode(CheckedMode(pc.mode + {WRITER}, kind, env), env))
  {
    var p := Does(kind, writers, pc, Told(pc.at, env)).0;
    if p.at == GetUserMnt {
      var q := Does(kind, writers, p, Told(p.at, env)).0;
      if q.at == RunChecks {
        AloneFromChecks(kind, writers, q, env, 1);
      } else {
        AloneFromPut(kind, writers, q, env, 1);
      }
    } else {
      AloneFromPut(kind, writers, p, env, 2);
    }
  }

  /** A truncation that nothing disturbs gets to its work under exactly the conditions of vfs_truncate. */
  lemma TruncateAlone(kind: Kind, writers: int, want: Answer, access: Answer)
    ensures var p := Does(kind, writers, Pc(WantWrite, {}, false), want);
            && (p.0.at == TruncateAccess <==> want.ok) && (p.0.at == Ended <==> !want.ok)
            && (want.ok ==>
                  var q := Does(kind, writers, p.0, access);
                  q.0.at == if access.ok && 0 <= writers then Truncate else DropWrite)
  {
  }

  /** Step after step, an open that nothing disturbs does what do_dentry_open does as a whole. */
  lemma OpenAlone(kind: Kind, writers: int, mode: set<Mode>, oPath: bool, env: Env)
    ensures var r := Alone(kind, writers, Pc(GetPath, mode, oPath), env, 5);
            && (r.at == Open <==> oPath || MayOpen(mode, kind, writers, env))
            && (r.at == Open ==> r.mode == if oPath then {PATH, OPENED} else OpenedMode(mode, kind, env))
  {
    var p := Does(kind, writers, Pc(GetPath, mode, oPath), Told(GetPath, env)).0;
    var q := Does(kind, writers, p, Told(GetAccess, env)).0;
    assert Alone(kind, writers, Pc(GetPath, mode, oPath), env, 5) == Alone(kind, writers, q, env, 3);
    match q.at
    case RunChecks =>
      AloneFromChecks(kind, writers, q, env, 3);
      assert mode + {} == mode;
    case GetMnt => AloneFromMnt(kind, writers, q, env);
    case PutPath => AloneFromPut(kind, writers, q, env, 3);
    case Open =>
  }
}
