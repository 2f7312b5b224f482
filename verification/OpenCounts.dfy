/**
 Reference and writer counts on the open path of fs/open.c. Opening a file takes a path reference, a read
 count or up to three write counts; every exit must leave them in step with the file's mode bits.
 */
module OpenCounts {
  import opened Errno

  datatype Mode = READ | WRITE | WRITER | PATH | OPENED | BACKING | ATOMIC_POS | LSEEK | PREAD | PWRITE
                | CAN_READ | CAN_WRITE | CAN_ODIRECT

  datatype Kind = Directory | Regular | SpecialFile | Symlink

  class Inode {
    var readCount: int
    var writeCount: int   // negative while writing is denied
    const kind: Kind
    const append: bool

    constructor (kind: Kind, append: bool)
      ensures readCount == 0 && writeCount == 0 && this.kind == kind && this.append == append
    {
      readCount, writeCount, this.kind, this.append := 0, 0, kind, append;
    }

    /** get_write_access */
    method GetWriteAccess() returns (error: int)
      modifies this
      ensures error == if old(writeCount) < 0 then -ETXTBSY else 0
      ensures readCount == old(readCount) && writeCount == old(writeCount) + if error == 0 then 1 else 0
    {
      if writeCount < 0 {
        return -ETXTBSY;
      }
      writeCount := writeCount + 1;
      return 0;
    }
  }

  class Mount {
    var writers: int

    constructor ()
      ensures writers == 0
    {
      writers := 0;
    }

    /** mnt_get_write_access; `refusal` is its error, 0 if the mount is writable. */
    method GetWriteAccess(refusal: int) returns (error: int)
      modifies this
      ensures error == refusal && writers == old(writers) + if error == 0 then 1 else 0
    {
      if refusal == 0 {
        writers := writers + 1;
      }
      error := refusal;
    }
  }

  class Path {
    var refs: int
    const mnt: Mount

    constructor (mnt: Mount)
      ensures refs == 1 && this.mnt == mnt
    {
      refs, this.mnt := 1, mnt;
    }
  }

  /** What the rest of the kernel answers during one open. `cleared` are the mode bits ->open() takes away. */
  datatype Env = Env(mntRefusal: int, userMntRefusal: int, hasFops: bool, security: int, lease: int, open: int,
                     cleared: set<Mode>, canRead: bool, canWrite: bool, hasLlseek: bool, hasDirectIo: bool)

  ghost predicate EnvOk(env: Env) {
    && env.mntRefusal <= 0 && env.userMntRefusal <= 0 && env.security <= 0 && env.lease <= 0
    && env.cleared !! {READ, WRITE, WRITER, BACKING, OPENED}
  }

  // ---------------------------------------------------------------------------------------------
  // Which counts go with which mode

  function Reads(mode: set<Mode>): int {
    if READ in mode && WRITE !in mode then 1 else 0
  }

  function Writes(mode: set<Mode>): int {
    if WRITER in mode then 1 else 0
  }

  /** A backing file counts on its own mount and on that of the path the user sees. */
  ghost function MountWrites(mode: set<Mode>, mnt: Mount, userMnt: Mount, m: Mount): int {
    if WRITER !in mode then 0
    else (if m == mnt then 1 else 0) + (if BACKING in mode && m == userMnt then 1 else 0)
  }

  /** The counts that a file of this mode needs can be had. */
  predicate MayCount(mode: set<Mode>, kind: Kind, writeCount: int, env: Env) {
    WRITE in mode && kind != SpecialFile ==>
      0 <= writeCount && env.mntRefusal == 0 && (BACKING in mode ==> env.userMntRefusal == 0)
  }

  predicate MayOpen(mode: set<Mode>, kind: Kind, writeCount: int, env: Env) {
    MayCount(mode, kind, writeCount, env) && env.hasFops && env.security == 0 && env.lease == 0 && env.open == 0
  }

  /** The refusal that taking the counts meets first. */
  function CountError(mode: set<Mode>, kind: Kind, writeCount: int, env: Env): int {
    if WRITE !in mode || kind == SpecialFile then 0
    else if writeCount < 0 then -ETXTBSY
    else if env.mntRefusal != 0 then env.mntRefusal
    else if BACKING in mode then env.userMntRefusal
    else 0
  }

  /** The refusal that the checks meet first; a driver's positive answer is not passed on. */
  function CheckError(env: Env): int {
    if !env.hasFops then -ENODEV
    else if env.security != 0 then env.security
    else if env.lease != 0 then env.lease
    else if env.open > 0 then -EINVAL
    else env.open
  }

  function CheckedMode(mode: set<Mode>, kind: Kind, env: Env): set<Mode> {
    mode + (if kind == Regular || kind == Directory then {ATOMIC_POS} else {}) + {LSEEK, PREAD, PWRITE} - env.cleared
  }

  function FinishedMode(mode: set<Mode>, env: Env): set<Mode> {
    mode + {OPENED}
    + (if READ in mode && env.canRead then {CAN_READ} else {})
    + (if WRITE in mode && env.canWrite then {CAN_WRITE} else {})
    + (if env.hasDirectIo then {CAN_ODIRECT} else {})
    - (if env.hasLlseek then {} else {LSEEK})
  }

  /** The mode of a file that was opened, from the mode it was asked to have. */
  function OpenedMode(mode: set<Mode>, kind: Kind, env: Env): set<Mode> {
    var counted := mode + if WRITE in mode && kind != SpecialFile then {WRITER} else {};
    FinishedMode(CheckedMode(counted, kind, env), env)
  }

  lemma FinishedBits(mode: set<Mode>, env: Env)
    requires CAN_READ !in mode && CAN_WRITE !in mode && CAN_ODIRECT !in mode
    ensures var r := FinishedMode(mode, env);
            && OPENED in r && (forall b :: b in {READ, WRITE, BACKING, WRITER, PATH, ATOMIC_POS, PREAD, PWRITE} ==> (b in r <==> b in mode))
            && (CAN_READ in r <==> READ in mode && env.canRead) && (CAN_WRITE in r <==> WRITE in mode && env.canWrite)
            && (CAN_ODIRECT in r <==> env.hasDirectIo) && (LSEEK in r <==> LSEEK in mode && env.hasLlseek)
  {
  }

  /** Both modes say the same about which counts are held. */
  ghost predicate SameHolds(mode: set<Mode>, mode': set<Mode>) {
    Reads(mode) == Reads(mode') && Writes(mode) == Writes(mode') && (BACKING in mode <==> BACKING in mode')
  }

  lemma HoldsKept(mode: set<Mode>, kind: Kind, env: Env)
    requires EnvOk(env)
    ensures SameHolds(FinishedMode(CheckedMode(mode, kind, env), env), mode)
  {
  }

  lemma CheckedBits(mode: set<Mode>, kind: Kind, env: Env)
    requires mode <= {READ, WRITE, BACKING, WRITER} && EnvOk(env)
    ensures var r := CheckedMode(mode, kind, env);
            && (forall b :: b in {READ, WRITE, BACKING, WRITER} ==> (b in r <==> b in mode))
            && PATH !in r && CAN_READ !in r && CAN_WRITE !in r && CAN_ODIRECT !in r
            && (forall b :: b in {LSEEK, PREAD, PWRITE} ==> (b in r <==> b !in env.cleared))
            && (ATOMIC_POS in r <==> ATOMIC_POS !in env.cleared && (kind == Regular || kind == Directory))
  {
  }

  lemma OpenedModeBits(mode: set<Mode>, kind: Kind, env: Env)
    requires mode <= {READ, WRITE, BACKING} && EnvOk(env)
    ensures var r := OpenedMode(mode, kind, env);
            && OPENED in r && PATH !in r
            && (forall b :: b in {READ, WRITE, BACKING} ==> (b in r <==> b in mode))
            && (WRITER in r <==> WRITE in mode && kind != SpecialFile)
            && (CAN_READ in r <==> READ in mode && env.canRead)
            && (CAN_WRITE in r <==> WRITE in mode && env.canWrite)
            && (LSEEK in r <==> LSEEK !in env.cleared && env.hasLlseek)
            && (CAN_ODIRECT in r <==> env.hasDirectIo)
            && (PREAD in r <==> PREAD !in env.cleared) && (PWRITE in r <==> PWRITE !in env.cleared)
            && (ATOMIC_POS in r <==> ATOMIC_POS !in env.cleared && (kind == Regular || kind == Directory))
  {
    var counted := mode + if WRITE in mode && kind != SpecialFile then {WRITER} else {};
    CheckedBits(counted, kind, env);
    FinishedBits(CheckedMode(counted, kind, env), env);
  }

  class File {
    var mode: set<Mode>
    const oPath: bool
    const oDirect: bool
    var path: Path?
    var inode: Inode?
    const userMnt: Mount

    constructor (mode: set<Mode>, oPath: bool, oDirect: bool, userMnt: Mount)
      ensures this.mode == mode && this.oPath == oPath && this.oDirect == oDirect && path == null && inode == null
      ensures this.userMnt == userMnt
    {
      this.mode, this.oPath, this.oDirect, this.userMnt := mode, oPath, oDirect, userMnt;
      path, inode := null, null;
    }

    /** As alloc_empty_file leaves it: no bit that opening sets. */
    ghost predicate New()
      reads this
    {
      mode <= {READ, WRITE, BACKING} && inode == null
    }

    /** file_get_write_access: all the write counts, or none. */
    method GetWriteAccess(env: Env) returns (error: int)
      requires inode != null && path != null && EnvOk(env)
      modifies inode, path.mnt, userMnt
      ensures error <= 0
      ensures error == if old(inode.writeCount) < 0 then -ETXTBSY else if env.mntRefusal != 0 then env.mntRefusal
                       else if BACKING in mode then env.userMntRefusal else 0
      ensures error == 0 <==> && 0 <= old(inode.writeCount) && env.mntRefusal == 0
                              && (BACKING in mode ==> env.userMntRefusal == 0)
      ensures inode.readCount == old(inode.readCount)
      ensures error != 0 ==> inode.writeCount == old(inode.writeCount) && path.mnt.writers == old(path.mnt.writers)
                             && userMnt.writers == old(userMnt.writers)
      ensures error == 0 ==> && inode.writeCount == old(inode.writeCount) + 1
                             && path.mnt.writers == old(path.mnt.writers) + MountWrites(mode + {WRITER}, path.mnt, userMnt, path.mnt)
                             && userMnt.writers == old(userMnt.writers) + MountWrites(mode + {WRITER}, path.mnt, userMnt, userMnt)
    {
      error := inode.GetWriteAccess();
      if error != 0 {
        return;
      }
      error := path.mnt.GetWriteAccess(env.mntRefusal);
      if error != 0 {
        inode.writeCount := inode.writeCount - 1;
        return;
      }
      if BACKING in mode {
        error := userMnt.GetWriteAccess(env.userMntRefusal);
        if error != 0 {
          path.mnt.writers := path.mnt.writers - 1;
          inode.writeCount := inode.writeCount - 1;
          return;
        }
      }
      return 0;
    }

    /** put_file_access: gives back what the mode says is held. */
    method PutAccess()
      requires inode != null && path != null
      modifies inode, path.mnt, userMnt
      ensures inode.readCount == old(inode.readCount) - Reads(mode)
      ensures inode.writeCount == old(inode.writeCount) - (if Reads(mode) == 1 then 0 else Writes(mode))
      ensures Reads(mode) == 0 ==>
                && path.mnt.writers == old(path.mnt.writers) - MountWrites(mode, path.mnt, userMnt, path.mnt)
                && userMnt.writers == old(userMnt.writers) - MountWrites(mode, path.mnt, userMnt, userMnt)
      ensures Reads(mode) == 1 ==> path.mnt.writers == old(path.mnt.writers) && userMnt.writers == old(userMnt.writers)
    {
      if READ in mode && WRITE !in mode {
        inode.readCount := inode.readCount - 1;
      } else if WRITER in mode {
        if BACKING in mode {
          userMnt.writers := userMnt.writers - 1;
        }
        path.mnt.writers := path.mnt.writers - 1;
        inode.writeCount := inode.writeCount - 1;
      }
    }

    /**
     do_dentry_open on a new file. FMODE_OPENED is set exactly when the path reference and the counts are held,
     and the mode alone says which; the one failure that keeps them is O_DIRECT without support.
     */
    method DoDentryOpen(node: Inode, env: Env) returns (error: int)
      requires New() && path != null && EnvOk(env)
      modifies this, path, node, path.mnt, userMnt
      ensures error <= 0
      ensures OPENED !in mode ==> var e := CountError(old(mode), node.kind, old(node.writeCount), env); error == if e != 0 then e else CheckError(env)
      ensures OPENED in mode ==> error == if !oPath && oDirect && CAN_ODIRECT !in mode then -EINVAL else 0
      ensures OPENED in mode <==> oPath || MayOpen(old(mode), node.kind, old(node.writeCount), env)
      ensures error == 0 <==> OPENED in mode && (oPath || !oDirect || CAN_ODIRECT in mode)
      ensures OPENED in mode ==> path == old(path) && inode == node
      ensures OPENED !in mode ==> path == null && inode == null
      ensures var p := old(path);
              var held := if OPENED in mode then mode else {};
              && p.refs == old(p.refs) + (if OPENED in mode then 1 else 0)
              && node.readCount == old(node.readCount) + Reads(held)
              && node.writeCount == old(node.writeCount) + Writes(held)
              && p.mnt.writers == old(p.mnt.writers) + MountWrites(held, p.mnt, userMnt, p.mnt)
              && userMnt.writers == old(userMnt.writers) + MountWrites(held, p.mnt, userMnt, userMnt)
      ensures OPENED in mode ==> mode == if oPath then {PATH, OPENED} else OpenedMode(old(mode), node.kind, env)
    {
      path.refs := path.refs + 1;
      inode := node;
      if oPath {
        mode := {PATH, OPENED};
        return 0;
      }
      var cleanup;
      error, cleanup := OpenCounted(node, env);
      if cleanup {
        path.refs := path.refs - 1;
        path, inode := null, null;
      }
    }

    /** do_dentry_open without its path reference: take the counts, check, and on failure give the counts back. */
    method OpenCounted(node: Inode, env: Env) returns (error: int, cleanup: bool)
      requires mode <= {READ, WRITE, BACKING} && inode == node && path != null && EnvOk(env)
      modifies this`mode, node, path.mnt, userMnt
      ensures error <= 0 && (cleanup <==> OPENED !in mode)
      ensures OPENED !in mode ==> var e := CountError(old(mode), node.kind, old(node.writeCount), env); error == if e != 0 then e else CheckError(env)
      ensures OPENED in mode ==> error == if oDirect && CAN_ODIRECT !in mode then -EINVAL else 0
      ensures OPENED in mode <==> MayOpen(old(mode), node.kind, old(node.writeCount), env)
      ensures error == 0 <==> OPENED in mode && (!oDirect || CAN_ODIRECT in mode)
      ensures OPENED in mode ==> mode == OpenedMode(old(mode), node.kind, env)
      ensures var held := if OPENED in mode then mode else {};
              && node.readCount == old(node.readCount) + Reads(held)
              && node.writeCount == old(node.writeCount) + Writes(held)
              && path.mnt.writers == old(path.mnt.writers) + MountWrites(held, path.mnt, userMnt, path.mnt)
              && userMnt.writers == old(userMnt.writers) + MountWrites(held, path.mnt, userMnt, userMnt)
    {
      error := TakeAccess(node, env);
      if error != 0 {
        return error, true;
      }
      error, cleanup := CheckAndFinish(node, env);
    }

    /** What follows once the counts are taken: they stay with a file that gets opened, and are given back otherwise. */
    method CheckAndFinish(node: Inode, env: Env) returns (error: int, cleanup: bool)
      requires inode == node && path != null && EnvOk(env) && (WRITER in mode ==> WRITE in mode) && OPENED !in mode
      modifies this`mode, node, path.mnt, userMnt
      ensures error <= 0 && (cleanup <==> OPENED !in mode) && (OPENED !in mode ==> error == CheckError(env))
      ensures OPENED in mode ==> error == if oDirect && CAN_ODIRECT !in mode then -EINVAL else 0
      ensures OPENED in mode <==> env.hasFops && env.security == 0 && env.lease == 0 && env.open == 0
      ensures error == 0 <==> OPENED in mode && (!oDirect || CAN_ODIRECT in mode)
      ensures OPENED in mode ==> mode == FinishedMode(CheckedMode(old(mode), node.kind, env), env) && SameHolds(mode, old(mode))
      ensures var given := if OPENED in mode then {} else old(mode);
              && node.readCount == old(node.readCount) - Reads(given)
              && node.writeCount == old(node.writeCount) - Writes(given)
              && path.mnt.writers == old(path.mnt.writers) - MountWrites(given, path.mnt, userMnt, path.mnt)
              && userMnt.writers == old(userMnt.writers) - MountWrites(given, path.mnt, userMnt, userMnt)
    {
      error := CheckOrPut(node, env);
      if error != 0 {
        return error, true;
      }
      HoldsKept(old(mode), node.kind, env);
      error := FinishMode(env);
      cleanup := false;
    }

    /** The checks, and the way back through cleanup_all when one fails: exactly the counts that were taken are given back. */
    method CheckOrPut(node: Inode, env: Env) returns (error: int)
      requires inode == node && path != null && EnvOk(env) && (WRITER in mode ==> WRITE in mode) && OPENED !in mode
      modifies this`mode, node, path.mnt, userMnt
      ensures error <= 0 && OPENED !in mode && error == CheckError(env)
      ensures error == 0 <==> env.hasFops && env.security == 0 && env.lease == 0 && env.open == 0
      ensures error == 0 ==> mode == CheckedMode(old(mode), node.kind, env)
      ensures var given := if error == 0 then {} else old(mode);
              && node.readCount == old(node.readCount) - Reads(given)
              && node.writeCount == old(node.writeCount) - Writes(given)
              && path.mnt.writers == old(path.mnt.writers) - MountWrites(given, path.mnt, userMnt, path.mnt)
              && userMnt.writers == old(userMnt.writers) - MountWrites(given, path.mnt, userMnt, userMnt)
    {
      error := Check(node, env);
      if error != 0 {
        if error > 0 {
          error := -EINVAL;
        }
        PutAccess();
      }
    }

    /** The steps of do_dentry_open between taking the counts and FMODE_OPENED. */
    method Check(node: Inode, env: Env) returns (error: int)
      requires EnvOk(env)
      modifies this`mode
      ensures (if error > 0 then -EINVAL else error) == CheckError(env)
      ensures error == 0 <==> env.hasFops && env.security == 0 && env.lease == 0 && env.open == 0
      ensures error == 0 ==> mode == CheckedMode(old(mode), node.kind, env)
      ensures forall b :: b in {READ, WRITE, WRITER, BACKING, OPENED} ==> (b in mode <==> b in old(mode))
    {
      if node.kind == Regular || node.kind == Directory {
        mode := mode + {ATOMIC_POS};
      }
      if !env.hasFops {
        return -ENODEV;
      }
      if env.security != 0 {
        return env.security;
      }
      if env.lease != 0 {
        return env.lease;
      }
      mode := mode + {LSEEK, PREAD, PWRITE};
      mode := mode - env.cleared;  // the callback
      return env.open;
    }

    /** The step of do_dentry_open that takes the read or write counts. */
    method TakeAccess(node: Inode, env: Env) returns (error: int)
      requires mode <= {READ, WRITE, BACKING} && inode == node && path != null && EnvOk(env)
      modifies this`mode, node, path.mnt, userMnt
      ensures error <= 0 && error == CountError(old(mode), node.kind, old(node.writeCount), env)
      ensures error == 0 <==> MayCount(old(mode), node.kind, old(node.writeCount), env)
      ensures mode == old(mode) + if error == 0 && WRITE in old(mode) && node.kind != SpecialFile then {WRITER} else {}
      ensures var held := if error == 0 then mode else {};
              && node.readCount == old(node.readCount) + Reads(held)
              && node.writeCount == old(node.writeCount) + Writes(held)
              && path.mnt.writers == old(path.mnt.writers) + MountWrites(held, path.mnt, userMnt, path.mnt)
              && userMnt.writers == old(userMnt.writers) + MountWrites(held, path.mnt, userMnt, userMnt)
    {
      error := 0;
      if READ in mode && WRITE !in mode {
        node.readCount := node.readCount + 1;
      } else if WRITE in mode && node.kind != SpecialFile {
        error := GetWriteAccess(env);
        if error != 0 {
          return;
        }
        mode := mode + {WRITER};
      }
    }

    /** The tail of do_dentry_open: nothing here can give the counts back. */
    method FinishMode(env: Env) returns (error: int)
      modifies this`mode
      ensures mode == FinishedMode(old(mode), env)
      ensures error == if oDirect && CAN_ODIRECT !in mode then -EINVAL else 0
    {
      mode := mode + {OPENED};
      if READ in mode && env.canRead {
        mode := mode + {CAN_READ};
      }
      if WRITE in mode && env.canWrite {
        mode := mode + {CAN_WRITE};
      }
      if LSEEK in mode && !env.hasLlseek {
        mode := mode - {LSEEK};
      }
      if env.hasDirectIo {
        mode := mode + {CAN_ODIRECT};
      }
      if oDirect && CAN_ODIRECT !in mode {
        return -EINVAL;
      }
      return 0;
    }

    /** The part of __fput that releases what an opened file holds. */
    method Fput()
      requires OPENED in mode ==> path != null && inode != null && (WRITER in mode ==> WRITE in mode)
      modifies this, path, inode, (if path == null then {} else {path.mnt}), userMnt
      ensures path == old(path) && inode == old(inode) && mode == old(mode)
      ensures OPENED in mode ==>
                && path.refs == old(path.refs) - 1
                && inode.readCount == old(inode.readCount) - Reads(mode)
                && inode.writeCount == old(inode.writeCount) - Writes(mode)
                && path.mnt.writers == old(path.mnt.writers) - MountWrites(mode, path.mnt, userMnt, path.mnt)
                && userMnt.writers == old(userMnt.writers) - MountWrites(mode, path.mnt, userMnt, userMnt)
      ensures OPENED !in mode ==> userMnt.writers == old(userMnt.writers)
                                  && (path != null ==> path.refs == old(path.refs) && path.mnt.writers == old(path.mnt.writers))
                                  && (inode != null ==> inode.readCount == old(inode.readCount) && inode.writeCount == old(inode.writeCount))
    {
      if OPENED !in mode {
        return;
      }
      PutAccess();
      path.refs := path.refs - 1;
    }
  }

  /** The counters of one inode, path and pair of mounts. */
  datatype Counts = Counts(refs: int, readers: int, writers: int, mnt: int, userMnt: int)

  ghost function CountsOf(path: Path, node: Inode, userMnt: Mount): Counts
    reads path, node, path.mnt, userMnt
  {
    Counts(path.refs, node.readCount, node.writeCount, path.mnt.writers, userMnt.writers)
  }

  ghost function WithFile(c: Counts, mode: set<Mode>, mnt: Mount, userMnt: Mount): Counts {
    Counts(c.refs + 1, c.readers + Reads(mode), c.writers + Writes(mode),
           c.mnt + MountWrites(mode, mnt, userMnt, mnt), c.userMnt + MountWrites(mode, mnt, userMnt, userMnt))
  }

  /** dentry_open: a failed open, the late O_DIRECT failure included, leaves every counter as it was. */
  method DentryOpen(path: Path, node: Inode, mode: set<Mode>, oPath: bool, oDirect: bool, userMnt: Mount, env: Env)
    returns (f: File?, error: int)
    requires mode <= {READ, WRITE, BACKING} && EnvOk(env)
    modifies path, node, path.mnt, userMnt
    ensures f != null <==> error == 0
    ensures error == 0 <==> oPath || (MayOpen(mode, node.kind, old(node.writeCount), env) && (oDirect ==> env.hasDirectIo))
    ensures f != null ==> fresh(f) && f.path == path && f.inode == node && f.userMnt == userMnt && OPENED in f.mode
                          && (WRITER in f.mode ==> WRITE in f.mode)
                          && f.mode == if oPath then {PATH, OPENED} else OpenedMode(mode, node.kind, env)
    ensures CountsOf(path, node, userMnt) == if f == null then old(CountsOf(path, node, userMnt))
                                             else WithFile(old(CountsOf(path, node, userMnt)), f.mode, path.mnt, userMnt)
  {
    f := new File(mode, oPath, oDirect, userMnt);
    f.path := path;
    error := f.DoDentryOpen(node, env);
    OpenedModeBits(mode, node.kind, env);
    if error != 0 {
      f.Fput();
      f := null;
    }
  }

  /** Opening and closing a file gives back every count. */
  method OpenThenClose(path: Path, node: Inode, mode: set<Mode>, oPath: bool, oDirect: bool, userMnt: Mount, env: Env)
    requires mode <= {READ, WRITE, BACKING} && EnvOk(env)
    modifies path, node, path.mnt, userMnt
    ensures CountsOf(path, node, userMnt) == old(CountsOf(path, node, userMnt))
  {
    var f, _ := DentryOpen(path, node, mode, oPath, oDirect, userMnt, env);
    if f != null {
      f.Fput();
    }
  }

  /** Answers met by vfs_truncate on its way: mount, permission, lease, security hook, and the truncation itself. */
  datatype TruncateEnv = TruncateEnv(mntRefusal: int, permission: int, lease: int, security: int, change: int)

  /** Every exit of vfs_truncate restores the mount's and the inode's write counts. */
  method VfsTruncate(path: Path, node: Inode, length: int, env: TruncateEnv) returns (error: int)
    modifies path.mnt, node
    ensures path.mnt.writers == old(path.mnt.writers)
    ensures node.writeCount == old(node.writeCount) && node.readCount == old(node.readCount)
    ensures error == 0 <==> && node.kind == Regular && !node.append && 0 <= node.writeCount && 0 <= length
                            && env.mntRefusal == 0 && env.permission == 0 && env.lease == 0 && env.security == 0 && env.change == 0
    ensures node.kind != Regular ==> error == if node.kind == Directory then -EISDIR else -EINVAL
    ensures node.kind == Regular ==>
              error == if env.mntRefusal != 0 then env.mntRefusal
                       else if env.permission != 0 then env.permission
                       else if node.append then -EPERM
                       else if node.writeCount < 0 then -ETXTBSY
                       else if env.lease != 0 then env.lease
                       else if env.security != 0 then env.security
                       else if length < 0 then -EINVAL
                       else env.change
  {
    if node.kind == Directory {
      return -EISDIR;
    }
    if node.kind != Regular {
      return -EINVAL;
    }
    error := path.mnt.GetWriteAccess(env.mntRefusal);
    if error != 0 {
      return;
    }
    error := env.permission;
    if error == 0 {
      error := -EPERM;
      if !node.append {
        error := node.GetWriteAccess();
        if error == 0 {
          error := env.lease;
          if error == 0 {
            error := env.security;
            if error == 0 {
              error := if length < 0 then -EINVAL else env.change;
            }
          }
          node.writeCount := node.writeCount - 1;
        }
      }
    }
    path.mnt.writers := path.mnt.writers - 1;
  }
}
