/**
 Flag normalisation of fs/open.c: build_open_how, which serves the older open calls, and build_open_flags, which
 checks a request and turns it into lookup instructions. Flags are sets of distinct bits; O_RDONLY is no bit.
 */
module OpenFlags {
  import opened Errno

  datatype Flag = WRONLY | RDWR | CREAT | EXCL | NOCTTY | TRUNC | APPEND | NONBLOCK | DSYNC | SYNC_BIT | FASYNC | DIRECT
                | LARGEFILE | DIRECTORY | NOFOLLOW | NOATIME | CLOEXEC | PATH | TMPFILE_BIT
                | NONOTIFY | UnknownFlag(n: nat)

  datatype ModeBit = Permission(n: nat) | RegularFile | UnknownMode(n: nat)

  datatype Resolve = NoXdev | NoMagiclinks | NoSymlinks | Beneath | InRoot | Cached | UnknownResolve(n: nat)

  datatype Access = MAY_READ | MAY_WRITE | MAY_APPEND

  datatype Intent = LOOKUP_OPEN | LOOKUP_CREATE | LOOKUP_EXCL

  datatype Lookup = LOOKUP_DIRECTORY | LOOKUP_FOLLOW | LOOKUP_NO_XDEV | LOOKUP_NO_MAGICLINKS | LOOKUP_NO_SYMLINKS
                  | LOOKUP_BENEATH | LOOKUP_IN_ROOT | LOOKUP_CACHED

  datatype How = How(flags: set<Flag>, mode: set<ModeBit>, resolve: set<Resolve>)

  datatype Op = Op(openFlag: set<Flag>, mode: set<ModeBit>, access: set<Access>, intent: set<Intent>, lookup: set<Lookup>)

  datatype Result = Ok(op: Op) | Err(err: int)

  function ValidFlags(flags: set<Flag>): set<Flag> {
    set f | f in flags && f != NONOTIFY && !f.UnknownFlag?
  }

  const PATH_FLAGS: set<Flag> := {DIRECTORY, NOFOLLOW, PATH, CLOEXEC}

  predicate WillCreate(flags: set<Flag>) {
    CREAT in flags || TMPFILE_BIT in flags
  }

  function Permissions(mode: set<ModeBit>): set<ModeBit> {
    set m | m in mode && m.Permission?
  }

  /** ACC_MODE: 0 is read, 1 is write, 2 and 3 are both. */
  function AccMode(flags: set<Flag>): set<Access> {
    if RDWR in flags then {MAY_READ, MAY_WRITE} else if WRONLY in flags then {MAY_WRITE} else {MAY_READ}
  }

  function BuildOpenHow(flags: set<Flag>, mode: set<ModeBit>): How {
    var valid := ValidFlags(flags);
    var kept := if PATH in valid then valid * PATH_FLAGS else valid;
    How(kept, if WillCreate(kept) then Permissions(mode) else {}, {})
  }

  predicate Checks(flags: set<Flag>, acc: set<Access>, a: Access) {
    || (PATH !in flags && a in acc)
    || (a == MAY_WRITE && TRUNC in flags)
    || (a == MAY_APPEND && APPEND in flags)
  }

  predicate Intends(flags: set<Flag>, i: Intent) {
    match i
    case LOOKUP_OPEN => PATH !in flags
    case LOOKUP_CREATE => CREAT in flags
    case LOOKUP_EXCL => CREAT in flags && EXCL in flags
  }

  /** Bit by bit, when a lookup flag is raised; exclusive creation also raises O_NOFOLLOW. */
  predicate Raises(flags: set<Flag>, resolve: set<Resolve>, b: Lookup) {
    match b
    case LOOKUP_DIRECTORY => DIRECTORY in flags
    case LOOKUP_FOLLOW => NOFOLLOW !in flags && !(CREAT in flags && EXCL in flags)
    case LOOKUP_NO_XDEV => NoXdev in resolve
    case LOOKUP_NO_MAGICLINKS => NoMagiclinks in resolve
    case LOOKUP_NO_SYMLINKS => NoSymlinks in resolve
    case LOOKUP_BENEATH => Beneath in resolve
    case LOOKUP_IN_ROOT => InRoot in resolve
    case LOOKUP_CACHED => Cached in resolve
  }

  /** What the flags ask of the lookup, once they are accepted. */
  function Instructions(flags: set<Flag>, mode: set<ModeBit>, acc: set<Access>, resolve: set<Resolve>): Op {
    Op(if SYNC_BIT in flags then flags + {DSYNC} else flags,
       if WillCreate(flags) then mode + {RegularFile} else {},
       set a: Access | Checks(flags, acc, a),
       set i: Intent | Intends(flags, i),
       set b: Lookup | Raises(flags, resolve, b))
  }

  function BuildOpenFlags(how: How): Result {
    var acc := AccMode(how.flags);
    var flags := how.flags - {NONOTIFY, CLOEXEC};
    if flags != ValidFlags(flags) then Err(-EINVAL)
    else if exists r :: r in how.resolve && r.UnknownResolve? then Err(-EINVAL)
    else if Beneath in how.resolve && InRoot in how.resolve then Err(-EINVAL)
    else if WillCreate(flags) && how.mode != Permissions(how.mode) then Err(-EINVAL)
    else if !WillCreate(flags) && how.mode != {} then Err(-EINVAL)
    else if DIRECTORY in flags && CREAT in flags then Err(-EINVAL)
    else if TMPFILE_BIT in flags && (DIRECTORY !in flags || MAY_WRITE !in acc) then Err(-EINVAL)
    else if PATH in flags && !(flags <= PATH_FLAGS) then Err(-EINVAL)
    else if Cached in how.resolve && (TRUNC in flags || WillCreate(flags)) then Err(-EAGAIN)
    else Ok(Instructions(flags, how.mode, acc, how.resolve))
  }

  /** The flag combinations that no open accepts. */
  predicate Contradictory(flags: set<Flag>) {
    || (DIRECTORY in flags && CREAT in flags)
    || (TMPFILE_BIT in flags && (DIRECTORY !in flags || (WRONLY !in flags && RDWR !in flags)))
  }

  /** What openat2 accepts. */
  ghost predicate Acceptable(how: How) {
    && (forall f <- how.flags :: !f.UnknownFlag?) && (forall r <- how.resolve :: !r.UnknownResolve?)
    && !(Beneath in how.resolve && InRoot in how.resolve)
    && (forall m <- how.mode :: m.Permission? && WillCreate(how.flags))
    && !Contradictory(how.flags)
    && (PATH in how.flags ==> how.flags <= PATH_FLAGS + {NONOTIFY})
    && (Cached in how.resolve ==> TRUNC !in how.flags && !WillCreate(how.flags))
  }

  lemma BuildSucceedsExactly(how: How)
    ensures BuildOpenFlags(how).Ok? <==> Acceptable(how)
    ensures BuildOpenFlags(how).Err? ==> BuildOpenFlags(how).err == -EINVAL || BuildOpenFlags(how).err == -EAGAIN
    ensures BuildOpenFlags(how) == Err(-EAGAIN) <==>
              Cached in how.resolve && !Acceptable(how) && Acceptable(how.(resolve := how.resolve - {Cached}))
  {
    var flags := how.flags - {NONOTIFY, CLOEXEC};
    assert flags == ValidFlags(flags) <==> forall f <- how.flags :: !f.UnknownFlag? by {
      if flags == ValidFlags(flags) {
        forall f | f in how.flags
          ensures !f.UnknownFlag?
        {
          assert f in flags ==> f in ValidFlags(flags);
        }
      }
    }
    assert how.mode == Permissions(how.mode) <==> forall m <- how.mode :: m.Permission? by {
      if how.mode == Permissions(how.mode) {
        forall m | m in how.mode
          ensures m.Permission?
        {
          assert m in Permissions(how.mode);
        }
      }
    }
    assert WillCreate(flags) <==> WillCreate(how.flags);
    assert PATH in flags ==> (flags <= PATH_FLAGS <==> how.flags <= PATH_FLAGS + {NONOTIFY});
  }

  /** The older calls fail exactly on contradictory flags, and never under O_PATH. */
  lemma OldOpenFailsExactly(flags: set<Flag>, mode: set<ModeBit>)
    ensures BuildOpenFlags(BuildOpenHow(flags, mode)).Err? <==> PATH !in flags && Contradictory(flags)
  {
    BuildSucceedsExactly(BuildOpenHow(flags, mode));
  }

  lemma BuildOpenHowIdempotent(flags: set<Flag>, mode: set<ModeBit>)
    ensures var how := BuildOpenHow(flags, mode); BuildOpenHow(how.flags, how.mode) == how
  {
    var how := BuildOpenHow(flags, mode);
    assert ValidFlags(how.flags) == how.flags;
    assert PATH in how.flags ==> how.flags * PATH_FLAGS == how.flags;
    assert Permissions(how.mode) == how.mode;
  }

  /** What later stages of an open rely on. */
  lemma OpConsistent(how: How)
    requires BuildOpenFlags(how).Ok?
    ensures var op := BuildOpenFlags(how).op;
            && (SYNC_BIT in op.openFlag ==> DSYNC in op.openFlag)
            && (PATH in op.openFlag ==> op.access == {} && op.intent == {} && op.mode == {})
            && (PATH !in op.openFlag ==> LOOKUP_OPEN in op.intent && op.access != {})
            && (LOOKUP_EXCL in op.intent ==> LOOKUP_CREATE in op.intent && LOOKUP_FOLLOW !in op.lookup)
            && (TRUNC in op.openFlag ==> MAY_WRITE in op.access)
            && (TMPFILE_BIT in op.openFlag ==>
                  MAY_WRITE in op.access && LOOKUP_DIRECTORY in op.lookup && LOOKUP_CREATE !in op.intent)
            && CLOEXEC !in op.openFlag && NONOTIFY !in op.openFlag
  {
    var acc, flags := AccMode(how.flags), how.flags - {NONOTIFY, CLOEXEC};
    var op := BuildOpenFlags(how).op;
    assert op == Instructions(flags, how.mode, acc, how.resolve);
    if PATH in flags {
      assert TRUNC !in PATH_FLAGS && APPEND !in PATH_FLAGS && CREAT !in PATH_FLAGS && TMPFILE_BIT !in PATH_FLAGS;
    } else {
      assert exists a :: a in acc && a in op.access by {
        assert MAY_READ in acc || MAY_WRITE in acc;
      }
    }
  }

  /** The access that is checked, and what is created, are what the caller's flags mean. */
  lemma AccessAsAsked(how: How)
    requires BuildOpenFlags(how).Ok? && PATH !in how.flags
    ensures var op := BuildOpenFlags(how).op;
            && (MAY_WRITE in op.access <==> WRONLY in how.flags || RDWR in how.flags || TRUNC in how.flags)
            && (MAY_READ in op.access <==> RDWR in how.flags || WRONLY !in how.flags)
            && (MAY_APPEND in op.access <==> APPEND in how.flags)
            && (LOOKUP_CREATE in op.intent <==> CREAT in how.flags)
            && (RegularFile in op.mode <==> WillCreate(how.flags))
            && (LOOKUP_FOLLOW in op.lookup <==> NOFOLLOW !in how.flags && LOOKUP_EXCL !in op.intent)
  {
    var acc, flags := AccMode(how.flags), how.flags - {NONOTIFY, CLOEXEC};
    assert BuildOpenFlags(how).op == Instructions(flags, how.mode, acc, how.resolve);
  }

  /** What is passed on to the open itself: every flag the caller gave but the two that end here, and O_DSYNC with O_SYNC. */
  lemma FlagsPassedOn(how: How, f: Flag)
    requires BuildOpenFlags(how).Ok?
    ensures f in BuildOpenFlags(how).op.openFlag <==>
              (f in how.flags && f != CLOEXEC && f != NONOTIFY) || (f == DSYNC && SYNC_BIT in how.flags)
  {
    var flags := how.flags - {NONOTIFY, CLOEXEC};
    assert BuildOpenFlags(how).op == Instructions(flags, how.mode, AccMode(how.flags), how.resolve);
  }

  /** A file is created with the permissions asked for, and as a regular file; without creation there is no mode. */
  lemma ModePassedOn(how: How, m: ModeBit)
    requires BuildOpenFlags(how).Ok?
    ensures m in BuildOpenFlags(how).op.mode <==>
              if m == RegularFile then CREAT in how.flags || TMPFILE_BIT in how.flags else m in how.mode
  {
    BuildSucceedsExactly(how);
    var flags := how.flags - {NONOTIFY, CLOEXEC};
    assert BuildOpenFlags(how).op == Instructions(flags, how.mode, AccMode(how.flags), how.resolve);
  }

  /** The rest of the lookup, told from the request, with and without O_PATH. */
  lemma LookupAsAsked(how: How)
    requires BuildOpenFlags(how).Ok?
    ensures var op := BuildOpenFlags(how).op;
            && (LOOKUP_DIRECTORY in op.lookup <==> DIRECTORY in how.flags)
            && (LOOKUP_FOLLOW in op.lookup <==> NOFOLLOW !in how.flags && !(CREAT in how.flags && EXCL in how.flags))
            && (LOOKUP_OPEN in op.intent <==> PATH !in how.flags)
            && (LOOKUP_CREATE in op.intent <==> CREAT in how.flags)
            && (LOOKUP_EXCL in op.intent <==> CREAT in how.flags && EXCL in how.flags)
  {
    var flags := how.flags - {NONOTIFY, CLOEXEC};
    assert BuildOpenFlags(how).op == Instructions(flags, how.mode, AccMode(how.flags), how.resolve);
  }

  /** What the older calls keep of a flag and of a mode bit; they restrict nothing. */
  lemma OldOpenKeeps(flags: set<Flag>, mode: set<ModeBit>, f: Flag, m: ModeBit)
    ensures var how := BuildOpenHow(flags, mode);
            && (f in how.flags <==> && f in flags && f != NONOTIFY && !f.UnknownFlag?
                                    && (PATH in flags ==> f == DIRECTORY || f == NOFOLLOW || f == PATH || f == CLOEXEC))
            && (m in how.mode <==> m in mode && m.Permission? && PATH !in flags && (CREAT in flags || TMPFILE_BIT in flags))
            && how.resolve == {}
  {
    var valid := ValidFlags(flags);
    assert PATH in valid <==> PATH in flags;
  }

  /** The lookup bit that stands for a restriction. */
  function BitOf(r: Resolve): Lookup
    requires !r.UnknownResolve?
  {
    match r
    case NoXdev => LOOKUP_NO_XDEV
    case NoMagiclinks => LOOKUP_NO_MAGICLINKS
    case NoSymlinks => LOOKUP_NO_SYMLINKS
    case Beneath => LOOKUP_BENEATH
    case InRoot => LOOKUP_IN_ROOT
    case Cached => LOOKUP_CACHED
  }

  /** Every requested restriction reaches the lookup as its own bit, and no restriction gets there unasked. */
  lemma RestrictionsKept(how: How)
    requires BuildOpenFlags(how).Ok?
    ensures forall r: Resolve :: !r.UnknownResolve? ==> (BitOf(r) in BuildOpenFlags(how).op.lookup <==> r in how.resolve)
    ensures forall r <- how.resolve :: !r.UnknownResolve?
  {
    var flags := how.flags - {NONOTIFY, CLOEXEC};
    assert BuildOpenFlags(how).op == Instructions(flags, how.mode, AccMode(how.flags), how.resolve);
  }
}
