/**
 The address-space layout that prctl(PR_SET_MM) edits: kernel/sys.c, with check_data_rlimit from
 include/linux/mm.h. Addresses are `unsigned long`; `Arch` carries the word size and address limits.
 */
module MmLayout {
  import opened Errno
  import opened Options

  /** Number of values of an `unsigned long`, the first address above user space, and mmap_min_addr. */
  datatype Arch = Arch(word: nat, taskSize: nat, minAddr: nat) {
    ghost predicate Valid() {
      minAddr + 1 < taskSize <= word
    }

    /** The word congruent to a - b. */
    function Sub(a: nat, b: nat): (d: nat)
      requires Valid() && a < word && b < word
      ensures d < word && (d == a - b || d == a - b + word)
    {
      if b <= a then a - b else word + a - b
    }

    /** The word congruent to a + b. */
    function Add(a: nat, b: nat): (t: nat)
      requires Valid() && a < word && b < word
      ensures t < word && (t == a + b || t == a + b - word)
    {
      if a + b < word then a + b else a + b - word
    }

    predicate Allows(addr: nat) {
      minAddr <= addr < taskSize
    }
  }

  datatype Layout = Layout(
    startCode: nat, endCode: nat, startData: nat, endData: nat, startBrk: nat, brk: nat,
    startStack: nat, argStart: nat, argEnd: nat, envStart: nat, envEnd: nat)

  /** The eleven single-address requests, and an option number that is none of them. */
  datatype Field = StartCode | EndCode | StartData | EndData | StartStack | StartBrk | Brk
                 | ArgStart | ArgEnd | EnvStart | EnvEnd | OtherOption

  function Addresses(l: Layout): seq<nat> {
    [l.startCode, l.endCode, l.startData, l.endData, l.startBrk, l.brk, l.startStack, l.argStart, l.argEnd, l.envStart, l.envEnd]
  }

  /** All eleven addresses are at least `lo` and below `hi`. */
  ghost predicate Within(l: Layout, lo: nat, hi: nat) {
    && lo <= l.startCode < hi && lo <= l.endCode < hi && lo <= l.startData < hi && lo <= l.endData < hi
    && lo <= l.startBrk < hi && lo <= l.brk < hi && lo <= l.startStack < hi
    && lo <= l.argStart < hi && lo <= l.argEnd < hi && lo <= l.envStart < hi && lo <= l.envEnd < hi
  }

  /** Every address is a user address and the five pairs are ordered. */
  ghost predicate Sane(arch: Arch, l: Layout) {
    && Within(l, arch.minAddr, arch.taskSize)
    && l.startCode < l.endCode && l.startData <= l.endData && l.startBrk <= l.brk
    && l.argStart <= l.argEnd && l.envStart <= l.envEnd
  }

  /** The true size of heap and data segment. */
  function DataSize(l: Layout): int {
    (l.brk - l.startBrk) + (l.endData - l.startData)
  }

  /** The sum that check_data_rlimit computes. */
  function WrappedDataSize(arch: Arch, l: Layout): nat
    requires arch.Valid() && Within(l, 0, arch.word)
  {
    arch.Add(arch.Sub(l.brk, l.startBrk), arch.Sub(l.endData, l.startData))
  }

  function With(l: Layout, f: Field, addr: nat): Layout {
    match f
    case StartCode => l.(startCode := addr)
    case EndCode => l.(endCode := addr)
    case StartData => l.(startData := addr)
    case EndData => l.(endData := addr)
    case StartStack => l.(startStack := addr)
    case StartBrk => l.(startBrk := addr)
    case Brk => l.(brk := addr)
    case ArgStart => l.(argStart := addr)
    case ArgEnd => l.(argEnd := addr)
    case EnvStart => l.(envStart := addr)
    case EnvEnd => l.(envEnd := addr)
    case OtherOption => l
  }

  /** Exactly the address that the option names is the new one; the ten others stay. */
  ghost predicate OnlyMoves(l: Layout, f: Field, addr: nat, l': Layout) {
    && l'.startCode == (if f == StartCode then addr else l.startCode) && l'.endCode == (if f == EndCode then addr else l.endCode)
    && l'.startData == (if f == StartData then addr else l.startData) && l'.endData == (if f == EndData then addr else l.endData)
    && l'.startBrk == (if f == StartBrk then addr else l.startBrk) && l'.brk == (if f == Brk then addr else l.brk)
    && l'.startStack == (if f == StartStack then addr else l.startStack)
    && l'.argStart == (if f == ArgStart then addr else l.argStart) && l'.argEnd == (if f == ArgEnd then addr else l.argEnd)
    && l'.envStart == (if f == EnvStart then addr else l.envStart) && l'.envEnd == (if f == EnvEnd then addr else l.envEnd)
  }

  lemma WithMoves(l: Layout, f: Field, addr: nat)
    ensures OnlyMoves(l, f, addr, With(l, f, addr))
  {
  }

  predicate NeedsVma(f: Field) {
    f == StartStack || f == ArgStart || f == ArgEnd || f == EnvStart || f == EnvEnd
  }

  /** RLIM_INFINITY is the largest `unsigned long`. */
  ghost predicate WithinLimit(arch: Arch, l: Layout, rlim: nat) {
    rlim < arch.word - 1 ==> DataSize(l) <= rlim
  }

  /** The sum cannot wrap on a sane layout of this architecture. */
  predicate SumFits(arch: Arch) {
    2 * (arch.taskSize - 1 - arch.minAddr) < arch.word
  }

  // ---------------------------------------------------------------------------------------------

  lemma EachAddress(l: Layout, arch: Arch)
    ensures Within(l, arch.minAddr, arch.taskSize) <==> forall k :: 0 <= k < 11 ==> arch.Allows(Addresses(l)[k])
  {
    var a := Addresses(l);
    assert a[0] == l.startCode && a[1] == l.endCode && a[2] == l.startData && a[3] == l.endData && a[4] == l.startBrk
        && a[5] == l.brk && a[6] == l.startStack && a[7] == l.argStart && a[8] == l.argEnd && a[9] == l.envStart && a[10] == l.envEnd;
  }

  class Mm {
    var layout: Layout
    const arch: Arch

    constructor (arch: Arch, layout: Layout)
      ensures this.arch == arch && this.layout == layout
    {
      this.arch, this.layout := arch, layout;
    }

    static method CheckDataRlimit(arch: Arch, rlim: nat, l: Layout) returns (ret: int)
      requires arch.Valid() && Within(l, 0, arch.word)
      ensures ret == if rlim < arch.word - 1 && WrappedDataSize(arch, l) > rlim then -ENOSPC else 0
    {
      if rlim < arch.word - 1 {
        if arch.Add(arch.Sub(l.brk, l.startBrk), arch.Sub(l.endData, l.startData)) > rlim {
          return -ENOSPC;
        }
      }
      return 0;
    }

    /** The loop over the eleven addresses. */
    static method AllAllowed(arch: Arch, map': Layout) returns (ok: bool)
      ensures ok <==> Within(map', arch.minAddr, arch.taskSize)
      ensures ok <==> forall k :: 0 <= k < 11 ==> arch.minAddr <= Addresses(map')[k] < arch.taskSize
    {
      var offsets := Addresses(map');
      EachAddress(map', arch);
      var i := 0;
      while i < |offsets|
        invariant 0 <= i <= |offsets|
        invariant forall k :: 0 <= k < i ==> arch.Allows(offsets[k])
      {
        if offsets[i] >= arch.taskSize || offsets[i] < arch.minAddr {
          assert !arch.Allows(offsets[i]);
          return false;
        }
        i := i + 1;
      }
      return true;
    }

    /** Accepts exactly the sane layouts whose data size, as summed in machine arithmetic, is within the limit. */
    static method ValidatePrctlMapAddr(arch: Arch, map': Layout, rlim: nat) returns (error: int)
      requires arch.Valid() && Within(map', 0, arch.word)
      ensures error == 0 <==> Sane(arch, map') && (rlim < arch.word - 1 ==> WrappedDataSize(arch, map') <= rlim)
      ensures SumFits(arch) ==> (error == 0 <==> Sane(arch, map') && WithinLimit(arch, map', rlim))
      ensures error == 0 || error == -EINVAL
      ensures error == 0 ==>
                && (forall k :: 0 <= k < 11 ==> arch.minAddr <= Addresses(map')[k] < arch.taskSize)
                && map'.startCode < map'.endCode && map'.startData <= map'.endData && map'.startBrk <= map'.brk
                && map'.argStart <= map'.argEnd && map'.envStart <= map'.envEnd
    {
      var ok := AllAllowed(arch, map');
      if !ok {
        return -EINVAL;
      }
      var ordered := map'.startCode < map'.endCode;
      ordered := ordered && map'.startData <= map'.endData;
      ordered := ordered && map'.startBrk <= map'.brk;
      ordered := ordered && map'.argStart <= map'.argEnd;
      ordered := ordered && map'.envStart <= map'.envEnd;
      if !ordered {
        return -EINVAL;
      }
      var over := CheckDataRlimit(arch, rlim, map');
      if over != 0 {
        return -EINVAL;
      }
      return 0;
    }

    /** One address at a time. `vma` tells whether find_vma finds a mapping at or above an address. */
    method PrctlSetMm(f: Field, addr: nat, extraArgs: bool, capable: bool, vma: nat -> bool, rlim: nat) returns (error: int)
      requires arch.Valid() && addr < arch.word && Within(layout, 0, arch.word)
      modifies this
      ensures var l := With(old(layout), f, addr);
              && (error == 0 <==> && !extraArgs && capable && f != OtherOption && Sane(arch, l) && (NeedsVma(f) ==> vma(addr))
                                  && (rlim < arch.word - 1 ==> WrappedDataSize(arch, l) <= rlim))
              && layout == (if error == 0 then l else old(layout))
      ensures error == 0 ==> OnlyMoves(old(layout), f, addr, layout)
      ensures SumFits(arch) ==> Step(arch, old(layout), One(f, addr), Env(rlim, vma, !extraArgs && capable), error == 0, layout)
      ensures error in {0, -EINVAL, -EPERM, -EFAULT}
      ensures error == -EFAULT ==> NeedsVma(f) && !vma(addr)
      ensures error == -EPERM <==> !extraArgs && !capable
      ensures !extraArgs && capable && error != 0 && error != -EFAULT ==> error == -EINVAL
      ensures !extraArgs && capable && f != OtherOption && NeedsVma(f) && !vma(addr) ==>
                var l := With(old(layout), f, addr);
                (error == -EFAULT <==> Sane(arch, l) && (rlim < arch.word - 1 ==> WrappedDataSize(arch, l) <= rlim))
    {
      if extraArgs {
        return -EINVAL;
      }
      if !capable {
        return -EPERM;
      }
      if addr >= arch.taskSize || addr < arch.minAddr {
        return -EINVAL;
      }
      if f == OtherOption {
        return -EINVAL;
      }
      var map' := With(layout, f, addr);
      error := ValidatePrctlMapAddr(arch, map', rlim);
      if error != 0 {
        return;
      }
      if NeedsVma(f) {
        if !vma(addr) {
          return -EFAULT;
        }
      }
      WithMoves(layout, f, addr);
      layout := map';
      return 0;
    }

    /**
     All addresses at once (PR_SET_MM_MAP). `copied` tells whether the request could be read, `auxvOk` whether its
     auxiliary vector is acceptable, `exe` is the answer of the executable change, 0 when none is asked for.
     */
    method PrctlSetMmMap(map': Layout, sizeOk: bool, copied: bool, auxvOk: bool, exe: int, vma: nat -> bool, rlim: nat)
      returns (error: int)
      requires arch.Valid() && Within(map', 0, arch.word)
      modifies this
      ensures error == 0 <==> && sizeOk && copied && auxvOk && exe == 0 && Sane(arch, map')
                              && (rlim < arch.word - 1 ==> WrappedDataSize(arch, map') <= rlim)
      ensures layout == if error == 0 then map' else old(layout)
      ensures !sizeOk ==> error == -EINVAL
      ensures sizeOk && !copied ==> error == -EFAULT
      ensures sizeOk && copied && error != 0 ==> error == -EINVAL || (error == exe && auxvOk)
      ensures sizeOk && copied && !auxvOk ==> error == -EINVAL
      ensures SumFits(arch) ==>
                Step(arch, old(layout), All(map'), Env(rlim, vma, sizeOk && copied && auxvOk && exe == 0), error == 0, layout)
    {
      if !sizeOk {
        return -EINVAL;
      }
      if !copied {
        return -EFAULT;
      }
      error := ValidatePrctlMapAddr(arch, map', rlim);
      if error != 0 {
        return;
      }
      if !auxvOk {
        return -EINVAL;
      }
      if exe != 0 {
        return exe;
      }
      layout := map';
      return 0;
    }
  }

  // ---------------------------------------------------------------------------------------------
  // The limit check

  /** On the sane layouts of an architecture the machine sum is the true size, all of them, exactly when it fits. */
  lemma LimitTestsTrueSize(arch: Arch)
    requires arch.Valid()
    ensures (forall l :: Sane(arch, l) ==> WrappedDataSize(arch, l) == DataSize(l)) <==> SumFits(arch)
  {
    if !SumFits(arch) {
      var lo, hi := arch.minAddr, arch.taskSize - 1;
      var l := Layout(lo, hi, lo, hi, lo, hi, lo, lo, hi, lo, hi);
      assert Sane(arch, l) && WrappedDataSize(arch, l) != DataSize(l);
    }
  }

  // ---------------------------------------------------------------------------------------------
  // Runs

  datatype Call = One(f: Field, addr: nat) | All(map': Layout)

  function Asked(l: Layout, c: Call): Layout {
    match c
    case One(f, addr) => With(l, f, addr)
    case All(map') => map'
  }

  /** RLIMIT_DATA, what find_vma answers for each address, and whether the caller gets past the other checks. */
  datatype Env = Env(rlim: nat, vma: nat -> bool, permitted: bool)

  ghost predicate Passes(arch: Arch, l: Layout, c: Call, env: Env) {
    && Sane(arch, Asked(l, c)) && WithinLimit(arch, Asked(l, c), env.rlim)
    && (c.One? ==> c.f != OtherOption && (NeedsVma(c.f) ==> env.vma(c.addr)))
  }

  /** A call succeeds exactly when the layout it asks for passes the checks; one that is refused changes nothing. */
  ghost predicate Step(arch: Arch, l: Layout, c: Call, env: Env, ok: bool, l': Layout) {
    (ok <==> env.permitted && Passes(arch, l, c, env)) && l' == if ok then Asked(l, c) else l
  }

  ghost predicate Run(arch: Arch, ls: seq<Layout>, cs: seq<Call>, envs: seq<Env>, oks: seq<bool>) {
    && |ls| == |cs| + 1 && |envs| == |cs| && |oks| == |cs|
    && forall i :: 0 <= i < |cs| ==> Step(arch, ls[i], cs[i], envs[i], oks[i], ls[i + 1])
  }

  /** Every run keeps a sane layout sane, and the first call that succeeds makes any layout sane. */
  lemma {:induction false} RunKeepsSane(arch: Arch, ls: seq<Layout>, cs: seq<Call>, envs: seq<Env>, oks: seq<bool>, n: nat)
    requires Run(arch, ls, cs, envs, oks) && n < |ls|
    ensures Sane(arch, ls[0]) || (exists i :: 0 <= i < n && oks[i]) ==> Sane(arch, ls[n])
    ensures (forall i :: 0 <= i < n ==> !oks[i]) ==> ls[n] == ls[0]
  {
    if n > 0 {
      RunKeepsSane(arch, ls, cs, envs, oks, n - 1);
      assert Step(arch, ls[n - 1], cs[n - 1], envs[n - 1], oks[n - 1], ls[n]);
    }
  }

  /** The data size never exceeds the largest of its starting value and the limits in force when calls succeeded. */
  lemma {:induction false} RunKeepsLimit(arch: Arch, ls: seq<Layout>, cs: seq<Call>, envs: seq<Env>, oks: seq<bool>, n: nat, cap: int)
    requires Run(arch, ls, cs, envs, oks) && n < |ls| && DataSize(ls[0]) <= cap
    requires forall i :: 0 <= i < n && oks[i] ==> envs[i].rlim < arch.word - 1 && envs[i].rlim <= cap
    ensures DataSize(ls[n]) <= cap
  {
    if n > 0 {
      RunKeepsLimit(arch, ls, cs, envs, oks, n - 1, cap);
      assert Step(arch, ls[n - 1], cs[n - 1], envs[n - 1], oks[n - 1], ls[n]);
    }
  }

  /** The address that an option names. */
  function Named(l: Layout, f: Field): nat
    requires f != OtherOption
  {
    match f
    case StartCode => l.startCode
    case EndCode => l.endCode
    case StartData => l.startData
    case EndData => l.endData
    case StartStack => l.startStack
    case StartBrk => l.startBrk
    case Brk => l.brk
    case ArgStart => l.argStart
    case ArgEnd => l.argEnd
    case EnvStart => l.envStart
    case EnvEnd => l.envEnd
  }

  /** The address that one call, if it succeeds, gives to what option `f` names. */
  function Gives(c: Call, f: Field): Option<nat>
    requires f != OtherOption
  {
    match c
    case One(g, addr) => if f == g then Some(addr) else None
    case All(map') => Some(Named(map', f))
  }

  /** What the last successful call among the first n gave. */
  function LastGiven(cs: seq<Call>, oks: seq<bool>, n: nat, f: Field): Option<nat>
    requires n <= |cs| && n <= |oks| && f != OtherOption
  {
    if n == 0 then None
    else if oks[n - 1] && Gives(cs[n - 1], f).Some? then Gives(cs[n - 1], f)
    else LastGiven(cs, oks, n - 1, f)
  }

  lemma NamedAfter(l: Layout, c: Call, f: Field)
    requires f != OtherOption
    ensures Named(Asked(l, c), f) == if Gives(c, f).Some? then Gives(c, f).value else Named(l, f)
  {
  }

  /** Over every run each address is the one that the last successful call for it gave, or the one at the start. */
  lemma {:induction false} LastCallWins(arch: Arch, ls: seq<Layout>, cs: seq<Call>, envs: seq<Env>, oks: seq<bool>, n: nat, f: Field)
    requires Run(arch, ls, cs, envs, oks) && n < |ls| && f != OtherOption
    ensures var given := LastGiven(cs, oks, n, f); Named(ls[n], f) == if given.Some? then given.value else Named(ls[0], f)
  {
    if n > 0 {
      LastCallWins(arch, ls, cs, envs, oks, n - 1, f);
      NamedAfter(ls[n - 1], cs[n - 1], f);
      assert Step(arch, ls[n - 1], cs[n - 1], envs[n - 1], oks[n - 1], ls[n]);
    }
  }

  // ---------------------------------------------------------------------------------------------
  // What can be reached one address at a time

  function SegSize(l: Layout): int {
    l.endData - l.startData
  }

  function HeapSize(l: Layout): int {
    l.brk - l.startBrk
  }

  /** The limit as a number; no sane layout is as large as the one that stands for infinity. */
  function Cap(arch: Arch, rlim: nat): nat {
    if rlim < arch.word - 1 then rlim else 2 * arch.word
  }

  /** Every address that needs a mapping, and that differs, has one at its new place. */
  ghost predicate Mapped(vma: nat -> bool, l: Layout, l': Layout) {
    && (l'.startStack != l.startStack ==> vma(l'.startStack))
    && (l'.argStart != l.argStart ==> vma(l'.argStart)) && (l'.argEnd != l.argEnd ==> vma(l'.argEnd))
    && (l'.envStart != l.envStart ==> vma(l'.envStart)) && (l'.envEnd != l.envEnd ==> vma(l'.envEnd))
  }

  /** Data segment and heap shrink to nothing, each at one of its own ends. */
  ghost predicate Collapses(l: Layout, l': Layout) {
    && l'.startData == l'.endData && l'.startData in {l.startData, l.endData}
    && l'.startBrk == l'.brk && l'.startBrk in {l.startBrk, l.brk}
  }

  /**
   Another sane layout within the limit can be had if one of the two segments is within the limit to begin with,
   the mappings are there, and the limit leaves at least one byte to move with.
   */
  ghost predicate MayReach(arch: Arch, env: Env, l: Layout, l': Layout) {
    var cap := Cap(arch, env.rlim);
    && Sane(arch, l') && DataSize(l') <= cap && (SegSize(l) <= cap || HeapSize(l) <= cap)
    && Mapped(env.vma, l, l') && (cap == 0 ==> Collapses(l, l'))
  }

  /** Some run of single-address calls under one limit and one set of mappings leads from l to l'. */
  ghost predicate Reachable(arch: Arch, env: Env, l: Layout, l': Layout) {
    exists ls: seq<Layout>, cs: seq<Call>, envs: seq<Env>, oks: seq<bool> :: SingleRun(arch, env, ls, cs, envs, oks) && ls[0] == l && ls[|cs|] == l'
  }

  ghost predicate SingleRun(arch: Arch, env: Env, ls: seq<Layout>, cs: seq<Call>, envs: seq<Env>, oks: seq<bool>) {
    Run(arch, ls, cs, envs, oks) && forall i :: 0 <= i < |cs| ==> cs[i].One? && envs[i] == env
  }

  lemma LimitIsCap(arch: Arch, l: Layout, rlim: nat)
    requires arch.Valid() && Sane(arch, l)
    ensures WithinLimit(arch, l, rlim) <==> DataSize(l) <= Cap(arch, rlim)
  {
  }

  // Nothing else can be reached

  lemma StepMaps(arch: Arch, env: Env, l0: Layout, l: Layout, f: Field, addr: nat)
    requires Mapped(env.vma, l0, l) && Passes(arch, l, One(f, addr), env)
    ensures Mapped(env.vma, l0, With(l, f, addr))
  {
  }

  lemma StepSizes(arch: Arch, env: Env, l: Layout, f: Field, addr: nat)
    requires arch.Valid() && Passes(arch, l, One(f, addr), env)
    ensures SegSize(l) <= Cap(arch, env.rlim) || HeapSize(l) <= Cap(arch, env.rlim)
  {
    var l' := With(l, f, addr);
    LimitIsCap(arch, l', env.rlim);
    assert SegSize(l') == SegSize(l) || HeapSize(l') == HeapSize(l);
  }

  lemma StepCollapses(arch: Arch, env: Env, l0: Layout, l: Layout, f: Field, addr: nat)
    requires arch.Valid() && Cap(arch, env.rlim) == 0 && Passes(arch, l, One(f, addr), env)
    requires l == l0 || Collapses(l0, l)
    ensures Collapses(l0, With(l, f, addr))
  {
    LimitIsCap(arch, With(l, f, addr), env.rlim);
  }

  lemma {:induction false} OnlyMayReach(arch: Arch, env: Env, ls: seq<Layout>, cs: seq<Call>, envs: seq<Env>, oks: seq<bool>, n: nat)
    requires arch.Valid() && SingleRun(arch, env, ls, cs, envs, oks) && n < |ls|
    ensures ls[n] == ls[0] || MayReach(arch, env, ls[0], ls[n])
  {
    if n > 0 {
      OnlyMayReach(arch, env, ls, cs, envs, oks, n - 1);
      var l0, l, c := ls[0], ls[n - 1], cs[n - 1];
      assert Step(arch, l, c, envs[n - 1], oks[n - 1], ls[n]);
      if oks[n - 1] {
        StepMaps(arch, env, l0, l, c.f, c.addr);
        LimitIsCap(arch, ls[n], env.rlim);
        if l == l0 {
          StepSizes(arch, env, l, c.f, c.addr);
        }
        if Cap(arch, env.rlim) == 0 {
          StepCollapses(arch, env, l0, l, c.f, c.addr);
        }
      }
    }
  }

  // All of it can be reached

  /** Every neighbour pair is a hop. */
  ghost predicate Linked<S(!new)>(hop: (S, S) -> bool, ss: seq<S>) {
    ss != [] && forall i :: 0 <= i < |ss| - 1 ==> hop(ss[i], ss[i + 1])
  }

  ghost predicate Leads<S(!new)>(hop: (S, S) -> bool, a: S, b: S) {
    exists ss: seq<S> :: Linked(hop, ss) && ss[0] == a && ss[|ss| - 1] == b
  }

  lemma LeadsOn<S(!new)>(hop: (S, S) -> bool, a: S, b: S, c: S)
    requires Leads(hop, a, b) && Leads(hop, b, c)
    ensures Leads(hop, a, c)
  {
    var ss: seq<S> :| Linked(hop, ss) && ss[0] == a && ss[|ss| - 1] == b;
    var ts: seq<S> :| Linked(hop, ts) && ts[0] == b && ts[|ts| - 1] == c;
    var us := ss + ts[1..];
    assert Linked(hop, us) by {
      forall i | 0 <= i < |us| - 1
        ensures hop(us[i], us[i + 1])
      {
        if i < |ss| - 1 {
        } else {
          var k := i - (|ss| - 1);
          assert us[i] == ts[k] && us[i + 1] == ts[k + 1];
        }
      }
    }
    assert us[|us| - 1] == c;
  }

  lemma LeadsInOne<S(!new)>(hop: (S, S) -> bool, a: S, b: S)
    requires a == b || hop(a, b)
    ensures Leads(hop, a, b)
  {
    var ss := if a == b then [a] else [a, b];
    assert Linked(hop, ss);
  }

  /** Sane and within the limit. */
  ghost predicate Good(arch: Arch, env: Env, l: Layout) {
    Sane(arch, l) && WithinLimit(arch, l, env.rlim)
  }

  /** One call that passes. */
  ghost predicate Hop(arch: Arch, env: Env, l: Layout, l': Layout) {
    exists f, addr :: Passes(arch, l, One(f, addr), env) && l' == With(l, f, addr)
  }

  ghost function Hops(arch: Arch, env: Env): (Layout, Layout) -> bool {
    (l, l') => Hop(arch, env, l, l')
  }

  /** Calls that all pass lead from `l` to `l'`. */
  ghost predicate Moves(arch: Arch, env: Env, l: Layout, l': Layout) {
    Leads(Hops(arch, env), l, l')
  }

  lemma Then(arch: Arch, env: Env, l: Layout, l': Layout, l'': Layout)
    requires Moves(arch, env, l, l') && Moves(arch, env, l', l'')
    ensures Moves(arch, env, l, l'')
  {
    LeadsOn(Hops(arch, env), l, l', l'');
  }

  /** A change that changes nothing is not asked for, since the mapping it needs may be gone. */
  lemma Put(arch: Arch, env: Env, l: Layout, f: Field, addr: nat, l': Layout)
    requires l' == With(l, f, addr) && (l' == l || (Good(arch, env, l') && f != OtherOption && (NeedsVma(f) ==> env.vma(addr))))
    ensures Moves(arch, env, l, l')
  {
    assert l' != l ==> Passes(arch, l, One(f, addr), env);
    LeadsInOne(Hops(arch, env), l, l');
  }

  lemma PutTwo(arch: Arch, env: Env, l: Layout, f: Field, a: nat, mid: Layout, g: Field, b: nat, l': Layout)
    requires Good(arch, env, mid) && Good(arch, env, l') && f != OtherOption && g != OtherOption
    requires mid == With(l, f, a) && (mid != l && NeedsVma(f) ==> env.vma(a))
    requires l' == With(mid, g, b) && (l' != mid && NeedsVma(g) ==> env.vma(b))
    ensures Moves(arch, env, l, l')
  {
    Put(arch, env, l, f, a, mid);
    Put(arch, env, mid, g, b, l');
    Then(arch, env, l, mid, l');
  }

  // two addresses that bound a range are set in the order that keeps them ordered on the way

  lemma MoveCode(arch: Arch, env: Env, l: Layout, l': Layout) returns (next: Layout)
    requires Good(arch, env, l) && Sane(arch, l')
    ensures next == l.(startCode := l'.startCode, endCode := l'.endCode) && Good(arch, env, next) && Moves(arch, env, l, next)
  {
    next := l.(startCode := l'.startCode, endCode := l'.endCode);
    if l'.startCode < l.endCode {
      PutTwo(arch, env, l, StartCode, l'.startCode, l.(startCode := l'.startCode), EndCode, l'.endCode, next);
    } else {
      PutTwo(arch, env, l, EndCode, l'.endCode, l.(endCode := l'.endCode), StartCode, l'.startCode, next);
    }
  }

  lemma MoveArgs(arch: Arch, env: Env, l: Layout, l': Layout) returns (next: Layout)
    requires Good(arch, env, l) && Sane(arch, l')
    requires (l'.argStart != l.argStart ==> env.vma(l'.argStart)) && (l'.argEnd != l.argEnd ==> env.vma(l'.argEnd))
    ensures next == l.(argStart := l'.argStart, argEnd := l'.argEnd) && Good(arch, env, next) && Moves(arch, env, l, next)
  {
    next := l.(argStart := l'.argStart, argEnd := l'.argEnd);
    if l'.argStart <= l.argEnd {
      PutTwo(arch, env, l, ArgStart, l'.argStart, l.(argStart := l'.argStart), ArgEnd, l'.argEnd, next);
    } else {
      PutTwo(arch, env, l, ArgEnd, l'.argEnd, l.(argEnd := l'.argEnd), ArgStart, l'.argStart, next);
    }
  }

  lemma MoveEnv(arch: Arch, env: Env, l: Layout, l': Layout) returns (next: Layout)
    requires Good(arch, env, l) && Sane(arch, l')
    requires (l'.envStart != l.envStart ==> env.vma(l'.envStart)) && (l'.envEnd != l.envEnd ==> env.vma(l'.envEnd))
    ensures next == l.(envStart := l'.envStart, envEnd := l'.envEnd) && Good(arch, env, next) && Moves(arch, env, l, next)
  {
    next := l.(envStart := l'.envStart, envEnd := l'.envEnd);
    if l'.envStart <= l.envEnd {
      PutTwo(arch, env, l, EnvStart, l'.envStart, l.(envStart := l'.envStart), EnvEnd, l'.envEnd, next);
    } else {
      PutTwo(arch, env, l, EnvEnd, l'.envEnd, l.(envEnd := l'.envEnd), EnvStart, l'.envStart, next);
    }
  }

  function WithSeg(l: Layout, a: nat, b: nat): Layout {
    l.(startData := a, endData := b)
  }

  function WithHeap(l: Layout, a: nat, b: nat): Layout {
    l.(startBrk := a, brk := b)
  }

  /** Both segments empty, at these addresses. */
  function Placed(l: Layout, p: nat, q: nat): Layout {
    l.(startData := p, endData := p, startBrk := q, brk := q)
  }

  /** The data segment shrinks onto one of its ends if the heap alone is within the limit. */
  lemma ShrinkSeg(arch: Arch, env: Env, l: Layout, p: nat)
    requires arch.Valid() && Sane(arch, l) && HeapSize(l) <= Cap(arch, env.rlim) && p in {l.startData, l.endData}
    ensures Moves(arch, env, l, WithSeg(l, p, p))
  {
    LimitIsCap(arch, WithSeg(l, p, p), env.rlim);
    if p == l.startData {
      Put(arch, env, l, EndData, p, WithSeg(l, p, p));
    } else {
      Put(arch, env, l, StartData, p, WithSeg(l, p, p));
    }
  }

  lemma ShrinkHeap(arch: Arch, env: Env, l: Layout, p: nat)
    requires arch.Valid() && Sane(arch, l) && SegSize(l) <= Cap(arch, env.rlim) && p in {l.startBrk, l.brk}
    ensures Moves(arch, env, l, WithHeap(l, p, p))
  {
    LimitIsCap(arch, WithHeap(l, p, p), env.rlim);
    if p == l.startBrk {
      Put(arch, env, l, Brk, p, WithHeap(l, p, p));
    } else {
      Put(arch, env, l, StartBrk, p, WithHeap(l, p, p));
    }
  }

  lemma Shrink(arch: Arch, env: Env, l: Layout, p: nat, q: nat)
    requires arch.Valid() && Sane(arch, l) && (SegSize(l) <= Cap(arch, env.rlim) || HeapSize(l) <= Cap(arch, env.rlim))
    requires p in {l.startData, l.endData} && q in {l.startBrk, l.brk}
    ensures Moves(arch, env, l, Placed(l, p, q))
  {
    var l' := Placed(l, p, q);
    if HeapSize(l) <= Cap(arch, env.rlim) {
      ShrinkSeg(arch, env, l, p);
      ShrinkHeap(arch, env, WithSeg(l, p, p), q);
      Then(arch, env, l, WithSeg(l, p, p), l');
    } else {
      ShrinkHeap(arch, env, l, q);
      ShrinkSeg(arch, env, WithHeap(l, q, q), p);
      Then(arch, env, l, WithHeap(l, q, q), l');
    }
  }

  /** Both segments are empty and lie among the user addresses. */
  ghost predicate Empty(arch: Arch, l: Layout) {
    Sane(arch, l) && SegSize(l) == 0 && HeapSize(l) == 0
  }

  /** One end of an empty data segment goes a byte ahead, the other follows. */
  lemma NudgeSeg(arch: Arch, env: Env, l: Layout, next: nat)
    requires arch.Valid() && Empty(arch, l) && 1 <= Cap(arch, env.rlim) && arch.Allows(next)
    requires -1 <= next - l.startData <= 1
    ensures Moves(arch, env, l, WithSeg(l, next, next))
  {
    var p, l' := l.startData, WithSeg(l, next, next);
    LimitIsCap(arch, l', env.rlim);
    if p < next {
      LimitIsCap(arch, WithSeg(l, p, next), env.rlim);
      PutTwo(arch, env, l, EndData, next, WithSeg(l, p, next), StartData, next, l');
    } else {
      LimitIsCap(arch, WithSeg(l, next, p), env.rlim);
      PutTwo(arch, env, l, StartData, next, WithSeg(l, next, p), EndData, next, l');
    }
  }

  lemma NudgeHeap(arch: Arch, env: Env, l: Layout, next: nat)
    requires arch.Valid() && Empty(arch, l) && 1 <= Cap(arch, env.rlim) && arch.Allows(next)
    requires -1 <= next - l.startBrk <= 1
    ensures Moves(arch, env, l, WithHeap(l, next, next))
  {
    var p, l' := l.startBrk, WithHeap(l, next, next);
    LimitIsCap(arch, l', env.rlim);
    if p < next {
      LimitIsCap(arch, WithHeap(l, p, next), env.rlim);
      PutTwo(arch, env, l, Brk, next, WithHeap(l, p, next), StartBrk, next, l');
    } else {
      LimitIsCap(arch, WithHeap(l, next, p), env.rlim);
      PutTwo(arch, env, l, StartBrk, next, WithHeap(l, next, p), Brk, next, l');
    }
  }

  /** With a byte to move with, an empty data segment goes anywhere. */
  lemma {:induction false} WalkSeg(arch: Arch, env: Env, l: Layout, q: nat)
    requires arch.Valid() && Empty(arch, l) && 1 <= Cap(arch, env.rlim) && arch.Allows(q)
    ensures Moves(arch, env, l, WithSeg(l, q, q))
    decreases if l.startData < q then q - l.startData else l.startData - q
  {
    var p := l.startData;
    if p == q {
      LeadsInOne(Hops(arch, env), l, l);
    } else {
      var next := if p < q then p + 1 else p - 1;
      NudgeSeg(arch, env, l, next);
      WalkSeg(arch, env, WithSeg(l, next, next), q);
      Then(arch, env, l, WithSeg(l, next, next), WithSeg(l, q, q));
    }
  }

  lemma {:induction false} WalkHeap(arch: Arch, env: Env, l: Layout, q: nat)
    requires arch.Valid() && Empty(arch, l) && 1 <= Cap(arch, env.rlim) && arch.Allows(q)
    ensures Moves(arch, env, l, WithHeap(l, q, q))
    decreases if l.startBrk < q then q - l.startBrk else l.startBrk - q
  {
    var p := l.startBrk;
    if p == q {
      LeadsInOne(Hops(arch, env), l, l);
    } else {
      var next := if p < q then p + 1 else p - 1;
      NudgeHeap(arch, env, l, next);
      WalkHeap(arch, env, WithHeap(l, next, next), q);
      Then(arch, env, l, WithHeap(l, next, next), WithHeap(l, q, q));
    }
  }

  /** Empty segments go where the target has its own. */
  lemma Walk(arch: Arch, env: Env, l: Layout, l': Layout)
    requires arch.Valid() && Empty(arch, l) && Sane(arch, l') && 1 <= Cap(arch, env.rlim)
    ensures Moves(arch, env, l, Placed(l, l'.startData, l'.startBrk))
  {
    var mid := WithSeg(l, l'.startData, l'.startData);
    WalkSeg(arch, env, l, l'.startData);
    WalkHeap(arch, env, mid, l'.startBrk);
    Then(arch, env, l, mid, Placed(l, l'.startData, l'.startBrk));
  }

  lemma Grow(arch: Arch, env: Env, l: Layout, l': Layout) returns (next: Layout)
    requires arch.Valid() && Empty(arch, l) && Sane(arch, l') && DataSize(l') <= Cap(arch, env.rlim)
    requires l.startData == l'.startData && l.startBrk == l'.startBrk
    ensures next == WithHeap(WithSeg(l, l'.startData, l'.endData), l'.startBrk, l'.brk)
    ensures Good(arch, env, next) && Moves(arch, env, l, next)
  {
    var mid := WithSeg(l, l'.startData, l'.endData);
    next := WithHeap(mid, l'.startBrk, l'.brk);
    LimitIsCap(arch, mid, env.rlim);
    LimitIsCap(arch, next, env.rlim);
    PutTwo(arch, env, l, EndData, l'.endData, mid, Brk, l'.brk, next);
  }

  /** The data segment and the heap take their new places; the other addresses wait. */
  lemma MoveData(arch: Arch, env: Env, l: Layout, l': Layout) returns (next: Layout)
    requires arch.Valid() && Sane(arch, l) && MayReach(arch, env, l, l')
    ensures next == WithHeap(WithSeg(l, l'.startData, l'.endData), l'.startBrk, l'.brk)
    ensures Good(arch, env, next) && Moves(arch, env, l, next)
  {
    var mid := ShrinkAndWalk(arch, env, l, l');
    next := Grow(arch, env, mid, l');
    Then(arch, env, l, mid, next);
  }

  lemma ShrinkAndWalk(arch: Arch, env: Env, l: Layout, l': Layout) returns (next: Layout)
    requires arch.Valid() && Sane(arch, l) && Sane(arch, l')
    requires SegSize(l) <= Cap(arch, env.rlim) || HeapSize(l) <= Cap(arch, env.rlim)
    requires Cap(arch, env.rlim) == 0 ==> Collapses(l, l')
    ensures next == Placed(l, l'.startData, l'.startBrk)
    ensures Empty(arch, next) && Moves(arch, env, l, next)
  {
    next := Placed(l, l'.startData, l'.startBrk);
    if Cap(arch, env.rlim) == 0 {
      Shrink(arch, env, l, l'.startData, l'.startBrk);
    } else {
      var mid := Placed(l, l.startData, l.startBrk);
      Shrink(arch, env, l, l.startData, l.startBrk);
      Walk(arch, env, mid, l');
      Then(arch, env, l, mid, next);
    }
  }

  /** The arguments, the environment and the stack follow. */
  lemma MoveTop(arch: Arch, env: Env, l: Layout, l': Layout)
    requires Good(arch, env, l) && Good(arch, env, l') && Mapped(env.vma, l, l')
    requires l' == l.(startStack := l'.startStack, argStart := l'.argStart, argEnd := l'.argEnd, envStart := l'.envStart, envEnd := l'.envEnd)
    ensures Moves(arch, env, l, l')
  {
    var l1 := MoveArgs(arch, env, l, l');
    var l2 := MoveEnv(arch, env, l1, l');
    Then(arch, env, l, l1, l2);
    Put(arch, env, l2, StartStack, l'.startStack, l');
    Then(arch, env, l, l2, l');
  }

  lemma MoveAll(arch: Arch, env: Env, l: Layout, l': Layout)
    requires arch.Valid() && Sane(arch, l) && MayReach(arch, env, l, l')
    ensures Moves(arch, env, l, l')
  {
    LimitIsCap(arch, l', env.rlim);
    var l1 := MoveData(arch, env, l, l');
    var l2 := MoveCode(arch, env, l1, l');
    Then(arch, env, l, l1, l2);
    MoveTop(arch, env, l2, l');
    Then(arch, env, l, l2, l');
  }

  lemma {:induction false} LinkedIsRun(arch: Arch, env: Env, ls: seq<Layout>)
    returns (cs: seq<Call>, envs: seq<Env>, oks: seq<bool>)
    requires env.permitted && Linked(Hops(arch, env), ls)
    ensures |cs| == |ls| - 1 && SingleRun(arch, env, ls, cs, envs, oks)
  {
    cs, envs, oks := [], [], [];
    if |ls| > 1 {
      var n := |ls| - 1;
      assert Linked(Hops(arch, env), ls[..n]) && Hops(arch, env)(ls[n - 1], ls[n]);
      cs, envs, oks := LinkedIsRun(arch, env, ls[..n]);
      var f, addr :| Passes(arch, ls[n - 1], One(f, addr), env) && ls[n] == With(ls[n - 1], f, addr);
      forall i | 0 <= i < n - 1
        ensures Step(arch, ls[i], cs[i], envs[i], oks[i], ls[i + 1])
      {
        assert Step(arch, ls[..n][i], cs[i], envs[i], oks[i], ls[..n][i + 1]);
      }
      cs, envs, oks := cs + [One(f, addr)], envs + [env], oks + [true];
    }
  }

  /**
   What a permitted caller can reach one address at a time, for every limit and all mappings: the layout it has, and
   exactly those described by MayReach.
   */
  lemma ReachableExactly(arch: Arch, env: Env, l: Layout, l': Layout)
    requires arch.Valid() && env.permitted && Sane(arch, l)
    ensures Reachable(arch, env, l, l') <==> l' == l || MayReach(arch, env, l, l')
  {
    if Reachable(arch, env, l, l') {
      var ls: seq<Layout>, cs: seq<Call>, envs: seq<Env>, oks: seq<bool> :|
        SingleRun(arch, env, ls, cs, envs, oks) && ls[0] == l && ls[|cs|] == l';
      OnlyMayReach(arch, env, ls, cs, envs, oks, |cs|);
    }
    if l' == l || MayReach(arch, env, l, l') {
      if l' == l {
        LeadsInOne(Hops(arch, env), l, l);
      } else {
        MoveAll(arch, env, l, l');
      }
      var ls: seq<Layout> :| Linked(Hops(arch, env), ls) && ls[0] == l && ls[|ls| - 1] == l';
      var cs, envs, oks := LinkedIsRun(arch, env, ls);
      assert ls[|cs|] == l';
    }
  }

  /** Under a limit of 0 an empty data segment and heap stay where they are for good. */
  lemma FrozenAtZero(arch: Arch, env: Env, l: Layout, l': Layout)
    requires arch.Valid() && env.permitted && Sane(arch, l) && DataSize(l) == 0 && env.rlim == 0
    requires Reachable(arch, env, l, l')
    ensures l'.startData == l'.endData == l.startData && l'.startBrk == l'.brk == l.startBrk
  {
    ReachableExactly(arch, env, l, l');
  }

  /** Under any other limit a layout within it can become every sane layout within it whose addresses are mapped. */
  lemma FreeAboveZero(arch: Arch, env: Env, l: Layout, l': Layout)
    requires arch.Valid() && env.permitted && Good(arch, env, l) && env.rlim > 0
    ensures Reachable(arch, env, l, l') <==> l' == l || (Good(arch, env, l') && Mapped(env.vma, l, l'))
  {
    ReachableExactly(arch, env, l, l');
    LimitIsCap(arch, l, env.rlim);
    if Sane(arch, l') {
      LimitIsCap(arch, l', env.rlim);
    }
  }
}
