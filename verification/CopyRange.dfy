/** The checks that copy_file_range runs before it copies (fs/read_write.c), in 64-bit arithmetic. */
module CopyRange {
  import opened Errno
  import opened MachineInt

  const RLIM_INFINITY: U64 := TWO64 - 1
  const MAX_NON_LFS: Size := 0x7fff_ffff

  datatype Kind = Directory | Regular | Special

  datatype Inode = Inode(ino: int, sb: int, kind: Kind, size: Size, maxBytes: Size, immutable: bool, swapfile: bool)

  /** `copyOp` identifies the filesystem's copy_file_range method; 0 means that it has none. */
  datatype File = File(inode: Inode, read: bool, write: bool, append: bool, largeFile: bool, unsignedOffsets: bool, copyOp: nat)

  /** Answers of security_file_permission and fsnotify_file_area_perm; 0 means allowed. */
  datatype Hooks = Hooks(permission: int, notify: int)

  datatype Outcome = Refused(err: int) | Nothing | Copy(len: U64)

  // ---------------------------------------------------------------------------------------------
  // What the checks mean, over unbounded integers

  function SizeCap(f: File): int {
    if f.largeFile then f.inode.maxBytes else MAX_NON_LFS
  }

  /** RLIMIT_FSIZE as a signed offset. A finite limit of 2^63 or more reads as a negative one. */
  function SignedLimit(rlim: U64): int {
    if rlim < TWO63 then rlim else rlim - TWO64
  }

  /** The first offset a write may not touch. */
  function WriteCap(f: File, rlim: U64): int {
    if rlim == RLIM_INFINITY then SizeCap(f) else Min(SignedLimit(rlim), SizeCap(f))
  }

  /** The farthest cap that the checks measure a distance to. */
  function FarCap(f: File, rlim: U64): int {
    if rlim == RLIM_INFINITY || SignedLimit(rlim) <= SizeCap(f) then SizeCap(f) else SignedLimit(rlim)
  }

  ghost predicate KindsAllow(fin: File, fout: File, splice: bool) {
    && fin.inode.kind == Regular && fout.inode.kind == Regular
    && fin.read && fout.write && !fout.append
    && (splice || (if fout.copyOp != 0 then fin.copyOp == fout.copyOp else fin.inode.sb == fout.inode.sb))
    && !fout.inode.immutable && !fin.inode.swapfile && !fout.inode.swapfile
  }

  /** The offset that a signed position stands for. */
  function Unsigned(pos: int): int {
    if pos < 0 then pos + TWO64 else pos
  }

  predicate Fits(pos: int, len: int) {
    Unsigned(pos) + len < TWO64
  }

  /** A write may start here, and no distance to a cap overflows. */
  ghost predicate Room(f: File, pos: int, rlim: U64) {
    pos < WriteCap(f, rlim) && FarCap(f, rlim) - pos < TWO63
  }

  /** The distance from a position to a cap beyond it, as a signed 64-bit number. */
  function Gap(cap: int, pos: int): int {
    if cap - pos < TWO63 then cap - pos else cap - pos - TWO64
  }

  /** What the limits leave of a count; negative when a distance overflows. */
  function Left(f: File, pos: int, count: int, rlim: U64): int {
    var limited := if rlim == RLIM_INFINITY then count else Min(count, Gap(SignedLimit(rlim), pos));
    Min(limited, Gap(SizeCap(f), pos))
  }

  /** The end of a range, modulo 2^64. */
  function End(pos: int, count: int): int {
    if Fits(pos, count) then Unsigned(pos) + count else Unsigned(pos) + count - TWO64
  }

  predicate OverlapTest(posIn: int, posOut: int, count: int) {
    End(posOut, count) > Unsigned(posIn) && Unsigned(posOut) < End(posIn, count)
  }

  /** The count that the checks arrive at, as an unsigned number. */
  function Counted(fin: File, posIn: int, fout: File, posOut: int, len: int, rlim: U64): int {
    Unsigned(Left(fout, posOut, UpToEof(fin, posIn, len), rlim))
  }

  /** How many bytes are left up to the end of the input. */
  function UpToEof(fin: File, posIn: int, len: int): int {
    if posIn < fin.inode.size then Min(len, fin.inode.size - posIn) else 0
  }

  /** How many bytes the shortened copy has: up to the end of the input and up to the cap of the output. */
  function Shortened(fin: File, posIn: int, fout: File, posOut: int, len: int, rlim: U64): int {
    Min(UpToEof(fin, posIn, len), WriteCap(fout, rlim) - posOut)
  }

  ghost predicate Inside(x: int, a: int, n: int) {
    a <= x < a + n
  }

  /** [a, a+n) and [b, b+n) have no point in common. */
  ghost predicate Disjoint(a: int, b: int, n: int) {
    forall x :: Inside(x, a, n) ==> !Inside(x, b, n)
  }

  ghost predicate RangesAllow(fin: File, posIn: int, fout: File, posOut: int, len: int, rlim: U64) {
    && Fits(posIn, len) && Fits(posOut, len) && Room(fout, posOut, rlim)
    && (fin.inode == fout.inode
        ==> Disjoint(Unsigned(posIn), Unsigned(posOut), Shortened(fin, posIn, fout, posOut, len, rlim)))
  }

  /** The range neither leaves nor wraps around the file's offset space. */
  ghost predicate InSpace(f: File, pos: int, count: int) {
    count < TWO63 && if f.unsignedOffsets then Unsigned(pos) + count < TWO64 else 0 <= pos && pos + count < TWO63
  }

  ghost predicate Accepts(h: Hooks) {
    h.permission == 0 && h.notify == 0
  }

  lemma DisjointIsOrdered(a: int, b: int, n: int)
    ensures Disjoint(a, b, n) <==> (n <= 0 || a + n <= b || b + n <= a)
  {
    if 0 < n && b < a + n && a < b + n {
      var x := if a <= b then b else a;
      assert Inside(x, a, n) && Inside(x, b, n);
    }
  }

  // ---------------------------------------------------------------------------------------------
  // The checks

  method GenericFileRwChecks(fin: File, fout: File) returns (ret: int)
    ensures ret == 0 <==> && fin.inode.kind == Regular && fout.inode.kind == Regular
                          && fin.read && fout.write && !fout.append
    ensures ret == -EISDIR <==> fin.inode.kind == Directory || fout.inode.kind == Directory
    ensures ret in {0, -EISDIR, -EINVAL, -EBADF}
    ensures ret == -EBADF <==> fin.inode.kind == Regular && fout.inode.kind == Regular && (!fin.read || !fout.write || fout.append)
  {
    if fin.inode.kind == Directory || fout.inode.kind == Directory {
      return -EISDIR;
    }
    if fin.inode.kind != Regular || fout.inode.kind != Regular {
      return -EINVAL;
    }
    if !fin.read || !fout.write || fout.append {
      return -EBADF;
    }
    return 0;
  }

  /** `cap - pos` in machine arithmetic. */
  method Distance(cap: S64, pos: S64) returns (d: S64)
    requires pos < cap
    ensures d == Gap(cap, pos)
  {
    d := ToS64(cap as int - pos);
  }

  method ReadLimit(rlim: U64) returns (limit: S64, infinite: bool)
    ensures limit == SignedLimit(rlim) && (infinite <==> rlim == RLIM_INFINITY)
  {
    limit := ToS64(rlim);
    infinite := ToU64(limit) == RLIM_INFINITY;
  }

  /** A negative position is let through; a distance that overflows then leaves a negative count. */
  method GenericWriteCheckLimits(f: File, pos: S64, count: S64, rlim: U64) returns (ret: int, left: S64)
    ensures ret == 0 <==> pos < WriteCap(f, rlim)
    ensures ret == 0 ==> left == Left(f, pos, count, rlim)
    ensures Room(f, pos, rlim) ==> left == Min(count, WriteCap(f, rlim) - pos)
    ensures ret == 0 && !Room(f, pos, rlim) ==> left < 0
    ensures ret != 0 ==> ret == -EFBIG
    ensures left <= count
  {
    left := count;
    var maxSize: S64 := f.inode.maxBytes;
    var limit, infinite := ReadLimit(rlim);
    if !infinite {
      if pos >= limit {
        return -EFBIG, left;
      }
      var d := Distance(limit, pos);
      left := Min(left, d);
    }
    if !f.largeFile {
      maxSize := MAX_NON_LFS;
    }
    if pos >= maxSize {
      return -EFBIG, left;
    }
    var d := Distance(maxSize, pos);
    left := Min(left, d);
    ret := 0;
  }

  /** Allowed exactly when the range lies in the file's offset space and the hooks agree. */
  method RwVerifyArea(f: File, pos: S64, count: U64, h: Hooks) returns (ret: int)
    ensures ret == 0 <==> InSpace(f, pos, count) && Accepts(h)
    ensures !f.unsignedOffsets && !InSpace(f, pos, count) ==> ret == -EINVAL
    ensures !InSpace(f, pos, count) ==> ret == if f.unsignedOffsets && count < TWO63 then -EOVERFLOW else -EINVAL
    ensures InSpace(f, pos, count) ==> ret == if h.permission != 0 then h.permission else h.notify
  {
    if ToS64(count) < 0 {
      return -EINVAL;
    }
    if pos < 0 {
      if !f.unsignedOffsets {
        return -EINVAL;
      }
      if count >= ToU64(0 - (pos as int)) {
        return -EOVERFLOW;
      }
    } else if ToS64(ToU64(pos) + count) < 0 {
      if !f.unsignedOffsets {
        return -EINVAL;
      }
    }
    if h.permission != 0 {
      return h.permission;
    }
    return h.notify;
  }

  /** The overflow test of generic_copy_file_checks; a negative offset counts as a large unsigned one. */
  method Wraps(pos: S64, count: U64) returns (b: bool)
    ensures b <==> !Fits(pos, count)
  {
    b := ToU64(ToU64(pos) + count) < ToU64(pos);
  }

  /** The step of generic_copy_file_checks that shortens the copy to the end of the input. */
  method ShortenToEof(fin: File, posIn: S64, count: U64) returns (n: U64)
    ensures n == UpToEof(fin, posIn, count)
  {
    var sizeIn: S64 := fin.inode.size;
    if posIn >= sizeIn {
      n := 0;
    } else {
      n := Min(count, ToU64(sizeIn as int - ToU64(posIn)));
    }
  }

  /** Start and end of a range as unsigned offsets; the end may wrap. */
  method Ends(pos: S64, count: U64) returns (from: U64, to: U64)
    ensures from == Unsigned(pos) && to == End(pos, count)
  {
    from := ToU64(pos);
    to := ToU64(from as int + count);
  }

  /** The overlap test of generic_copy_file_checks, made on unsigned offsets. */
  method Overlaps(posIn: S64, posOut: S64, count: U64) returns (b: bool)
    ensures b <==> OverlapTest(posIn, posOut, count)
    ensures Fits(posIn, count) && Fits(posOut, count) ==> (b <==> !Disjoint(Unsigned(posIn), Unsigned(posOut), count))
  {
    DisjointIsOrdered(Unsigned(posIn), Unsigned(posOut), count);
    var inStart, inEnd := Ends(posIn, count);
    var outStart, outEnd := Ends(posOut, count);
    b := outEnd > inStart && outStart < inEnd;
  }

  /** The count passes through a signed variable on its way to the limits and back. */
  method LimitCount(f: File, pos: S64, count: U64, rlim: U64) returns (ret: int, left: U64)
    requires count < TWO63
    ensures ret == 0 <==> pos < WriteCap(f, rlim)
    ensures ret == 0 ==> left == Unsigned(Left(f, pos, count, rlim))
    ensures Room(f, pos, rlim) ==> left == Min(count, WriteCap(f, rlim) - pos)
    ensures ret == 0 && !Room(f, pos, rlim) ==> TWO63 <= left
    ensures ret != 0 ==> ret == -EFBIG
  {
    var signed;
    ret, signed := GenericWriteCheckLimits(f, pos, ToS64(count), rlim);
    left := ToU64(signed);
  }

  /** Who may copy to whom, with the order of the errors. */
  method CheckKinds(fin: File, fout: File, splice: bool) returns (ret: int)
    ensures ret == 0 <==> KindsAllow(fin, fout, splice)
    ensures ret in {0, -EISDIR, -EINVAL, -EBADF, -EXDEV, -EPERM, -ETXTBSY}
    ensures ret == -EISDIR <==> fin.inode.kind == Directory || fout.inode.kind == Directory
    ensures fin.inode.kind == Regular && fout.inode.kind == Regular ==>
              && (ret == -EBADF <==> !fin.read || !fout.write || fout.append)
              && ret != -EINVAL
              && (ret == -EPERM || ret == -ETXTBSY || ret == 0 ==> (ret == -EPERM <==> fout.inode.immutable))
              && (ret == -ETXTBSY || ret == 0 ==> (ret == -ETXTBSY <==> fin.inode.swapfile || fout.inode.swapfile))
              && (ret == -EXDEV <==> && fin.read && fout.write && !fout.append && !splice
                                     && if fout.copyOp != 0 then fin.copyOp != fout.copyOp else fin.inode.sb != fout.inode.sb)
  {
    ret := GenericFileRwChecks(fin, fout);
    if ret != 0 {
      return;
    }
    if splice {
    } else if fout.copyOp != 0 {
      if fin.copyOp != fout.copyOp {
        return -EXDEV;
      }
    } else if fin.inode.sb != fout.inode.sb {
      return -EXDEV;
    }
    if fout.inode.immutable {
      return -EPERM;
    }
    if fin.inode.swapfile || fout.inode.swapfile {
      return -ETXTBSY;
    }
  }

  /** When a distance overflows the checks may pass, with a count that rw_verify_area refuses. */
  method GenericCopyFileChecks(fin: File, posIn: S64, fout: File, posOut: S64, reqCount: U64, splice: bool, rlim: U64)
    returns (ret: int, reqCount': U64)
    ensures ret == 0 <==> && KindsAllow(fin, fout, splice) && Fits(posIn, reqCount) && Fits(posOut, reqCount)
                          && posOut < WriteCap(fout, rlim)
                          && !(fin.inode == fout.inode && OverlapTest(posIn, posOut, Counted(fin, posIn, fout, posOut, reqCount, rlim)))
    ensures ret == 0 ==> reqCount' == Counted(fin, posIn, fout, posOut, reqCount, rlim)
    ensures ret == 0 && Room(fout, posOut, rlim) <==>
            KindsAllow(fin, fout, splice) && RangesAllow(fin, posIn, fout, posOut, reqCount, rlim)
    ensures ret == 0 && Room(fout, posOut, rlim) ==> reqCount' == Shortened(fin, posIn, fout, posOut, reqCount, rlim)
    ensures ret == 0 && !Room(fout, posOut, rlim) ==> TWO63 <= reqCount'
    ensures KindsAllow(fin, fout, splice) && ret != 0 ==>
              ret == if !Fits(posIn, reqCount) || !Fits(posOut, reqCount) then -EOVERFLOW
                     else if WriteCap(fout, rlim) <= posOut then -EFBIG else -EINVAL
  {
    var count: U64 := reqCount;
    reqCount' := reqCount;
    ret := CheckKinds(fin, fout, splice);
    if ret != 0 {
      return;
    }
    var wrapIn := Wraps(posIn, count);
    var wrapOut := Wraps(posOut, count);
    if wrapIn || wrapOut {
      return -EOVERFLOW, reqCount';
    }
    count := ShortenToEof(fin, posIn, count);
    ret, count := LimitCount(fout, posOut, count, rlim);
    if ret != 0 {
      return;
    }
    var overlap := Overlaps(posIn, posOut, count);
    if fin.inode == fout.inode && overlap {
      return -EINVAL, reqCount';
    }
    reqCount' := count;
  }

  /**
   vfs_copy_file_range up to the copy itself. Whenever the copy is reached, both ranges are true intervals within
   every limit, and apart on one inode.
   */
  method VfsCopyFileRange(fin: File, posIn: S64, fout: File, posOut: S64, len: U64, splice: bool, otherFlags: bool,
                          rlim: U64, hin: Hooks, hout: Hooks)
    returns (r: Outcome)
    ensures !r.Refused? <==> CopyAllowed(fin, posIn, fout, posOut, len, splice, otherFlags, rlim, hin, hout)
    ensures !r.Refused? ==> r == var n := Shortened(fin, posIn, fout, posOut, len, rlim); if n == 0 then Nothing else Copy(n)
    ensures r.Refused? ==> r.err != 0
    ensures otherFlags ==> r == Refused(-EINVAL)
    ensures !otherFlags && KindsAllow(fin, fout, splice) && !(Fits(posIn, len) && Fits(posOut, len)) ==> r == Refused(-EOVERFLOW)
    ensures !otherFlags && KindsAllow(fin, fout, splice) && Fits(posIn, len) && Fits(posOut, len) && WriteCap(fout, rlim) <= posOut ==>
              r == Refused(-EFBIG)
    ensures (posIn < 0 && !fin.unsignedOffsets) || (posOut < 0 && !fout.unsignedOffsets) ==> r.Refused?
    ensures r.Copy? ==> && 0 < r.len <= len
                        && Unsigned(posIn) + r.len < TWO64 && Unsigned(posOut) + r.len < TWO64
                        && hin == Hooks(0, 0) && hout == Hooks(0, 0)
                        && fin.inode.kind == Regular && fout.inode.kind == Regular && fin.read && fout.write && !fout.append
                        && !fout.inode.immutable && !fin.inode.swapfile && !fout.inode.swapfile
                        && (!fin.unsignedOffsets ==> 0 <= posIn && posIn + r.len < TWO63)
                        && (!fout.unsignedOffsets ==> 0 <= posOut && posOut + r.len < TWO63)
                        && posIn + r.len <= fin.inode.size
                        && posOut + r.len <= SizeCap(fout)
                        && (rlim < TWO63 ==> posOut + r.len <= rlim)
                        && (fin.inode == fout.inode ==> Disjoint(Unsigned(posIn), Unsigned(posOut), r.len))
  {
    if otherFlags {
      return Refused(-EINVAL);
    }
    var ret, n := GenericCopyFileChecks(fin, posIn, fout, posOut, len, splice, rlim);
    if ret != 0 {
      return Refused(ret);
    }
    ret := RwVerifyArea(fin, posIn, n, hin);
    if ret != 0 {
      return Refused(ret);
    }
    ret := RwVerifyArea(fout, posOut, n, hout);
    if ret != 0 {
      return Refused(ret);
    }
    if n == 0 {
      return Nothing;
    }
    return Copy(n);
  }

  ghost predicate CopyAllowed(fin: File, posIn: int, fout: File, posOut: int, len: int, splice: bool, otherFlags: bool,
                              rlim: U64, hin: Hooks, hout: Hooks) {
    && !otherFlags && KindsAllow(fin, fout, splice) && Accepts(hin) && Accepts(hout)
    && RangesAllow(fin, posIn, fout, posOut, len, rlim)
    && var n := Shortened(fin, posIn, fout, posOut, len, rlim);
       InSpace(fin, posIn, n) && InSpace(fout, posOut, n)
  }

  // ---------------------------------------------------------------------------------------------
  // Which limits bind

  /** s_maxbytes bounds every copy exactly when the output was opened with O_LARGEFILE or another cap is as tight. */
  lemma MaxBytesBoundsCopies(fin: File, fout: File, rlim: U64)
    requires KindsAllow(fin, fout, false) && 0 < fin.inode.size && (fin.inode != fout.inode || 0 < fout.inode.maxBytes)
    ensures (forall posIn: Size, posOut: Size, len: U64 ::
               CopyAllowed(fin, posIn, fout, posOut, len, false, false, rlim, Hooks(0, 0), Hooks(0, 0))
               ==> posOut + Shortened(fin, posIn, fout, posOut, len, rlim) <= fout.inode.maxBytes)
            <==> fout.largeFile || MAX_NON_LFS <= fout.inode.maxBytes || (rlim < RLIM_INFINITY && (rlim <= fout.inode.maxBytes || TWO63 <= rlim))
  {
    if !(fout.largeFile || MAX_NON_LFS <= fout.inode.maxBytes || (rlim < RLIM_INFINITY && (rlim <= fout.inode.maxBytes || TWO63 <= rlim))) {
      var posIn: Size, posOut: Size, len: U64 := 0, fout.inode.maxBytes, 1;
      assert CopyAllowed(fin, posIn, fout, posOut, len, false, false, rlim, Hooks(0, 0), Hooks(0, 0));
      assert posOut + Shortened(fin, posIn, fout, posOut, len, rlim) > fout.inode.maxBytes;
    }
  }

  /** A finite RLIMIT_FSIZE refuses every copy exactly when it is 0 or does not fit in a signed offset. */
  lemma LimitRefusesEverything(fin: File, fout: File, rlim: U64)
    requires KindsAllow(fin, fout, false) && rlim < RLIM_INFINITY && 0 < fout.inode.maxBytes
    ensures (forall posIn: Size, posOut: Size, len: U64 ::
               !CopyAllowed(fin, posIn, fout, posOut, len, false, false, rlim, Hooks(0, 0), Hooks(0, 0)))
            <==> rlim == 0 || TWO63 <= rlim
  {
    if 0 < rlim < TWO63 {
      var posIn: Size, posOut: Size, len: U64 := 0, 0, 0;
      assert CopyAllowed(fin, posIn, fout, posOut, len, false, false, rlim, Hooks(0, 0), Hooks(0, 0));
    }
  }
}
