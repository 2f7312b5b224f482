/** The by-hand vectored transfer of fs/read_write.c: one driver call per segment until one falls short. */
module VectoredIo {
  import opened Errno
  import opened MachineInt

  type Byte = bv8

  /** A driver's read or write method: it is offered a segment and answers with a count or an error. */
  type Driver<!S> = (S, seq<Byte>) -> (int, S)

  function Flat(segs: seq<seq<Byte>>): seq<Byte> {
    if segs == [] then [] else segs[0] + Flat(segs[1..])
  }

  /** iov_iter_advance: used-up segments are skipped, and with them the empty ones that follow. */
  function Advance(segs: seq<seq<Byte>>, n: nat): (rest: seq<seq<Byte>>)
    requires n <= |Flat(segs)|
    ensures |Flat(rest)| == |Flat(segs)| - n
    ensures segs != [] && |segs[0]| <= n ==> |rest| < |segs|
    ensures |rest| <= |segs|
  {
    if segs == [] then []
    else if n < |segs[0]| then [segs[0][n..]] + segs[1..]
    else Advance(segs[1..], n - |segs[0]|)
  }

  lemma {:induction false} AdvanceDrops(segs: seq<seq<Byte>>, n: nat)
    requires n <= |Flat(segs)|
    ensures Flat(Advance(segs, n)) == Flat(segs)[n..]
  {
    if segs == [] {
    } else if n < |segs[0]| {
      assert Flat(segs)[n..] == segs[0][n..] + Flat(segs[1..]);
      assert ([segs[0][n..]] + segs[1..])[1..] == segs[1..];
    } else {
      AdvanceDrops(segs[1..], n - |segs[0]|);
      assert Flat(segs)[n..] == Flat(segs[1..])[n - |segs[0]|..];
    }
  }

  /** What is returned when `nr` bytes moved and the rest of the transfer answers `rest`. */
  function Combine(nr: nat, rest: int): int {
    if 0 <= rest then nr + rest else if nr > 0 then nr else rest
  }

  /** The transfer of the first `count` bytes of `segs`, segment by segment. */
  function Transfer<S>(driver: Driver<S>, s: S, segs: seq<seq<Byte>>, count: nat): (int, S)
    requires count <= |Flat(segs)|
    decreases count, |segs|
  {
    if count == 0 then (0, s)
    else
      var len := Min(count, |segs[0]|);
      var (nr, s') := driver(s, segs[0][..len]);
      if nr != len then (nr, s')
      else
        var (rest, s'') := Transfer(driver, s', Advance(segs, len), count - len);
        (Combine(len, rest), s'')
  }

  method DoLoopReadvWritev<S>(driver: Driver<S>, s: S, segs: seq<seq<Byte>>, count: nat, otherFlags: bool)
    returns (ret: int, s': S)
    requires count <= |Flat(segs)|
    ensures otherFlags ==> ret == -EOPNOTSUPP && s' == s
    ensures !otherFlags ==> (ret, s') == Transfer(driver, s, segs, count)
  {
    ret, s' := 0, s;
    if otherFlags {
      return -EOPNOTSUPP, s;
    }
    var iter, left: nat := segs, count;
    ghost var goal := Transfer(driver, s, segs, count);
    while left > 0
      invariant 0 <= ret && left <= |Flat(iter)|
      invariant goal.0 == Combine(ret, Transfer(driver, s', iter, left).0)
      invariant goal.1 == Transfer(driver, s', iter, left).1
      decreases left, |iter|
    {
      var len := Min(left, |iter[0]|);
      var (nr, next) := driver(s', iter[0][..len]);
      s' := next;
      if nr < 0 {
        if ret == 0 {
          ret := nr;
        }
        break;
      }
      ret := ret + nr;
      if nr != len {
        break;
      }
      iter, left := Advance(iter, len), left - len;
    }
  }

  // ---------------------------------------------------------------------------------------------
  // Any driver: the sum of the transfers up to the first short one

  /** The driver calls that are made, as (offered, answered) pairs. */
  function Calls<S>(driver: Driver<S>, s: S, segs: seq<seq<Byte>>, count: nat): seq<(nat, int)>
    requires count <= |Flat(segs)|
    decreases count, |segs|
  {
    if count == 0 then []
    else
      var len := Min(count, |segs[0]|);
      var (nr, s') := driver(s, segs[0][..len]);
      if nr != len then [(len, nr)] else [(len, nr)] + Calls(driver, s', Advance(segs, len), count - len)
  }

  function Sum(calls: seq<(nat, int)>): int {
    if calls == [] then 0 else calls[0].1 + Sum(calls[1..])
  }

  /** Only the last call falls short; `ret` is the sum moved, or an error if nothing moved before it. */
  ghost predicate Explains(calls: seq<(nat, int)>, ret: int) {
    var n := |calls|;
    && (forall i :: 0 <= i < n - 1 ==> calls[i].1 == calls[i].0)
    && (n == 0 || 0 <= calls[n - 1].1 ==> ret == Sum(calls))
    && (n > 0 && calls[n - 1].1 < 0 ==>
          ret == if Sum(calls[..n - 1]) > 0 then Sum(calls[..n - 1]) else calls[n - 1].1)
  }

  lemma {:induction false} FullCallsSum(calls: seq<(nat, int)>)
    requires forall i :: 0 <= i < |calls| ==> calls[i].1 == calls[i].0
    ensures 0 <= Sum(calls)
  {
    if calls != [] {
      FullCallsSum(calls[1..]);
    }
  }

  lemma ExplainsPrepend(c: (nat, int), rest: seq<(nat, int)>, ret: int)
    requires Explains(rest, ret) && c.1 == c.0
    ensures Explains([c] + rest, Combine(c.0, ret))
  {
    var calls, n := [c] + rest, |rest|;
    assert calls[1..] == rest;
    if n > 0 {
      FullCallsSum(rest[..n - 1]);
      assert calls[..n] == [c] + rest[..n - 1];
      assert calls[..n][1..] == rest[..n - 1];
      if rest[n - 1].1 >= 0 {
        SumOfLast(rest);
      }
    }
  }

  lemma {:induction false} SumOfLast(calls: seq<(nat, int)>)
    requires calls != []
    ensures Sum(calls) == Sum(calls[..|calls| - 1]) + calls[|calls| - 1].1
  {
    if |calls| > 1 {
      SumOfLast(calls[1..]);
      assert calls[..|calls| - 1][1..] == calls[1..][..|calls| - 2];
    }
  }

  lemma {:induction false} TransferIsSumOfCalls<S>(driver: Driver<S>, s: S, segs: seq<seq<Byte>>, count: nat)
    requires count <= |Flat(segs)|
    ensures Explains(Calls(driver, s, segs, count), Transfer(driver, s, segs, count).0)
    decreases count, |segs|
  {
    if count > 0 {
      var len := Min(count, |segs[0]|);
      var (nr, s') := driver(s, segs[0][..len]);
      if nr == len {
        TransferIsSumOfCalls(driver, s', Advance(segs, len), count - len);
        ExplainsPrepend((len, nr), Calls(driver, s', Advance(segs, len), count - len),
                        Transfer(driver, s', Advance(segs, len), count - len).0);
      }
    }
  }

  // ---------------------------------------------------------------------------------------------
  // When the loop is one big transfer

  /** Offering a and then, if all of it moved, b has the effect of offering both at once. */
  ghost predicate SplitsAt<S>(driver: Driver<S>, s: S, a: seq<Byte>, b: seq<Byte>) {
    var (nr, s') := driver(s, a);
    var (rest, s'') := driver(s', b);
    driver(s, a + b) == if nr == |a| then (Combine(|a|, rest), s'') else (nr, s')
  }

  ghost predicate Splittable<S(!new)>(driver: Driver<S>) {
    && (forall s :: driver(s, []) == (0, s))
    && (forall s, a, b :: SplitsAt(driver, s, a, b))
  }

  ghost predicate LoopIsOneTransfer<S(!new)>(driver: Driver<S>) {
    forall s, segs, count: nat :: count <= |Flat(segs)| ==>
      Transfer(driver, s, segs, count) == driver(s, Flat(segs)[..count])
  }

  lemma FirstSegment(segs: seq<seq<Byte>>, count: nat)
    requires 0 < count <= |Flat(segs)|
    ensures var len := Min(count, |segs[0]|);
            Flat(segs)[..count] == segs[0][..len] + Flat(Advance(segs, len))[..count - len]
  {
    var len := Min(count, |segs[0]|);
    AdvanceDrops(segs, len);
    TakeInTwo(segs[0], Flat(segs[1..]), len, count);
  }

  lemma TakeInTwo(a: seq<Byte>, b: seq<Byte>, len: nat, count: nat)
    requires len <= |a| && len <= count <= |a + b|
    ensures (a + b)[..count] == a[..len] + (a + b)[len..][..count - len]
  {
  }

  lemma {:induction false} SplittableTransfers<S(!new)>(driver: Driver<S>, s: S, segs: seq<seq<Byte>>, count: nat)
    requires Splittable(driver) && count <= |Flat(segs)|
    ensures Transfer(driver, s, segs, count) == driver(s, Flat(segs)[..count])
    decreases count, |segs|
  {
    if count == 0 {
      assert Flat(segs)[..count] == [];
    } else {
      var len := Min(count, |segs[0]|);
      var (nr, s') := driver(s, segs[0][..len]);
      var rest := Flat(Advance(segs, len))[..count - len];
      FirstSegment(segs, count);
      assert SplitsAt(driver, s, segs[0][..len], rest);
      if nr == len {
        SplittableTransfers(driver, s', Advance(segs, len), count - len);
      }
    }
  }

  /** For every segmentation the loop is one transfer of the whole length exactly when the driver is splittable. */
  lemma LoopIsOneTransferIffSplittable<S(!new)>(driver: Driver<S>)
    ensures LoopIsOneTransfer(driver) <==> Splittable(driver)
  {
    if Splittable(driver) {
      forall s, segs, count: nat | count <= |Flat(segs)|
        ensures Transfer(driver, s, segs, count) == driver(s, Flat(segs)[..count])
      {
        SplittableTransfers(driver, s, segs, count);
      }
    }
    if LoopIsOneTransfer(driver) {
      forall s
        ensures driver(s, []) == (0, s)
      {
        assert Transfer(driver, s, [], 0) == driver(s, Flat([])[..0]);
        assert Flat([])[..0] == [];
      }
      forall s, a, b
        ensures SplitsAt(driver, s, a, b)
      {
        OneTransferSplits(driver, s, a, b);
      }
    }
  }

  lemma OneTransferSplits<S(!new)>(driver: Driver<S>, s: S, a: seq<Byte>, b: seq<Byte>)
    requires LoopIsOneTransfer(driver) && (forall s :: driver(s, []) == (0, s))
    ensures SplitsAt(driver, s, a, b)
  {
    var (nr, s') := driver(s, a);
    if b == [] {
      assert a + b == a;
    } else if a == [] {
      assert a + b == b;
    } else {
      TwoSegments(a, b);
      assert Transfer(driver, s, [a, b], |a| + |b|) == driver(s, Flat([a, b])[..|a| + |b|]);
      assert a[..|a|] == a;
      assert Transfer(driver, s', [b], |b|) == driver(s', Flat([b])[..|b|]);
    }
  }

  lemma TwoSegments(a: seq<Byte>, b: seq<Byte>)
    requires b != []
    ensures Flat([b]) == b && Flat([b])[..|b|] == b
    ensures |Flat([a, b])| == |a| + |b| && Flat([a, b])[..|a| + |b|] == a + b
    ensures Advance([a, b], |a|) == [b]
  {
    assert [a, b][1..] == [b] && [b][1..] == [];
    assert b[0..] == b;
  }

  // ---------------------------------------------------------------------------------------------
  // Byte-array files are splittable

  /** `got` collects the bytes delivered to the caller, in segment order. */
  datatype ByteFile = ByteFile(content: seq<Byte>, pos: nat, got: seq<Byte>)

  function Read(f: ByteFile, buf: seq<Byte>): (int, ByteFile) {
    var n := if f.pos < |f.content| then Min(|buf|, |f.content| - f.pos) else 0;
    (n, if n == 0 then f else f.(pos := f.pos + n, got := f.got + f.content[f.pos..f.pos + n]))
  }

  /** `content` with `data` placed at `pos`; a gap before it is filled with zeros. */
  function Overwrite(content: seq<Byte>, pos: nat, data: seq<Byte>): (r: seq<Byte>) {
    var padded := if pos <= |content| then content else content + seq(pos - |content|, _ => 0);
    padded[..pos] + data + (if pos + |data| <= |padded| then padded[pos + |data|..] else [])
  }

  /** Writes what fits below `cap`; a non-empty write with no room at all fails. */
  function WriteBelow(cap: nat, f: ByteFile, buf: seq<Byte>): (int, ByteFile) {
    if buf == [] then (0, f)
    else if cap <= f.pos then (-ENOSPC, f)
    else
      var n := Min(|buf|, cap - f.pos);
      (n, f.(content := Overwrite(f.content, f.pos, buf[..n]), pos := f.pos + n))
  }

  function Write(cap: nat): Driver<ByteFile> {
    (f: ByteFile, buf: seq<Byte>) => WriteBelow(cap, f, buf)
  }

  lemma ReadSplitsAt(f: ByteFile, a: seq<Byte>, b: seq<Byte>)
    ensures SplitsAt(Read, f, a, b)
  {
    var (nr, f') := Read(f, a);
    if nr == |a| && 0 < nr && f'.pos < |f.content| {
      var n := Min(|b|, |f.content| - f'.pos);
      assert f.content[f.pos..f'.pos] + f.content[f'.pos..f'.pos + n] == f.content[f.pos..f'.pos + n];
      assert f'.got + f.content[f'.pos..f'.pos + n] == f.got + f.content[f.pos..f'.pos + n];
    }
  }

  lemma ReadSplits()
    ensures Splittable(Read)
  {
    forall f: ByteFile, a, b
      ensures SplitsAt(Read, f, a, b)
    {
      ReadSplitsAt(f, a, b);
    }
  }

  lemma OverwriteTwice(content: seq<Byte>, pos: nat, a: seq<Byte>, b: seq<Byte>)
    ensures Overwrite(Overwrite(content, pos, a), pos + |a|, b) == Overwrite(content, pos, a + b)
  {
    var once, both := Overwrite(content, pos, a), Overwrite(content, pos, a + b);
    assert once[..pos + |a|] == both[..pos + |a|];
  }

  /** A write that fits and the write after it, joined. */
  lemma WriteJoins(cap: nat, f: ByteFile, a: seq<Byte>, b: seq<Byte>)
    requires a != [] && b != [] && f.pos + |a| <= cap
    ensures var (rest, f'') := WriteBelow(cap, WriteBelow(cap, f, a).1, b);
            WriteBelow(cap, f, a + b) == (Combine(|a|, rest), f'')
  {
    assert a[..|a|] == a;
    var n := Min(|b|, cap - (f.pos + |a|));
    assert (a + b)[..|a| + n] == a + b[..n];
    OverwriteTwice(f.content, f.pos, a, b[..n]);
    if n == 0 {
      assert a + b[..n] == a;
    }
  }

  lemma WriteSplitsAt(cap: nat, f: ByteFile, a: seq<Byte>, b: seq<Byte>)
    ensures SplitsAt(Write(cap), f, a, b)
  {
    if a == [] {
      assert a + b == b;
    } else if b == [] {
      assert a + b == a;
    } else if f.pos + |a| <= cap {
      WriteJoins(cap, f, a, b);
    } else if f.pos < cap {
      assert (a + b)[..cap - f.pos] == a[..cap - f.pos];
    }
  }

  lemma WriteSplits(cap: nat)
    ensures Splittable(Write(cap))
  {
    forall f: ByteFile, a, b
      ensures SplitsAt(Write(cap), f, a, b)
    {
      WriteSplitsAt(cap, f, a, b);
    }
  }

  /** Same count, same bytes and same final position as one read or write, for every segmentation. */
  lemma ByteFileLoopIsOneTransfer(cap: nat, f: ByteFile, segs: seq<seq<Byte>>, count: nat)
    requires count <= |Flat(segs)|
    ensures Transfer(Read, f, segs, count) == Read(f, Flat(segs)[..count])
    ensures Transfer(Write(cap), f, segs, count) == Write(cap)(f, Flat(segs)[..count])
  {
    ReadSplits();
    WriteSplits(cap);
    SplittableTransfers(Read, f, segs, count);
    SplittableTransfers(Write(cap), f, segs, count);
  }
}
