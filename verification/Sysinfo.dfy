/** Memory figures of the sysinfo system call (kernel/sys.c): scaling with an exact overflow test, and the 32-bit variant. */
module Sysinfo {
  import opened MachineInt
  import opened Options

  const TWO32: int := 0x1_0000_0000

  /** Memory fields count units of `unit` bytes. */
  datatype Info = Info(totalRam: U64, freeRam: U64, sharedRam: U64, bufferRam: U64, totalSwap: U64, freeSwap: U64,
                       totalHigh: U64, freeHigh: U64, unit: nat)

  function Fields(i: Info): seq<U64> {
    [i.totalRam, i.freeRam, i.sharedRam, i.bufferRam, i.totalSwap, i.freeSwap, i.totalHigh, i.freeHigh]
  }

  /** No part is larger than its total. */
  ghost predicate PartsBounded(i: Info) {
    && i.freeRam <= i.totalRam && i.sharedRam <= i.totalRam && i.bufferRam <= i.totalRam
    && i.totalHigh <= i.totalRam && i.freeHigh <= i.totalRam && i.freeSwap <= i.totalSwap
  }

  function Pow2(n: nat): (p: nat)
    ensures p >= 1
  {
    if n == 0 then 1 else 2 * Pow2(n - 1)
  }

  ghost predicate IsPow2(x: nat) {
    exists n: nat :: x == Pow2(n)
  }

  /** The bytes that field k stands for. */
  function Bytes(i: Info, k: nat): int
    requires k < 8
  {
    Fields(i)[k] * i.unit
  }

  /** p is the largest power of two not above `unit`; for unit 0 it is 1. */
  ghost predicate LeadingPower(unit: nat, p: nat) {
    IsPow2(p) && (unit == 0 ==> p == 1) && (unit > 0 ==> p <= unit < 2 * p)
  }

  lemma Double(a: nat, p: nat)
    ensures a * (2 * p) == 2 * (a * p)
  {
  }

  lemma MulMonotone(a: nat, b: nat, p: nat)
    requires a <= b
    ensures a * p <= b * p
  {
  }

  /** `memUnit` is `unit` without its last bits, p the power of two that was shifted out. */
  ghost predicate Folded(unit: nat, memUnit: nat, p: nat) {
    memUnit * p <= unit < (memUnit + 1) * p && (unit > 0 <==> memUnit > 0) && (unit == 0 ==> p == 1)
  }

  lemma Halve(unit: nat, memUnit: nat, p: nat)
    requires memUnit > 1 && Folded(unit, memUnit, p)
    ensures Folded(unit, memUnit / 2, 2 * p)
  {
    var now := memUnit / 2;
    Regroup(now, p);
    Regroup(now + 1, p);
    MulMonotone(2 * now, memUnit, p);
    MulMonotone(memUnit + 1, 2 * (now + 1), p);
  }

  lemma Regroup(a: nat, p: nat)
    ensures (2 * a) * p == a * (2 * p)
  {
  }

  lemma FoldedIsLeading(unit: nat, memUnit: nat, p: nat, n: nat)
    requires Folded(unit, memUnit, p) && memUnit <= 1 && p == Pow2(n)
    ensures p == Leading(unit)
  {
    LeadingUnique(unit, p);
  }

  lemma FoldedBelowLeading(unit: nat, memUnit: nat, p: nat, n: nat, total: nat)
    requires Folded(unit, memUnit, p) && memUnit >= 1 && p == Pow2(n)
    ensures total * p <= total * Leading(unit)
  {
    LeadingAbove(unit, memUnit, p, n, Leading(unit));
    MulMonotone(p, Leading(unit), total);
  }

  /** The source's test for a doubling that overflowed. */
  lemma DoublingWraps(t: U64)
    ensures ToU64(2 * (t as int)) < t <==> TWO64 <= 2 * t
    ensures 2 * t < TWO64 ==> ToU64(2 * (t as int)) == 2 * t
  {
  }

  /** The doubling loop: how far the unit can be folded into the total, and whether that overflows 64 bits. */
  method FoldUnit(total: U64, unit: nat) returns (overflow: bool, bitcount: nat)
    ensures overflow <==> TWO64 <= total * Leading(unit)
    ensures !overflow ==> Pow2(bitcount) == Leading(unit)
  {
    bitcount := 0;
    var memUnit, memTotal: U64 := unit, total;
    ghost var p := 1;
    while memUnit > 1
      invariant p == Pow2(bitcount) && memTotal == total * p && Folded(unit, memUnit, p)
    {
      bitcount := bitcount + 1;
      Halve(unit, memUnit, p);
      memUnit := memUnit / 2;
      var saved := memTotal;
      DoublingWraps(saved);
      Double(total, p);
      memTotal := ToU64(2 * (saved as int));
      p := 2 * p;
      if memTotal < saved {
        FoldedBelowLeading(unit, memUnit, p, bitcount, total);
        return true, bitcount;
      }
    }
    overflow := false;
    FoldedIsLeading(unit, memUnit, p, bitcount);
  }

  lemma {:induction false} LeadingExists(unit: nat) returns (p: nat)
    ensures LeadingPower(unit, p)
  {
    if unit <= 1 {
      assert 1 == Pow2(0);
      p := 1;
    } else {
      var q := LeadingExists(unit / 2);
      var n: nat :| q == Pow2(n);
      assert 2 * q == Pow2(n + 1);
      p := 2 * q;
    }
  }

  ghost function Leading(unit: nat): (p: nat)
    ensures LeadingPower(unit, p)
  {
    assert exists p: nat :: LeadingPower(unit, p) by {
      var p := LeadingExists(unit);
    }
    var p: nat :| LeadingPower(unit, p);
    p
  }

  lemma LeadingUnique(unit: nat, p: nat)
    requires LeadingPower(unit, p)
    ensures p == Leading(unit)
  {
    if unit > 0 {
      var n: nat :| p == Pow2(n);
      var m: nat :| Leading(unit) == Pow2(m);
      LeadingAbove(unit, 1, p, n, Leading(unit));
      LeadingAbove(unit, 1, Leading(unit), m, p);
    }
  }

  lemma LeadingAbove(unit: nat, k: nat, p: nat, n: nat, q: nat)
    requires k > 0 && p == Pow2(n) && k * p <= unit && LeadingPower(unit, q)
    ensures p <= q
  {
    MulMonotone(1, k, p);
    var m: nat :| q == Pow2(m);
    if m < n {
      Pow2Grows(m + 1, n);
    } else {
      Pow2Grows(n, m);
    }
  }

  lemma {:induction false} Pow2Grows(m: nat, n: nat)
    requires m <= n
    ensures Pow2(m) <= Pow2(n)
  {
    if m < n {
      Pow2Grows(m, n - 1);
    }
  }

  // ---------------------------------------------------------------------------------------------
  // do_sysinfo

  /** Every field multiplied by p, in unbounded arithmetic. */
  ghost predicate ScaledBy(i: Info, p: nat, out: Info) {
    out.unit == 1 && forall k :: 0 <= k < 8 ==> Fields(out)[k] == Fields(i)[k] * p
  }

  function Shl(x: U64, bitcount: nat): U64 {
    ToU64(x * Pow2(bitcount))
  }

  /** Every field multiplied by p, modulo 2^64. */
  ghost predicate ShiftedBy(i: Info, p: nat, out: Info) {
    out.unit == 1 && forall k :: 0 <= k < 8 ==> Fields(out)[k] == ToU64(Fields(i)[k] * p)
  }

  /**
   Folds the unit into the figures unless ram plus swap would overflow 64 bits, and then leaves them alone. The
   test is exact: the figures are scaled exactly when the scaled total fits. Figures that are parts of their totals
   are then scaled without loss.
   */
  method DoSysinfo(info: Info) returns (out: Info)
    ensures var fits := (info.totalRam + info.totalSwap) * Leading(info.unit) < TWO64;
            && (if fits then ShiftedBy(info, Leading(info.unit), out) else out == info)
            && (fits && PartsBounded(info) ==> ScaledBy(info, Leading(info.unit), out))
  {
    out := info;
    var memTotal := ToU64((info.totalRam as int) + info.totalSwap);
    if memTotal < info.totalRam || memTotal < info.totalSwap {
      MulMonotone(1, Leading(info.unit), (info.totalRam as int) + info.totalSwap);
      return;
    }
    var overflow, b := FoldUnit(memTotal, info.unit);
    if overflow {
      return;
    }
    out := ShiftLeft(info, b);
    if PartsBounded(info) {
      PartsFit(info, Pow2(b));
      ShiftExact(info, b, out);
    }
  }

  lemma ShlExact(x: U64, b: nat)
    requires x * Pow2(b) < TWO64
    ensures Shl(x, b) == x * Pow2(b)
  {
    MulMonotone(0, x, Pow2(b));
  }

  method ShiftLeft(i: Info, b: nat) returns (out: Info)
    ensures ShiftedBy(i, Pow2(b), out)
  {
    out := Info(Shl(i.totalRam, b), Shl(i.freeRam, b), Shl(i.sharedRam, b), Shl(i.bufferRam, b),
                Shl(i.totalSwap, b), Shl(i.freeSwap, b), Shl(i.totalHigh, b), Shl(i.freeHigh, b), 1);
    forall k | 0 <= k < 8
      ensures Fields(out)[k] == ToU64(Fields(i)[k] * Pow2(b))
    {
      assert Fields(out)[k] == Shl(Fields(i)[k], b);
    }
  }

  lemma ShiftExact(i: Info, b: nat, out: Info)
    requires ShiftedBy(i, Pow2(b), out) && forall k :: 0 <= k < 8 ==> Fields(i)[k] * Pow2(b) < TWO64
    ensures ScaledBy(i, Pow2(b), out)
  {
    forall k | 0 <= k < 8
      ensures Fields(out)[k] == Fields(i)[k] * Pow2(b)
    {
      ShlExact(Fields(i)[k], b);
    }
  }

  lemma PartsFit(i: Info, p: nat)
    requires PartsBounded(i) && ((i.totalRam as int) + i.totalSwap) * p < TWO64
    ensures forall k :: 0 <= k < 8 ==> Fields(i)[k] * p < TWO64
  {
    forall k | 0 <= k < 8
      ensures Fields(i)[k] * p < TWO64
    {
      MulMonotone(Fields(i)[k], (i.totalRam as int) + i.totalSwap, p);
    }
  }

  /** Scaling keeps the bytes of every field exactly when the unit is a power of two, or there is nothing to count. */
  lemma ScalingKeepsBytes(i: Info, out: Info)
    requires ScaledBy(i, Leading(i.unit), out)
    ensures (forall k :: 0 <= k < 8 ==> Bytes(out, k) == Bytes(i, k))
            <==> IsPow2(i.unit) || (forall k :: 0 <= k < 8 ==> Fields(i)[k] == 0)
  {
    var p := Leading(i.unit);
    if IsPow2(i.unit) {
      PowerIsItsLeading(i.unit);
    } else {
      forall k | 0 <= k < 8 && Bytes(out, k) == Bytes(i, k)
        ensures Fields(i)[k] == 0
      {
        var f: nat := Fields(i)[k];
        assert f * p == f * i.unit;
        if f > 0 {
          SameProduct(f, p, i.unit);
        }
      }
    }
  }

  lemma SameProduct(f: nat, a: nat, b: nat)
    requires f > 0 && f * a == f * b
    ensures a == b
  {
    if a < b {
      MulMonotone(a + 1, b, f);
    } else if b < a {
      MulMonotone(b + 1, a, f);
    }
  }

  lemma PowerIsItsLeading(unit: nat)
    requires IsPow2(unit)
    ensures Leading(unit) == unit
  {
    LeadingUnique(unit, unit);
  }

  // ---------------------------------------------------------------------------------------------
  // The 32-bit variant

  /** The rescaling loop: the smallest power of two that lifts the unit to a page. */
  method LiftToPage(unit: nat, page: nat) returns (lifted: nat, bitcount: nat)
    requires 0 < unit
    ensures lifted == unit * Pow2(bitcount) && page <= lifted
    ensures if page <= unit then lifted == unit else lifted < 2 * page
    ensures IsPow2(unit) && IsPow2(page) && unit <= page ==> lifted == page
  {
    lifted, bitcount := unit, 0;
    while lifted < page
      invariant lifted == unit * Pow2(bitcount)
      invariant bitcount > 0 ==> unit * Pow2(bitcount - 1) < page
      decreases page - lifted
    {
      Double(unit, Pow2(bitcount));
      MulMonotone(1, Pow2(bitcount), unit);
      lifted := lifted * 2;
      bitcount := bitcount + 1;
    }
    LiftedBounds(unit, page, bitcount);
    if IsPow2(unit) && IsPow2(page) && unit < page {
      LiftedPower(unit, page, bitcount);
    }
  }

  lemma LiftedBounds(unit: nat, page: nat, b: nat)
    requires 0 < unit && page <= unit * Pow2(b) && (b > 0 ==> unit * Pow2(b - 1) < page)
    ensures if page <= unit then unit * Pow2(b) == unit else unit * Pow2(b) < 2 * page
  {
    if b > 0 {
      Double(unit, Pow2(b - 1));
      MulMonotone(1, Pow2(b - 1), unit);
    }
  }

  lemma LiftedPower(unit: nat, page: nat, b: nat)
    requires IsPow2(unit) && IsPow2(page) && page <= unit * Pow2(b) < 2 * page
    ensures unit * Pow2(b) == page
  {
    var a: nat :| unit == Pow2(a);
    var c: nat :| page == Pow2(c);
    LiftedUnitIsPage(a, b, c);
  }

  function Shr(x: U64, bitcount: nat): (r: U64)
    ensures r * Pow2(bitcount) <= x < (r + 1) * Pow2(bitcount)
  {
    Quotient(x, Pow2(bitcount));
    x / Pow2(bitcount)
  }

  lemma Quotient(x: nat, p: nat)
    requires p > 0
    ensures 0 <= x / p <= x && (x / p) * p <= x < (x / p + 1) * p
  {
    var q, r := x / p, x % p;
    assert x == p * q + r;
    MulMonotone(1, p, q);
  }

  ghost predicate Large(s: Info) {
    s.totalRam >= TWO32 || s.totalSwap >= TWO32
  }

  /** The unit after n rounds of the lifting loop. */
  function Doubled(unit: nat, n: nat): nat {
    if n == 0 then unit else 2 * Doubled(unit, n - 1)
  }

  /** Some number of rounds brings the unit to a page, so that the loop is left. */
  ghost predicate LoopEnds(unit: nat, page: nat) {
    exists n: nat :: page <= Doubled(unit, n)
  }

  lemma {:induction false} DoubledIs(unit: nat, n: nat)
    ensures Doubled(unit, n) == unit * Pow2(n)
  {
    if n > 0 {
      DoubledIs(unit, n - 1);
      Double(unit, Pow2(n - 1));
    }
  }

  lemma {:induction false} Pow2Above(n: nat)
    ensures n < Pow2(n)
  {
    if n > 0 {
      Pow2Above(n - 1);
    }
  }

  /** No number of doublings brings 0 to a page; every other unit gets there. */
  lemma LoopEndsExactly(unit: nat, page: nat)
    requires 0 < page
    ensures LoopEnds(unit, page) <==> unit > 0
  {
    if unit == 0 {
      forall n: nat
        ensures Doubled(unit, n) < page
      {
        DoubledIs(unit, n);
      }
    } else {
      DoubledIs(unit, page);
      Pow2Above(page);
      MulMonotone(1, unit, Pow2(page));
    }
  }

  /**
   Compat sysinfo before the final narrowing: each field loses less than one new unit. The answer is missing when
   the lifting loop does not end.
   */
  method CompatRescale(s: Info, page: nat) returns (r: Option<Info>)
    requires 0 < page
    ensures r.None? <==> Large(s) && !LoopEnds(s.unit, page)
    ensures r.Some? && !Large(s) ==> r.value == s
    ensures r.Some? && Large(s) ==>
              && page <= r.value.unit && (if page <= s.unit then r.value.unit == s.unit else r.value.unit < 2 * page)
              && (exists b: nat :: r.value.unit == s.unit * Pow2(b))
              && (IsPow2(s.unit) && IsPow2(page) && s.unit <= page ==> r.value.unit == page)
    ensures r.Some? && 0 < s.unit ==> Close(s, r.value)
  {
    LoopEndsExactly(s.unit, page);
    if s.totalRam >= TWO32 || s.totalSwap >= TWO32 {
      if s.unit == 0 {  // the loop goes on forever
        return None;
      }
      var unit, b := LiftToPage(s.unit, page);
      var out := ShiftRight(s, b, unit);
      r := Some(out);
    } else {
      r := Some(s);
    }
  }

  /** No field says more than is true, and none falls short by as much as one unit. */
  ghost predicate Close(s: Info, out: Info) {
    forall k :: 0 <= k < 8 ==> 0 <= Bytes(s, k) - Bytes(out, k) < out.unit
  }

  method ShiftRight(s: Info, b: nat, unit: nat) returns (out: Info)
    requires 0 < s.unit && unit == s.unit * Pow2(b)
    ensures out.unit == unit
    ensures forall k :: 0 <= k < 8 ==> 0 <= Bytes(s, k) - Bytes(out, k) < unit
  {
    out := Info(Shr(s.totalRam, b), Shr(s.freeRam, b), Shr(s.sharedRam, b), Shr(s.bufferRam, b),
                Shr(s.totalSwap, b), Shr(s.freeSwap, b), Shr(s.totalHigh, b), Shr(s.freeHigh, b), unit);
    forall k | 0 <= k < 8
      ensures 0 <= Bytes(s, k) - Bytes(out, k) < unit
    {
      assert Fields(out)[k] == Shr(Fields(s)[k], b);
      LossBelowUnit(Fields(s)[k], Fields(out)[k], s.unit, Pow2(b));
    }
  }

  lemma LossBelowUnit(x: nat, y: nat, unit: nat, p: nat)
    requires y * p <= x < (y + 1) * p && unit > 0
    ensures 0 <= x * unit - y * (unit * p) < unit * p
  {
    MulMonotone(y * p, x, unit);
    MulMonotone(x + 1, (y + 1) * p, unit);
    assert (y * p) * unit == y * (unit * p);
    assert ((y + 1) * p) * unit == (y + 1) * (unit * p) == y * (unit * p) + unit * p;
    assert (x + 1) * unit == x * unit + unit;
  }

  /** With a power-of-two unit and page the loss is less than one page per field. */
  lemma {:induction false} LiftedUnitIsPage(a: nat, n: nat, c: nat)
    requires Pow2(c) <= Pow2(a) * Pow2(n) < 2 * Pow2(c)
    ensures Pow2(a) * Pow2(n) == Pow2(c)
  {
    Pow2Adds(a, n);
    if a + n < c {
      Pow2Grows(a + n + 1, c);
    } else if c < a + n {
      Pow2Grows(c + 1, a + n);
    }
  }

  lemma {:induction false} Pow2Adds(a: nat, n: nat)
    ensures Pow2(a) * Pow2(n) == Pow2(a + n)
  {
    if n > 0 {
      Pow2Adds(a, n - 1);
      Double(Pow2(a), Pow2(n - 1));
    }
  }

  /** The whole units in each figure, as far as 32 bits show them. */
  ghost predicate ShowsUnits(s: Info, out: Info) {
    0 < out.unit && forall k :: 0 <= k < 8 ==> Fields(out)[k] == (Bytes(s, k) / out.unit) % TWO32
  }

  lemma DivisionIs(x: nat, y: nat, unit: nat)
    requires 0 < unit && 0 <= x - y * unit < unit
    ensures x / unit == y
  {
    Quotient(x, unit);
    var q := x / unit;
    if q < y {
      MulMonotone(q + 1, y, unit);
    } else if y < q {
      MulMonotone(y + 1, q, unit);
    }
  }

  lemma NarrowShowsUnits(s: Info, w: Info)
    requires Close(s, w) && 0 < w.unit
    ensures ShowsUnits(s, Narrow(w))
  {
    forall k | 0 <= k < 8
      ensures Fields(Narrow(w))[k] == (Bytes(s, k) / w.unit) % TWO32
    {
      DivisionIs(Bytes(s, k), Fields(w)[k], w.unit);
      assert Fields(Narrow(w))[k] == Fields(w)[k] % TWO32;
    }
  }

  /** The unit of the answer: the record's own for small totals, and one of about a page otherwise. */
  ghost predicate UnitOfAnswer(s: Info, page: nat, unit: nat) {
    if !Large(s) then unit == s.unit
    else
      && (exists b: nat :: unit == s.unit * Pow2(b))
      && page <= unit && (if page <= s.unit then unit == s.unit else unit < 2 * page)
      && (IsPow2(s.unit) && IsPow2(page) && s.unit <= page ==> unit == page)
  }

  /** The final assignment to 32-bit fields. */
  function Narrow(i: Info): Info {
    Info(i.totalRam % TWO32, i.freeRam % TWO32, i.sharedRam % TWO32, i.bufferRam % TWO32,
         i.totalSwap % TWO32, i.freeSwap % TWO32, i.totalHigh % TWO32, i.freeHigh % TWO32, i.unit)
  }

  /**
   The 32-bit variant from the record that do_sysinfo leaves, for a unit and a page that are powers of two. The answer
   is true to less than one of its units exactly when both totals are below 2^32 pages; beyond that the narrowing cuts
   them off silently.
   */
  method CompatSysinfo(s: Info, page: nat) returns (r: Option<Info>)
    requires 0 < page
    ensures r.None? <==> Large(s) && !LoopEnds(s.unit, page)
    ensures r.Some? ==> UnitOfAnswer(s, page, r.value.unit) && (0 < s.unit ==> ShowsUnits(s, r.value))
    ensures !Large(s) && PartsBounded(s) ==> r == Some(s)
    ensures PartsBounded(s) && IsPow2(s.unit) && IsPow2(page) && s.unit <= page ==>
              (r.Some? && Close(s, r.value) <==> Bytes(s, 0) < TWO32 * page && Bytes(s, 4) < TWO32 * page)
  {
    var wide := CompatRescale(s, page);
    PowerPositive(s.unit);
    LoopEndsExactly(s.unit, page);
    if wide.None? {
      return None;
    }
    var w := wide.value;
    r := Some(Narrow(w));
    if 0 < s.unit {
      NarrowShowsUnits(s, w);
    }
    if !Large(s) && PartsBounded(s) {
      NarrowSame(s);
    }
    if PartsBounded(s) && IsPow2(s.unit) && IsPow2(page) && s.unit <= page {
      NarrowedTrueExactly(s, w, page);
    }
  }

  /**
   The whole system call, told from the record that si_meminfo and si_swapinfo fill. It never answers exactly when that
   record has unit 0 and ram plus swap do not fit 64 bits.
   */
  method CompatSyscall(info: Info, page: nat) returns (r: Option<Info>)
    requires 0 < page
    ensures r.None? <==> info.unit == 0 && TWO64 <= info.totalRam as int + info.totalSwap
    ensures PartsBounded(info) && SmallScaled(info) ==> r.Some? && ScaledBy(info, Leading(info.unit), r.value)
    ensures PartsBounded(info) && IsPow2(info.unit) && IsPow2(page) && info.unit <= page ==>
              && r.Some? && r.value.unit == UnitFor(info, page) && ShowsUnits(info, r.value)
              && (Close(info, r.value) <==> Bytes(info, 0) < TWO32 * page && Bytes(info, 4) < TWO32 * page)
  {
    var s := DoSysinfo(info);
    r := CompatSysinfo(s, page);
    NeverAnswers(info, s, page);
    if PartsBounded(info) && SmallScaled(info) {
      SmallFits(info);
      SmallStays(info, s);
    }
    if PartsBounded(info) && IsPow2(info.unit) && IsPow2(page) && info.unit <= page {
      PowerIsItsLeading(info.unit);
      if (info.totalRam + info.totalSwap) * info.unit < TWO64 {
        assert IsPow2(s.unit) by {
          assert s.unit == 1 == Pow2(0);
        }
        ToldFromRecord(info, s, page, r.value);
      } else {
        PowerPositive(info.unit);
        assert s == info;
      }
    }
  }

  lemma NeverAnswers(info: Info, s: Info, page: nat)
    requires 0 < page
    requires if (info.totalRam + info.totalSwap) * Leading(info.unit) < TWO64 then s.unit == 1 else s == info
    ensures Large(s) && !LoopEnds(s.unit, page) <==> info.unit == 0 && TWO64 <= info.totalRam as int + info.totalSwap
  {
    LoopEndsExactly(s.unit, page);
  }

  lemma SmallStays(info: Info, s: Info)
    requires PartsBounded(info) && SmallScaled(info) && ScaledBy(info, Leading(info.unit), s)
    ensures PartsBounded(s) && !Large(s)
  {
    ScaledStaysBounded(info, Leading(info.unit), s);
    assert Fields(s)[0] == s.totalRam && Fields(s)[4] == s.totalSwap;
  }

  /** Both totals, scaled, fit 32 bits. */
  ghost predicate SmallScaled(info: Info) {
    info.totalRam * Leading(info.unit) < TWO32 && info.totalSwap * Leading(info.unit) < TWO32
  }

  lemma SmallFits(info: Info)
    requires SmallScaled(info)
    ensures (info.totalRam + info.totalSwap) * Leading(info.unit) < TWO64
  {
    Spread(info.totalRam, info.totalSwap, Leading(info.unit));
  }

  lemma Spread(a: nat, b: nat, p: nat)
    ensures (a + b) * p == a * p + b * p
  {
  }

  /** The unit of the whole call's answer, for powers of two: bytes, the record's unit, or pages. */
  function UnitFor(info: Info, page: nat): nat {
    if (info.totalRam + info.totalSwap) * info.unit < TWO64
    then if info.totalRam * info.unit < TWO32 && info.totalSwap * info.unit < TWO32 then 1 else page
    else if info.totalRam < TWO32 && info.totalSwap < TWO32 then info.unit else page
  }

  /** The answer for a scaled record, told from the record before. */
  lemma ToldFromRecord(info: Info, s: Info, page: nat, out: Info)
    requires PartsBounded(info) && IsPow2(info.unit) && IsPow2(page) && info.unit <= page
    requires (info.totalRam + info.totalSwap) * info.unit < TWO64 && ScaledBy(info, Leading(info.unit), s)
    requires UnitOfAnswer(s, page, out.unit) && ShowsUnits(s, out)
    requires PartsBounded(s) ==> (Close(s, out) <==> Bytes(s, 0) < TWO32 * page && Bytes(s, 4) < TWO32 * page)
    ensures out.unit == UnitFor(info, page) && ShowsUnits(info, out)
    ensures Close(info, out) <==> Bytes(info, 0) < TWO32 * page && Bytes(info, 4) < TWO32 * page
  {
    PowerIsItsLeading(info.unit);
    ScaledStaysBounded(info, info.unit, s);
    ScalingKeepsBytes(info, s);
    assert 1 == Pow2(0);
    PowerPositive(page);
    assert Fields(s)[0] == s.totalRam && Fields(s)[4] == s.totalSwap;
    SameBytesClose(info, s, out);
  }

  lemma ScaledStaysBounded(i: Info, p: nat, out: Info)
    requires PartsBounded(i) && ScaledBy(i, p, out)
    ensures PartsBounded(out)
  {
    assert forall k :: 0 <= k < 8 ==> Fields(out)[k] == Fields(i)[k] * p;
    assert out.totalRam == Fields(out)[0] && out.freeRam == Fields(out)[1] && out.sharedRam == Fields(out)[2]
        && out.bufferRam == Fields(out)[3] && out.totalSwap == Fields(out)[4] && out.freeSwap == Fields(out)[5]
        && out.totalHigh == Fields(out)[6] && out.freeHigh == Fields(out)[7];
    MulMonotone(i.freeRam, i.totalRam, p);
    MulMonotone(i.sharedRam, i.totalRam, p);
    MulMonotone(i.bufferRam, i.totalRam, p);
    MulMonotone(i.totalHigh, i.totalRam, p);
    MulMonotone(i.freeHigh, i.totalRam, p);
    MulMonotone(i.freeSwap, i.totalSwap, p);
  }

  lemma SameBytesClose(i: Info, s: Info, out: Info)
    requires forall k :: 0 <= k < 8 ==> Bytes(s, k) == Bytes(i, k)
    ensures Close(i, out) <==> Close(s, out)
  {
  }

  lemma PowerPositive(unit: nat)
    ensures IsPow2(unit) ==> unit > 0
  {
  }

  /** The rescaled record, narrowed, against the input. */
  lemma NarrowedTrueExactly(s: Info, w: Info, page: nat)
    requires PartsBounded(s) && Close(s, w) && 0 < s.unit <= page
    requires if Large(s) then w.unit == page else w == s
    ensures Close(s, Narrow(w)) <==> Bytes(s, 0) < TWO32 * page && Bytes(s, 4) < TWO32 * page
  {
    if !Large(s) {
      BelowInUnits(s.totalRam, TWO32, s.unit);
      BelowInUnits(s.totalSwap, TWO32, s.unit);
      MulMonotone(s.unit, page, TWO32);
      NarrowSame(s);
    } else {
      forall k | 0 <= k < 8
        ensures Fields(w)[k] < TWO32 <==> Bytes(s, k) < TWO32 * page
      {
        FieldFits(Bytes(s, k), Fields(w)[k], page);
      }
      if Fields(w)[0] < TWO32 && Fields(w)[4] < TWO32 {
        PartsBelow(s, w, page);
        NarrowAll(w);
      } else {
        var k := if Fields(w)[0] < TWO32 then 4 else 0;
        CutOff(Bytes(s, k), Fields(w)[k], page);
        assert Fields(Narrow(w))[k] == Fields(w)[k] % TWO32;
      }
    }
  }

  lemma FieldFits(bytes: nat, x: nat, unit: nat)
    requires 0 < unit && 0 <= bytes - x * unit < unit
    ensures x < TWO32 <==> bytes < TWO32 * unit
  {
    if x < TWO32 {
      MulMonotone(x + 1, TWO32, unit);
      assert (x + 1) * unit == x * unit + unit;
    } else {
      MulMonotone(TWO32, x, unit);
    }
  }

  lemma CutOff(bytes: nat, x: nat, unit: nat)
    requires 0 < unit && 0 <= bytes - x * unit && TWO32 <= x
    ensures unit <= bytes - (x % TWO32) * unit
  {
    MulMonotone(x % TWO32 + 1, x, unit);
    assert (x % TWO32 + 1) * unit == (x % TWO32) * unit + unit;
  }

  lemma PartsBelow(s: Info, w: Info, page: nat)
    requires PartsBounded(s) && Bytes(s, 0) < TWO32 * page && Bytes(s, 4) < TWO32 * page
    requires forall k :: 0 <= k < 8 ==> (Fields(w)[k] < TWO32 <==> Bytes(s, k) < TWO32 * page)
    ensures forall k :: 0 <= k < 8 ==> Fields(w)[k] < TWO32
  {
    forall k | 0 <= k < 8
      ensures Bytes(s, k) < TWO32 * page
    {
      if k == 4 || k == 5 {
        MulMonotone(Fields(s)[k], s.totalSwap, s.unit);
      } else {
        MulMonotone(Fields(s)[k], s.totalRam, s.unit);
      }
    }
  }

  lemma NarrowAll(w: Info)
    requires forall k :: 0 <= k < 8 ==> Fields(w)[k] < TWO32
    ensures Narrow(w) == w
  {
    assert Fields(w)[0] < TWO32 && Fields(w)[1] < TWO32 && Fields(w)[2] < TWO32 && Fields(w)[3] < TWO32
        && Fields(w)[4] < TWO32 && Fields(w)[5] < TWO32 && Fields(w)[6] < TWO32 && Fields(w)[7] < TWO32;
  }

  lemma NarrowSame(i: Info)
    requires PartsBounded(i)
    ensures i.totalRam < TWO32 && i.totalSwap < TWO32 ==> Narrow(i) == i
  {
  }

  lemma BelowInUnits(x: nat, y: nat, unit: nat)
    requires unit > 0
    ensures x < y <==> x * unit < y * unit
  {
    if x < y {
      MulMonotone(x + 1, y, unit);
    } else {
      MulMonotone(y, x, unit);
    }
  }
}
