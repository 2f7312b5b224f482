/** File positions: the llseek functions of fs/read_write.c, in 64-bit arithmetic that wraps. */
module Llseek {
  import opened Errno
  import opened MachineInt

  const OFFSET_MAX: Size := TWO63 - 1

  datatype Whence = SeekSet | SeekCur | SeekEnd | SeekData | SeekHole

  // ---------------------------------------------------------------------------------------------
  // lseek over unbounded integers

  datatype Target = At(offset: int) | NoData

  datatype Outcome = To(pos: int) | Fails(err: int)

  /** Where a seek asks to go, with no arithmetic limits. */
  function Wanted(pos: int, eof: int, offset: int, whence: Whence): Target {
    match whence
    case SeekSet => At(offset)
    case SeekCur => At(pos + offset)
    case SeekEnd => At(eof + offset)
    case SeekData => if 0 <= offset < eof then At(offset) else NoData
    case SeekHole => if 0 <= offset < eof then At(eof) else NoData
  }

  /** The loff_t congruent to x modulo 2^64, for x within reach of one addition. */
  function Wrap(x: int): int {
    if x < -TWO63 then x + TWO64 else if x < TWO63 then x else x - TWO64
  }

  /**
   A position is taken if it lies in the file. A file with unsigned offsets takes positions modulo 2^64, and its
   positions of 2^63 and more, which are negative as a loff_t, are below every limit.
   */
  function Settle(x: int, max: int, unsignedOffsets: bool): Outcome {
    if unsignedOffsets then if Wrap(x) <= max then To(Wrap(x)) else Fails(-EINVAL)
    else if 0 <= x <= max then To(x) else Fails(-EINVAL)
  }

  function Answer(pos: int, max: int, eof: int, offset: int, whence: Whence, unsignedOffsets: bool): Outcome {
    match Wanted(pos, eof, offset, whence)
    case NoData => Fails(-ENXIO)
    case At(x) => if whence == SeekCur && offset == 0 then To(pos) else Settle(x, max, unsignedOffsets)
  }

  /** A seek fails with -ENXIO exactly when it looks for data or a hole outside the file, and otherwise with -EINVAL. */
  lemma SeekErrors(pos: int, max: int, eof: int, offset: int, whence: Whence, unsignedOffsets: bool)
    requires Answer(pos, max, eof, offset, whence, unsignedOffsets).Fails?
    ensures Answer(pos, max, eof, offset, whence, unsignedOffsets).err ==
              if (whence == SeekData || whence == SeekHole) && !(0 <= offset < eof) then -ENXIO else -EINVAL
  {
  }

  /** default_llseek compares offsets to data and hole with the size as signed numbers and knows no size limit. */
  function DefaultWanted(pos: int, size: int, offset: int, whence: Whence): Target {
    match whence
    case SeekSet => At(offset)
    case SeekCur => At(pos + offset)
    case SeekEnd => At(size + offset)
    case SeekData => if size <= offset then NoData else At(offset)
    case SeekHole => if size <= offset then NoData else At(size)
  }

  function DefaultAnswer(pos: int, size: int, offset: int, whence: Whence, unsignedOffsets: bool): Outcome {
    match DefaultWanted(pos, size, offset, whence)
    case NoData => Fails(-ENXIO)
    case At(x) =>
      if whence == SeekCur && offset == 0 then To(pos)
      else if unsignedOffsets then To(Wrap(x))
      else if 0 <= x < TWO63 then To(x) else Fails(-EINVAL)
  }

  /** The call returns and does what `o` says; the version is reset exactly by a move. */
  ghost predicate Seeks(o: Outcome, r: int, pos: int, version: int, pos': int, version': int) {
    && r == (if o.To? then o.pos else o.err)
    && pos' == (if o.To? then o.pos else pos)
    && version' == (if pos' != pos then 0 else version)
  }

  class OpenFile {
    var pos: S64
    var version: int
    const unsignedOffsets: bool

    ghost predicate Valid()
      reads this
    {
      unsignedOffsets || 0 <= pos
    }

    constructor (unsignedOffsets: bool)
      ensures Valid() && pos == 0 && version == 0 && this.unsignedOffsets == unsignedOffsets
    {
      pos, version, this.unsignedOffsets := 0, 0, unsignedOffsets;
    }

    method VfsSetPos(offset: S64, maxSize: S64) returns (r: S64)
      requires Valid()
      modifies this
      ensures Valid()
      ensures var o := if (offset < 0 && !unsignedOffsets) || maxSize < offset then Fails(-EINVAL) else To(offset);
              Seeks(o, r, old(pos), old(version), pos, version)
    {
      if offset < 0 && !unsignedOffsets {
        return -EINVAL;
      }
      if offset > maxSize {
        return -EINVAL;
      }
      if offset != pos {
        pos := offset;
        version := 0;
      }
      return offset;
    }

    /** A sum of two loff_t in machine arithmetic. */
    static method Sum(a: S64, b: S64) returns (w: S64)
      ensures w == Wrap(a as int + b)
    {
      w := ToS64(a as int + b);
    }

    /** The test on an unsigned offset, which also catches negative ones. */
    static method Beyond(offset: S64, eof: Size) returns (b: bool)
      ensures b <==> !(0 <= offset < eof)
    {
      b := ToU64(offset) >= eof;
    }

    /** Wrapping arithmetic gives the answer of unbounded arithmetic, modulo 2^64 on a file with unsigned offsets. */
    method GenericFileLlseekSize(offset: S64, whence: Whence, maxSize: Size, eof: Size) returns (r: S64)
      requires Valid()
      modifies this
      ensures Valid()
      ensures Seeks(Answer(old(pos), maxSize, eof, offset, whence, unsignedOffsets), r, old(pos), old(version), pos, version)
    {
      var target := offset;
      match whence {
        case SeekEnd =>
          target := Sum(offset, eof);
        case SeekCur =>
          if offset == 0 {
            return pos;
          }
          target := Sum(pos, offset);
        case SeekData =>
          var beyond := Beyond(offset, eof);
          if beyond {
            return -ENXIO;
          }
        case SeekHole =>
          var beyond := Beyond(offset, eof);
          if beyond {
            return -ENXIO;
          }
          target := eof;
        case SeekSet =>
      }
      r := VfsSetPos(target, maxSize);
    }

    method FixedSizeLlseek(offset: S64, whence: Whence, size: Size) returns (r: S64)
      requires Valid()
      modifies this
      ensures Valid()
      ensures var o := if whence == SeekData || whence == SeekHole then Fails(-EINVAL)
                       else Answer(old(pos), size, size, offset, whence, unsignedOffsets);
              Seeks(o, r, old(pos), old(version), pos, version)
    {
      match whence {
        case SeekSet | SeekCur | SeekEnd => r := GenericFileLlseekSize(offset, whence, size, size);
        case _ => r := -EINVAL;
      }
    }

    method NoSeekEndLlseekSize(offset: S64, whence: Whence, size: Size) returns (r: S64)
      requires Valid()
      modifies this
      ensures Valid()
      ensures var o := if whence == SeekSet || whence == SeekCur then Answer(old(pos), size, 0, offset, whence, unsignedOffsets)
                       else Fails(-EINVAL);
              Seeks(o, r, old(pos), old(version), pos, version)
    {
      match whence {
        case SeekSet | SeekCur => r := GenericFileLlseekSize(offset, whence, size, 0);
        case _ => r := -EINVAL;
      }
    }

    method DefaultLlseek(offset: S64, whence: Whence, size: Size) returns (r: S64)
      requires Valid()
      modifies this
      ensures Valid()
      ensures Seeks(DefaultAnswer(old(pos), size, offset, whence, unsignedOffsets), r, old(pos), old(version), pos, version)
    {
      var target := offset;
      match whence {
        case SeekEnd =>
          target := Sum(offset, size);
        case SeekCur =>
          if offset == 0 {
            return pos;
          }
          target := Sum(offset, pos);
        case SeekData =>
          if offset >= size {
            return -ENXIO;
          }
        case SeekHole =>
          if offset >= size {
            return -ENXIO;
          }
          target := size;
        case SeekSet =>
      }
      r := -EINVAL;
      if target >= 0 || unsignedOffsets {
        if target != pos {
          pos := target;
          version := 0;
        }
        r := target;
      }
    }
  }

  // ---------------------------------------------------------------------------------------------
  // Runs of seeks on one file; the end of file may move between two calls

  datatype Call = Call(eof: Size, offset: S64, whence: Whence)

  datatype Cursor = Cursor(pos: int, version: int)

  function Seek(c: Cursor, max: int, call: Call): Cursor {
    match Answer(c.pos, max, call.eof, call.offset, call.whence, false)
    case To(x) => if x != c.pos then Cursor(x, 0) else c
    case Fails(_) => c
  }

  function SeekAll(c: Cursor, max: int, calls: seq<Call>): Cursor
    decreases calls
  {
    if calls == [] then c else SeekAll(Seek(c, max, calls[0]), max, calls[1..])
  }

  /** Every run of seeks keeps the position in the file, and resets the version exactly when it moves. */
  lemma {:induction false} SeeksStayInFile(c: Cursor, max: int, calls: seq<Call>)
    requires 0 <= c.pos <= max
    ensures var c' := SeekAll(c, max, calls);
            && 0 <= c'.pos <= max
            && c'.version in {c.version, 0}
            && (c'.pos != c.pos ==> c'.version == 0)
            && (c'.version != c.version ==> exists k :: 0 <= k < |calls| && SeekAll(c, max, calls[..k + 1]).pos != SeekAll(c, max, calls[..k]).pos)
    decreases calls
  {
    if calls != [] {
      var d := Seek(c, max, calls[0]);
      SeeksStayInFile(d, max, calls[1..]);
      if SeekAll(c, max, calls).version != c.version {
        if d.pos != c.pos {
          assert calls[..1] == [calls[0]] && calls[..0] == [];
          assert SeekAll(c, max, calls[..0 + 1]).pos != SeekAll(c, max, calls[..0]).pos;
        } else {
          var k :| 0 <= k < |calls[1..]| && SeekAll(d, max, calls[1..][..k + 1]).pos != SeekAll(d, max, calls[1..][..k]).pos;
          assert calls[..k + 2][1..] == calls[1..][..k + 1] && calls[..k + 1][1..] == calls[1..][..k];
          assert SeekAll(c, max, calls[..(k + 1) + 1]).pos != SeekAll(c, max, calls[..k + 1]).pos;
        }
      }
    }
  }

  /** A seek that moved there can be undone by the opposite relative seek, and is reported by a query. */
  lemma SeekRoundTrip(c: Cursor, max: Size, call: Call)
    requires 0 <= c.pos <= max
    ensures var c' := Seek(c, max, call);
            && Answer(c'.pos, max, call.eof, 0, SeekCur, false) == To(c'.pos)
            && Seek(c', max, Call(call.eof, c.pos - c'.pos, SeekCur)).pos == c.pos
  {
  }

  /** Two relative seeks, the first successful, amount to one; on a file with unsigned offsets too. */
  lemma RelativeSeeksCompose(pos: S64, max: Size, eof: Size, a: S64, b: S64, unsignedOffsets: bool)
    requires pos <= max && (unsignedOffsets || 0 <= pos) && -TWO63 <= a as int + b < TWO63
    requires Answer(pos, max, eof, a, SeekCur, unsignedOffsets).To?
    ensures var mid := Answer(pos, max, eof, a, SeekCur, unsignedOffsets).pos;
            Answer(mid, max, eof, b, SeekCur, unsignedOffsets) == Answer(pos, max, eof, a as int + b, SeekCur, unsignedOffsets)
  {
  }

  /** The default seek gives the generic answer for an unlimited file except for negative offsets to data or hole. */
  lemma DefaultAgreesWithGeneric(pos: S64, size: Size, offset: S64, whence: Whence, unsignedOffsets: bool)
    ensures DefaultAnswer(pos, size, offset, whence, unsignedOffsets) == Answer(pos, OFFSET_MAX, size, offset, whence, unsignedOffsets)
            <==> !(offset < 0 && (whence == SeekData || whence == SeekHole))
  {
  }
}
