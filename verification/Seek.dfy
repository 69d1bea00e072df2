/** Seeking: vfs_setpos, generic_file_llseek_size and default_llseek on wrapping offsets (fs/read_write.c). */
module Seek {
  import opened Machine

  const SEEK_SET: int := 0
  const SEEK_CUR: int := 1
  const SEEK_END: int := 2
  const SEEK_DATA: int := 3
  const SEEK_HOLE: int := 4

  /** Where a seek leads, on unbounded integers. */
  function Target(pos: int, offset: int, whence: int, eof: int): int {
    if whence == SEEK_END then offset + eof
    else if whence == SEEK_CUR then pos + offset
    else if whence == SEEK_HOLE then eof
    else offset
  }

  predicate LooksForData(whence: int) {
    whence == SEEK_DATA || whence == SEEK_HOLE
  }

  /** What a seek on a file with signed offsets returns: its target, or the error that names what is wrong. */
  function SeekResult(pos: int, offset: int, whence: int, maxsize: int, eof: int): int {
    var t := Target(pos, offset, whence, eof);
    if LooksForData(whence) && !(0 <= offset < eof) then -ENXIO
    else if 0 <= t <= maxsize then t
    else -EINVAL
  }

  /** The same on 64-bit words, for signed and unsigned offsets alike: only the upper bound, compared as
      signed, limits an unsigned offset. */
  function WordResult(unsignedOffsets: bool, pos: i64, offset: i64, whence: int, maxsize: i64, eof: i64): i64 {
    if LooksForData(whence) && U64(offset) >= U64(eof) then -ENXIO
    else if whence == SEEK_CUR && offset == 0 then pos
    else SetposResult(unsignedOffsets, I64(Target(pos, offset, whence, eof)), maxsize)
  }

  function SetposResult(unsignedOffsets: bool, offset: i64, maxsize: i64): i64 {
    if (offset < 0 && !unsignedOffsets) || offset > maxsize then -EINVAL else offset
  }

  /** On signed offsets wrap-around never shows: words and integers give the same result. */
  lemma WordResultIsExact(pos: i64, offset: i64, whence: int, maxsize: i64, eof: i64)
    requires 0 <= pos <= maxsize && 0 <= eof
    ensures WordResult(false, pos, offset, whence, maxsize, eof) == SeekResult(pos, offset, whence, maxsize, eof)
  {
    var t := Target(pos, offset, whence, eof);
    assert -TWO63 <= t < TWO64;
    assert t >= TWO63 ==> I64(t) == t - TWO64;
  }

  /** On unsigned offsets a seek only fails above the bound, read as a signed number, and otherwise goes where the sum
      leads modulo 2^64. */
  lemma UnsignedSeekInNumbers(pos: i64, offset: i64, whence: int, maxsize: i64, eof: i64)
    requires whence != SEEK_DATA && whence != SEEK_HOLE && 0 <= eof
    ensures var r := WordResult(true, pos, offset, whence, maxsize, eof);
            var sum := if whence == SEEK_END then offset + eof as int
                       else if whence == SEEK_CUR then pos as int + offset else offset;
            var word := if sum >= TWO63 then sum - TWO64 else if sum < -TWO63 then sum + TWO64 else sum;
            r == if word <= maxsize || (whence == SEEK_CUR && offset == 0) then word else -EINVAL
  {
  }

  /** What default_llseek returns on signed offsets: no upper bound, and negative data offsets are not caught. */
  function DefaultResult(pos: int, offset: int, whence: int, size: int): int {
    var t := Target(pos, offset, whence, size);
    if LooksForData(whence) && offset >= size then -ENXIO
    else if 0 <= t < TWO63 then t
    else -EINVAL
  }

  function PosAfter(pos: int, result: int): int {
    if result >= 0 then result else pos
  }

  class File {
    const unsignedOffsets: bool
    var pos: i64
    var version: int

    method VfsSetpos(offset: i64, maxsize: i64) returns (r: i64)
      modifies this
      ensures r == SetposResult(unsignedOffsets, offset, maxsize)
      ensures pos == if (offset < 0 && !unsignedOffsets) || offset > maxsize then old(pos) else offset
      ensures version == if pos == old(pos) then old(version) else 0
    {
      if offset < 0 && !unsignedOffsets {
        return -EINVAL;
      }
      if offset > maxsize {
        return -EINVAL;
      }
      if offset != pos {
        pos := offset;
        version := 0;
      }
      return offset;
    }

    method GenericFileLlseekSize(offset0: i64, whence: int, maxsize: i64, eof: i64) returns (r: i64)
      modifies this
      ensures r == WordResult(unsignedOffsets, old(pos), offset0, whence, maxsize, eof)
      ensures pos == r || (pos == old(pos) && (r == -EINVAL || r == -ENXIO))
      ensures !unsignedOffsets && 0 <= old(pos) ==> pos == PosAfter(old(pos), r)
      ensures version == if pos == old(pos) then old(version) else 0
    {
      var offset: i64 := offset0;
      if whence == SEEK_END {
        offset := I64(offset0 + eof as int);
      } else if whence == SEEK_CUR {
        if offset == 0 {
          return pos;
        }
        r := VfsSetpos(I64(pos as int + offset0), maxsize);
        return;
      } else if whence == SEEK_DATA {
        if U64(offset) >= U64(eof) {
          return -ENXIO;
        }
      } else if whence == SEEK_HOLE {
        if U64(offset) >= U64(eof) {
          return -ENXIO;
        }
        offset := eof;
      }
      r := VfsSetpos(offset, maxsize);
    }

    /** The variant that takes both limits from the inode. */
    method GenericFileLlseek(offset: i64, whence: int, maxBytes: i64, size: i64) returns (r: i64)
      requires 0 <= size && !unsignedOffsets && 0 <= pos <= maxBytes
      modifies this
      ensures r == SeekResult(old(pos), offset, whence, maxBytes, size)
      ensures pos == PosAfter(old(pos), r) && 0 <= pos <= maxBytes
      // Whence by whence, in numbers.
      ensures whence == SEEK_END ==>
                r == if 0 <= offset + size as int <= maxBytes then offset + size as int else -EINVAL
      ensures whence == SEEK_CUR ==>
                r == if 0 <= old(pos) as int + offset <= maxBytes then old(pos) as int + offset else -EINVAL
      ensures whence == SEEK_DATA ==>
                r == if !(0 <= offset < size) then -ENXIO else if offset <= maxBytes then offset else -EINVAL
      ensures whence == SEEK_HOLE ==>
                r == if !(0 <= offset < size) then -ENXIO else if size <= maxBytes then size else -EINVAL
      ensures whence < SEEK_CUR || whence > SEEK_HOLE ==> r == if 0 <= offset <= maxBytes then offset else -EINVAL
      ensures pos == if r >= 0 then r else old(pos)
    {
      WordResultIsExact(pos, offset, whence, maxBytes, size);
      r := GenericFileLlseekSize(offset, whence, maxBytes, size);
    }

    /** Any run of seeks; the size of the file may differ from call to call. */
    method SeekAll(maxBytes: i64, calls: seq<Call>) returns (results: seq<int>)
      requires !unsignedOffsets && 0 <= pos <= maxBytes && SizesExist(calls)
      modifies this
      ensures results == Results(old(pos), maxBytes, calls)
      ensures pos == Run(old(pos), maxBytes, calls) && 0 <= pos <= maxBytes
    {
      results := [];
      var i := 0;
      while i < |calls|
        invariant 0 <= i <= |calls| && 0 <= pos <= maxBytes
        invariant results == Results(old(pos), maxBytes, calls[..i]) && pos == Run(old(pos), maxBytes, calls[..i])
      {
        assert calls[..i + 1][..i] == calls[..i];
        var r := GenericFileLlseek(calls[i].offset, calls[i].whence, maxBytes, calls[i].eof);
        results := results + [r];
        i := i + 1;
      }
      assert calls[..i] == calls;
    }

    method DefaultLlseek(offset0: i64, whence: int, size: i64) returns (r: i64)
      requires 0 <= size && (!unsignedOffsets ==> 0 <= pos)
      modifies this
      ensures !unsignedOffsets ==> r == DefaultResult(old(pos), offset0, whence, size)
      ensures !unsignedOffsets ==> pos == PosAfter(old(pos), r) && 0 <= pos
      ensures unsignedOffsets ==>
                if LooksForData(whence) && offset0 >= size then r == -ENXIO && pos == old(pos)
                else r == I64(Target(old(pos), offset0, whence, size)) && pos == r
      ensures version == if pos == old(pos) then old(version) else 0
      // Whence by whence, in numbers.
      ensures !unsignedOffsets ==>
                && (whence == SEEK_END ==>
                      r == if 0 <= offset0 + size as int < TWO63 then offset0 + size as int else -EINVAL)
                && (whence == SEEK_CUR ==>
                      r == if 0 <= old(pos) as int + offset0 < TWO63 then old(pos) as int + offset0 else -EINVAL)
                && (whence == SEEK_DATA ==>
                      r == if offset0 >= size then -ENXIO else if offset0 >= 0 then offset0 else -EINVAL)
                && (whence == SEEK_HOLE ==> r == if offset0 >= size then -ENXIO else size)
                && (whence < SEEK_CUR || whence > SEEK_HOLE ==> r == if offset0 >= 0 then offset0 else -EINVAL)
                && pos == if r >= 0 then r else old(pos)
    {
      var offset: i64 := offset0;
      match whence {
        case 2 =>
          offset := I64(offset + size as int);
        case 1 =>
          if offset == 0 {
            return pos;
          }
          offset := I64(offset + pos as int);
        case 3 =>
          if offset >= size {
            return -ENXIO;
          }
        case 4 =>
          if offset >= size {
            return -ENXIO;
          }
          offset := size;
        case _ =>
      }
      r := -EINVAL;
      if offset >= 0 || unsignedOffsets {
        if offset != pos {
          pos := offset;
          version := 0;
        }
        r := offset;
      }
    }
  }

  // ----- whole runs

  datatype Call = Call(offset: i64, whence: int, eof: i64)

  predicate SizesExist(calls: seq<Call>) {
    forall k :: 0 <= k < |calls| ==> 0 <= calls[k].eof
  }

  /** Position after a run, and what its calls return, on integers. */
  function Run(pos: int, maxsize: int, calls: seq<Call>): int {
    if calls == [] then pos
    else
      var before, c := Run(pos, maxsize, calls[..|calls| - 1]), calls[|calls| - 1];
      PosAfter(before, SeekResult(before, c.offset, c.whence, maxsize, c.eof))
  }

  function Results(pos: int, maxsize: int, calls: seq<Call>): seq<int> {
    if calls == [] then []
    else
      var rest, c := calls[..|calls| - 1], calls[|calls| - 1];
      Results(pos, maxsize, rest) + [SeekResult(Run(pos, maxsize, rest), c.offset, c.whence, maxsize, c.eof)]
  }

  /** The same on the words that the code computes with. */
  function WordRun(pos: i64, maxsize: i64, calls: seq<Call>): i64 {
    if calls == [] then pos
    else
      var before, c := WordRun(pos, maxsize, calls[..|calls| - 1]), calls[|calls| - 1];
      PosAfter(before, WordResult(false, before, c.offset, c.whence, maxsize, c.eof))
  }

  function WordResults(pos: i64, maxsize: i64, calls: seq<Call>): seq<int> {
    if calls == [] then []
    else
      var rest, c := calls[..|calls| - 1], calls[|calls| - 1];
      var before := WordRun(pos, maxsize, rest);
      WordResults(pos, maxsize, rest) + [WordResult(false, before, c.offset, c.whence, maxsize, c.eof)]
  }

  /** Over any run on signed offsets every result is the mathematical target or the right error, the position is the
      mathematical one, and it never leaves the file, although every sum is taken on wrapping words. */
  lemma {:induction false} RunsAreExact(pos: i64, maxsize: i64, calls: seq<Call>)
    requires 0 <= pos <= maxsize && SizesExist(calls)
    ensures WordResults(pos, maxsize, calls) == Results(pos, maxsize, calls)
    ensures WordRun(pos, maxsize, calls) == Run(pos, maxsize, calls)
    ensures 0 <= WordRun(pos, maxsize, calls) <= maxsize
  {
    if calls != [] {
      var rest, c := calls[..|calls| - 1], calls[|calls| - 1];
      RunsAreExact(pos, maxsize, rest);
      WordResultIsExact(WordRun(pos, maxsize, rest), c.offset, c.whence, maxsize, c.eof);
    }
  }

  /** With the largest offset as the size limit the two implementations agree, except exactly on
      negative offsets when looking for data or holes. */
  lemma DefaultAgreesExactly(pos: i64, offset: i64, whence: int, size: i64)
    requires 0 <= pos && 0 <= size
    ensures SeekResult(pos, offset, whence, TWO63 - 1, size) == DefaultResult(pos, offset, whence, size)
            <==> !(LooksForData(whence) && offset < 0)
  {
  }

  /** On those, default_llseek even moves to the end of the file where the generic version refuses. */
  lemma DefaultFindsHoleBeforeStart(pos: i64, offset: i64, size: i64)
    requires 0 <= pos && 0 <= size && offset < 0
    ensures PosAfter(pos, DefaultResult(pos, offset, SEEK_HOLE, size)) == size
    ensures PosAfter(pos, SeekResult(pos, offset, SEEK_HOLE, TWO63 - 1, size)) == pos
  {
  }
}
