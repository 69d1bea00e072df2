/** Range checks on wrapping positions: rw_verify_area and the clipping in do_sendfile (fs/read_write.c). */
module Ranges {
  import opened Machine

  const MAX_RW_COUNT: int := 0x7fff_f000

  /** The bytes [pos, pos + count) exist: below 2^63 for signed offsets, below 2^64 with `pos` read as
      an unsigned word otherwise. */
  predicate AreaExists(unsignedOffsets: bool, pos: i64, count: u64) {
    && count < TWO63
    && if unsignedOffsets then U64(pos) + count as int < TWO64 else 0 <= pos && pos + count as int < TWO63
  }

  /** The source's tests, wrap-around included, decide exactly that; `permission` is the security hook's answer. */
  function RwVerifyArea(unsignedOffsets: bool, ppos: Option<i64>, count: u64, permission: int): (r: int)
    ensures ppos.None? ==> r == if count < TWO63 then permission else -EINVAL
    ensures ppos.Some? ==>
              r == if AreaExists(unsignedOffsets, ppos.value, count) then permission
                   else if unsignedOffsets && count < TWO63 then -EOVERFLOW else -EINVAL
    // In numbers: no count from 2^63 up, and ranges of signed or of unsigned positions that end in time.
    ensures count >= TWO63 ==> r == -EINVAL
    ensures ppos.Some? && count < TWO63 && !unsignedOffsets ==>
              r == if 0 <= ppos.value && ppos.value + count as int < TWO63 then permission else -EINVAL
    ensures ppos.Some? && count < TWO63 && unsignedOffsets ==>
              var start: int := if ppos.value < 0 then ppos.value + TWO64 else ppos.value;
              r == if start + count as int < TWO64 then permission else -EOVERFLOW
  {
    if I64(count) < 0 then -EINVAL
    else if ppos.None? then permission
    else
      var pos := ppos.value;
      if pos < 0 then
        if !unsignedOffsets then -EINVAL
        else if count >= U64(I64(-(pos as int))) then -EOVERFLOW
        else permission
      else if I64(pos as int + count) < 0 && !unsignedOffsets then -EINVAL
      else permission
  }

  // ----- sendfile

  /** The clipping step: `pos + count > max` is computed on unsigned words, `pos >= max` on signed ones. */
  function Clipped(pos: i64, count: u64, max: i64): Option<u64> {
    if U64(pos as int + count) > U64(max) then
      if pos >= max then None else Some(U64(max as int - pos))
    else Some(count)
  }

  /** For positions at or above zero, clipping leaves the part of the range below the limit. */
  lemma ClippedIsExact(pos: i64, count: u64, max: i64)
    requires 0 <= pos && 0 <= max && count < TWO63
    ensures Clipped(pos, count, max) ==
            if pos as int + count <= max then Some(count) else if pos >= max then None else Some(max - pos)
  {
  }

  /** A verified range is only ever shortened by clipping exactly when its position is not negative:
      on files with unsigned offsets, every position from 2^63 up has its count raised. */
  lemma ClipShrinksExactly(unsignedOffsets: bool, pos: i64, count: u64, max: i64)
    requires AreaExists(unsignedOffsets, pos, count) && 0 <= max
    ensures (Clipped(pos, count, max).Some? ==> Clipped(pos, count, max).value <= count) <==> pos >= 0
  {
  }

  class OpenFile {
    const readable: bool
    const writable: bool
    const seekable: bool
    const unsignedOffsets: bool
    const pipe: bool
    const maxBytes: i64
    var pos: i64
  }

  /** Answers of code outside: the permission hooks, and the splice back end, which moves at most what it is
      asked to and otherwise reports a negative error. */
  datatype Env = Env(permIn: int, permOut: int, spliced: int)

  function StartOf(inFile: OpenFile, ppos: Option<i64>): i64
    reads inFile
  {
    if ppos.Some? then ppos.value else inFile.pos
  }

  function LimitOf(inFile: OpenFile, outFile: OpenFile, max: i64): i64 {
    if max == 0 then Min(inFile.maxBytes, outFile.maxBytes) else max
  }

  /** The count after clamping and clipping; None if the start lies beyond the limit. */
  function ClippedCount(inFile: OpenFile, outFile: OpenFile, start: i64, count: u64, max: i64): Option<u64> {
    Clipped(start, Min(count, MAX_RW_COUNT), LimitOf(inFile, outFile, max))
  }

  /** The first objection to a transfer, in the order of the source; 0 if there is none. */
  function SendfileError(inFile: OpenFile, outFile: OpenFile, ppos: Option<i64>, count: u64, max: i64, env: Env): int
    reads inFile, outFile
  {
    var start := StartOf(inFile, ppos);
    var areaIn := RwVerifyArea(inFile.unsignedOffsets, Some(start), count, env.permIn);
    var clip := ClippedCount(inFile, outFile, start, count, max);
    if !inFile.readable then -EBADF
    else if ppos.Some? && !inFile.seekable then -ESPIPE
    else if areaIn < 0 then areaIn
    else if !outFile.writable then -EBADF
    else if clip.None? then -EOVERFLOW
    else if outFile.pipe then 0
    else Min(RwVerifyArea(outFile.unsignedOffsets, Some(outFile.pos), clip.value, env.permOut), 0)
  }

  /** What passes the checks on a file with signed offsets starts inside it and ends by the limit, no longer than
      asked. */
  lemma PassedRangeFits(inFile: OpenFile, outFile: OpenFile, ppos: Option<i64>, count: u64, max: i64, env: Env)
    requires 0 <= max && 0 <= inFile.maxBytes && 0 <= outFile.maxBytes && !inFile.unsignedOffsets
    requires SendfileError(inFile, outFile, ppos, count, max, env) == 0
    ensures var start := StartOf(inFile, ppos);
            var clip := ClippedCount(inFile, outFile, start, count, max);
            var limit := LimitOf(inFile, outFile, max);
            && clip.Some? && 0 <= start && start + clip.value <= limit
            && clip.value == Min(Min(count, MAX_RW_COUNT), limit - start)
  {
    ClippedIsExact(StartOf(inFile, ppos), Min(count, MAX_RW_COUNT), LimitOf(inFile, outFile, max));
  }

  /** On signed offsets, in numbers: what is sent starts at the given position, or at the file's own, and is what was
      asked for, at most MAX_RW_COUNT bytes, as far as it lies below the limit; a limit of 0 stands for the smaller of
      the two file systems' limits.  It is sent exactly if both files have their modes, the source range exists, some
      of it lies below the limit, and the target is a pipe or its range exists. */
  lemma SendfileInNumbers(inFile: OpenFile, outFile: OpenFile, ppos: Option<i64>, count: u64, max: i64, env: Env)
    requires 0 <= max && 0 <= inFile.maxBytes && 0 <= outFile.maxBytes
    requires !inFile.unsignedOffsets && !outFile.unsignedOffsets
    ensures var start: int := if ppos.Some? then ppos.value else inFile.pos;
            var limit: int :=
              if max != 0 then max
              else if inFile.maxBytes <= outFile.maxBytes then inFile.maxBytes else outFile.maxBytes;
            var want: int := if count <= 0x7fff_f000 then count else 0x7fff_f000;
            var n: int := if start + want <= limit then want else limit - start;
            var err := SendfileError(inFile, outFile, ppos, count, max, env);
            && (err == 0 <==>
                  && inFile.readable && outFile.writable && (ppos.Some? ==> inFile.seekable)
                  && 0 <= start && start + count as int < TWO63 && env.permIn >= 0
                  && (start + want <= limit || start < limit)
                  && (outFile.pipe || (env.permOut >= 0 && 0 <= outFile.pos && outFile.pos + n < TWO63)))
            && (err == 0 ==> ClippedCount(inFile, outFile, start, count, max) == Some(n))
            && (env.permIn >= 0 && env.permOut >= 0 ==>
                  && (err == -ESPIPE <==> inFile.readable && ppos.Some? && !inFile.seekable)
                  && (err == -EBADF <==> || !inFile.readable
                                         || (&& (ppos.Some? ==> inFile.seekable) && !outFile.writable
                                             && 0 <= start && start + count as int < TWO63))
                  && (err == -EOVERFLOW <==> && inFile.readable && outFile.writable && (ppos.Some? ==> inFile.seekable)
                                             && 0 <= start && start + count as int < TWO63
                                             && start + want > limit && start >= limit))
  {
  }

  /** Everything before the transfer: the checks on both files and the clipping. */
  method SendfileChecks(inFile: OpenFile, outFile: OpenFile, ppos: Option<i64>, count0: u64, max0: i64, env: Env)
    returns (err: int, count: u64)
    requires 0 <= max0 && 0 <= inFile.maxBytes && 0 <= outFile.maxBytes
    ensures err == SendfileError(inFile, outFile, ppos, count0, max0, env)
    ensures err == 0 ==> ClippedCount(inFile, outFile, StartOf(inFile, ppos), count0, max0) == Some(count)
    ensures err == 0 && !inFile.unsignedOffsets ==>
              var start, limit := StartOf(inFile, ppos), LimitOf(inFile, outFile, max0);
              0 <= start && start + count as int <= limit && count == Min(Min(count0, MAX_RW_COUNT), limit - start)
  {
    count := count0;
    if !inFile.readable {
      return -EBADF, count;
    }
    var pos := inFile.pos;
    if ppos.Some? {
      pos := ppos.value;
      if !inFile.seekable {
        return -ESPIPE, count;
      }
    }
    err := RwVerifyArea(inFile.unsignedOffsets, Some(pos), count, env.permIn);
    if err < 0 {
      return;
    }
    if count > MAX_RW_COUNT {
      count := MAX_RW_COUNT;
    }
    if !outFile.writable {
      return -EBADF, count;
    }
    var max := LimitOf(inFile, outFile, max0);
    var clip := Clipped(pos, count, max);
    if clip.None? {
      return -EOVERFLOW, count;
    }
    count := clip.value;
    if !outFile.pipe {
      err := RwVerifyArea(outFile.unsignedOffsets, Some(outFile.pos), count, env.permOut);
      if err < 0 {
        return;
      }
    }
    err := 0;
    if !inFile.unsignedOffsets {
      PassedRangeFits(inFile, outFile, ppos, count0, max0, env);
    }
  }

  /** do_sendfile between two open files, which may be one and the same.  `pos` is the final value of the caller's
      position; `fired` tells whether the overflow check after the transfer found something. */
  method DoSendfile(inFile: OpenFile, outFile: OpenFile, ppos: Option<i64>, count0: u64, max0: i64, env: Env)
    returns (ret: int, pos: i64, ghost fired: bool)
    requires 0 <= max0 && 0 <= inFile.maxBytes && 0 <= outFile.maxBytes
    modifies inFile, outFile
    // The result and all positions, whatever the kind of offsets.
    ensures var start, outStart := old(StartOf(inFile, ppos)), old(outFile.pos);
            var err := old(SendfileError(inFile, outFile, ppos, count0, max0, env));
            if err < 0 then
              ret == err && pos == start && !fired && inFile.pos == old(inFile.pos) && outFile.pos == outStart
            else
              var n := Min(env.spliced, ClippedCount(inFile, outFile, start, count0, max0).value);
              && pos == I64(start + Max(n, 0))
              && fired == (pos > LimitOf(inFile, outFile, max0)) && ret == (if fired then -EOVERFLOW else n)
              && var outEnd := if n > 0 && !outFile.pipe then I64(outStart + n) else outStart;
                 if inFile == outFile then inFile.pos == (if n > 0 && ppos.None? then pos else outEnd)
                 else inFile.pos == (if ppos.None? then pos else old(inFile.pos)) && outFile.pos == outEnd
    // On signed offsets nothing wraps, the transfer stays below the limit and the last check is idle.
    ensures !inFile.unsignedOffsets ==>
              && !fired && pos == old(StartOf(inFile, ppos)) + Max(ret, 0)
              && (ret > 0 ==> ret <= count0 && ret <= MAX_RW_COUNT && pos <= LimitOf(inFile, outFile, max0))
  {
    fired := false;
    pos := StartOf(inFile, ppos);
    var count;
    ret, count := SendfileChecks(inFile, outFile, ppos, count0, max0, env);
    if ret < 0 {
      return;
    }
    var outPos := outFile.pos;
    ret := Min(env.spliced, count);
    if ret > 0 {
      pos := I64(pos as int + ret);
      if !outFile.pipe {
        outPos := I64(outPos as int + ret);
      }
      outFile.pos := outPos;
      if ppos.None? {
        inFile.pos := pos;
      }
    }
    if pos > LimitOf(inFile, outFile, max0) {
      fired := true;
      ret := -EOVERFLOW;
    }
  }
}
