/** copy_file_range: the checks before the copy, on wrapping words (fs/read_write.c). */
module CopyRange {
  import opened Machine
  import opened Ranges

  const MAX_NON_LFS: i64 := 0x7fff_ffff

  /** The parts of a file and its inode that the checks look at; `copyOp` is 0 without a copy_file_range method. */
  datatype File = File(inode: int, superblock: int, copyOp: int, isDir: bool, isReg: bool, readable: bool,
                       writable: bool, append: bool, immutable: bool, swapfile: bool, largefile: bool,
                       unsignedOffsets: bool, size: i64, maxBytes: i64)

  predicate WellFormed(f: File) {
    0 <= f.size && 0 <= f.maxBytes
  }

  // ----- what the checks decide

  /** The largest size the target may have: file system, O_LARGEFILE and RLIMIT_FSIZE together.
      A limit of 2^63 or more that is not "infinity" turns negative and admits nothing. */
  function SizeLimit(out: File, rlimit: u64): int {
    var max := if out.largefile then out.maxBytes else MAX_NON_LFS;
    if rlimit == RLIM_INFINITY then max else Min(max, I64(rlimit))
  }

  predicate DifferentOwners(inF: File, out: File) {
    if out.copyOp != 0 then inF.copyOp != out.copyOp else inF.superblock != out.superblock
  }

  function KindError(inF: File, out: File, splice: bool): int {
    if inF.isDir || out.isDir then -EISDIR
    else if !inF.isReg || !out.isReg then -EINVAL
    else if !inF.readable || !out.writable || out.append then -EBADF
    else if !splice && DifferentOwners(inF, out) then -EXDEV
    else if out.immutable then -EPERM
    else if inF.swapfile || out.swapfile then -ETXTBSY
    else 0
  }

  /** The part of the source range before end of file that also fits below the target's limit. */
  function ShortenedLen(inF: File, posIn: int, out: File, posOut: int, len: int, rlimit: u64): int {
    Min(Min(len, Max(inF.size - posIn, 0)), SizeLimit(out, rlimit) - posOut)
  }

  predicate Disjoint(a: int, b: int, n: int) {
    a + n <= b || b + n <= a
  }

  /** For positions that exist, the verdict on mathematical integers. */
  function RangeError(inF: File, posIn: int, out: File, posOut: int, len: int, rlimit: u64): int {
    var n := ShortenedLen(inF, posIn, out, posOut, len, rlimit);
    if posIn + len >= TWO64 || posOut + len >= TWO64 then -EOVERFLOW
    else if posOut >= SizeLimit(out, rlimit) then -EFBIG
    else if inF.inode == out.inode && !Disjoint(posIn, posOut, n) then -EINVAL
    else 0
  }

  /** What holds of the length at the copy step for every kind of offset: it only shrank, both ranges exist, and in one
      inode they are disjoint as ranges of unsigned words. */
  predicate CopyBasics(inF: File, posIn: i64, out: File, posOut: i64, len: u64, len0: u64) {
    && 0 < len <= len0
    && AreaExists(inF.unsignedOffsets, posIn, len) && AreaExists(out.unsignedOffsets, posOut, len)
    && (inF.inode == out.inode ==> Disjoint(U64(posIn), U64(posOut), len))
  }

  /** What holds besides when both positions are below 2^63, as they always are with signed offsets. */
  predicate SafeToCopy(inF: File, posIn: i64, out: File, posOut: i64, len: u64, len0: u64, rlimit: u64) {
    && 0 < len <= len0 && len < TWO63
    && 0 <= posIn && posIn + len as int <= inF.size
    && 0 <= posOut && posOut + len as int <= SizeLimit(out, rlimit)
    && (inF.inode == out.inode ==> Disjoint(posIn, posOut, len))
  }

  /** What the range checks promise of an acceptable length for any positions. */
  predicate Passed(inF: File, posIn: i64, out: File, posOut: i64, len: u64, len0: u64, rlimit: u64) {
    && len <= len0 && U64(posIn) + len0 as int < TWO64 && U64(posOut) + len0 as int < TWO64
    && (0 <= posIn && len > 0 ==> posIn + len as int <= inF.size)
    && (0 <= posOut ==> posOut + len as int <= SizeLimit(out, rlimit))
    && (inF.inode == out.inode ==> Disjoint(U64(posIn), U64(posOut), len))
  }

  // ----- the checks as the source writes them

  /** A sum of words wrapped iff it is smaller than the first. */
  lemma WrapShows(pos: i64, n: u64)
    ensures U64(pos as int + n) < U64(pos) <==> U64(pos) + n as int >= TWO64
    ensures U64(pos) + n as int < TWO64 ==> U64(pos as int + n) == U64(pos) + n as int
  {
  }

  /** Shortening to end of file, on words: exact for positions from 0 up, and below 2^63 in any case. */
  function CutAtEof(posIn: i64, size: i64, count: u64): (c: u64)
    requires 0 <= size && U64(posIn) + count as int < TWO64
    ensures c <= count && c < TWO63
    ensures 0 <= posIn ==> c == Min(count, Max(size - posIn, 0))
  {
    if posIn >= size then 0 else Min(count, U64(size as int - U64(posIn)))
  }

  /** The overlap test of the code, on sums that wrap. */
  predicate WordsOverlap(posIn: i64, posOut: i64, count: u64) {
    U64(posOut as int + count) > U64(posIn) && U64(posOut) < U64(posIn as int + count)
  }

  lemma OverlapTestIsExact(posIn: i64, posOut: i64, count: u64)
    requires U64(posIn) + count as int < TWO64 && U64(posOut) + count as int < TWO64
    ensures WordsOverlap(posIn, posOut, count) <==> !Disjoint(U64(posIn), U64(posOut), count)
  {
    WrapShows(posIn, count);
    WrapShows(posOut, count);
  }

  /** How far a write may go, as the code computes it: each distance is a signed word and may wrap for negative
      positions. */
  function WordRoom(out: File, pos: i64, rlimit: u64): i64 {
    var room := I64((if out.largefile then out.maxBytes else MAX_NON_LFS) as int - pos);
    if rlimit == RLIM_INFINITY then room else Min(room, I64(I64(rlimit) as int - pos))
  }

  /** Neither sum of the code wraps. */
  predicate NoWrap(posIn: i64, posOut: i64, len: u64) {
    U64(posIn) + len as int < TWO64 && U64(posOut) + len as int < TWO64
  }

  /** The shortened length for any positions: a negative room turns into a huge word. */
  function WordLen(inF: File, posIn: i64, out: File, posOut: i64, len: u64, rlimit: u64): u64
    requires WellFormed(inF) && NoWrap(posIn, posOut, len)
  {
    U64(Min(CutAtEof(posIn, inF.size, len), WordRoom(out, posOut, rlimit)))
  }

  /** The verdict on the ranges for any positions. */
  function WordError(inF: File, posIn: i64, out: File, posOut: i64, len: u64, rlimit: u64): (err: int)
    requires WellFormed(inF)
    ensures err == 0 ==> NoWrap(posIn, posOut, len)
  {
    if !NoWrap(posIn, posOut, len) then -EOVERFLOW
    else if posOut >= SizeLimit(out, rlimit) then -EFBIG
    else
      var n := WordLen(inF, posIn, out, posOut, len, rlimit);
      if inF.inode == out.inode && WordsOverlap(posIn, posOut, n) then -EINVAL else 0
  }

  /** For positions from 0 up these are the length and the verdict on integers. */
  lemma WordsAreExact(inF: File, posIn: i64, out: File, posOut: i64, len: u64, rlimit: u64)
    requires WellFormed(inF) && WellFormed(out) && 0 <= posIn && 0 <= posOut
    ensures WordError(inF, posIn, out, posOut, len, rlimit) == RangeError(inF, posIn, out, posOut, len, rlimit)
    ensures WordError(inF, posIn, out, posOut, len, rlimit) == 0 ==>
              WordLen(inF, posIn, out, posOut, len, rlimit) == ShortenedLen(inF, posIn, out, posOut, len, rlimit)
  {
    if NoWrap(posIn, posOut, len) && posOut < SizeLimit(out, rlimit) {
      OverlapTestIsExact(posIn, posOut, WordLen(inF, posIn, out, posOut, len, rlimit));
    }
  }

  /** Whatever the positions, a length below 2^63 that passes is safe as far as the positions are below 2^63. */
  lemma WordsThatPass(inF: File, posIn: i64, out: File, posOut: i64, len: u64, rlimit: u64)
    requires WellFormed(inF) && WellFormed(out) && WordError(inF, posIn, out, posOut, len, rlimit) == 0
    ensures var n := WordLen(inF, posIn, out, posOut, len, rlimit);
            n < TWO63 ==> Passed(inF, posIn, out, posOut, n, len, rlimit)
  {
    var n := WordLen(inF, posIn, out, posOut, len, rlimit);
    if n < TWO63 {
      OverlapTestIsExact(posIn, posOut, n);
    }
  }

  /** `count` is shared with callers that hold it as an unsigned word. */
  method GenericWriteCheckLimits(out: File, pos: i64, count0: i64, rlimit: u64) returns (err: int, count: i64)
    requires WellFormed(out)
    ensures err == if pos >= SizeLimit(out, rlimit) then -EFBIG else 0
    ensures err == 0 ==> count == Min(count0, WordRoom(out, pos, rlimit))
    ensures err == 0 && 0 <= pos ==> count == Min(count0, SizeLimit(out, rlimit) - pos)
    // The limits are those of the file system, of files opened without O_LARGEFILE, and of the process.
    ensures err == 0 <==> && (if out.largefile then pos < out.maxBytes else pos < 0x7fff_ffff)
                          && (rlimit != RLIM_INFINITY ==>
                                if rlimit < TWO63 then pos < rlimit else pos < rlimit - TWO64)
    ensures err == 0 && 0 <= pos ==>
              && count <= count0
              && pos + count <= (if out.largefile then out.maxBytes else 0x7fff_ffff)
              && (rlimit != RLIM_INFINITY ==> pos + count <= rlimit)
              && (|| count == count0 || pos + count == rlimit
                  || pos + count == (if out.largefile then out.maxBytes else 0x7fff_ffff))
  {
    count := count0;
    var limit := I64(rlimit);
    if rlimit != RLIM_INFINITY {
      if pos >= limit {
        return -EFBIG, count;
      }
      count := Min(count, I64(limit - pos as int));
    }
    var maxSize := out.maxBytes;
    if !out.largefile {
      maxSize := MAX_NON_LFS;
    }
    if pos >= maxSize {
      return -EFBIG, count;
    }
    count := Min(count, I64(maxSize - pos as int));
    err := 0;
  }

  method GenericFileRwChecks(inF: File, out: File) returns (err: int)
    ensures err != 0 ==> forall splice :: KindError(inF, out, splice) == err
    ensures err == -EISDIR <==> inF.isDir || out.isDir
    ensures err == -EINVAL <==> !inF.isDir && !out.isDir && !(inF.isReg && out.isReg)
    ensures err == 0 <==> && !inF.isDir && !out.isDir && inF.isReg && out.isReg
                          && inF.readable && out.writable && !out.append
    ensures err == 0 ==> forall splice :: KindError(inF, out, splice) in {0, -EXDEV, -EPERM, -ETXTBSY}
  {
    if inF.isDir || out.isDir {
      return -EISDIR;
    }
    if !inF.isReg || !out.isReg {
      return -EINVAL;
    }
    if !inF.readable || !out.writable || out.append {
      return -EBADF;
    }
    return 0;
  }

  method GenericCopyFileChecks(inF: File, posIn: i64, out: File, posOut: i64, len0: u64, splice: bool, rlimit: u64)
    returns (err: int, len: u64)
    requires WellFormed(inF) && WellFormed(out)
    ensures err == if KindError(inF, out, splice) != 0 then KindError(inF, out, splice)
                   else WordError(inF, posIn, out, posOut, len0, rlimit)
    ensures err == 0 ==> len == WordLen(inF, posIn, out, posOut, len0, rlimit)
    // Which files are refused, error by error.
    ensures err == -EISDIR <==> inF.isDir || out.isDir
    ensures err == -EBADF <==> && !inF.isDir && !out.isDir && inF.isReg && out.isReg
                               && (!inF.readable || !out.writable || out.append)
    ensures var plain := && !inF.isDir && !out.isDir && inF.isReg && out.isReg
                         && inF.readable && out.writable && !out.append;
            var owned := || splice
                         || if out.copyOp != 0 then inF.copyOp == out.copyOp else inF.superblock == out.superblock;
            && (err == -EXDEV <==> plain && !owned)
            && (err == -EPERM <==> plain && owned && out.immutable)
            && (err == -ETXTBSY <==> plain && owned && !out.immutable && (inF.swapfile || out.swapfile))
            && (err in {0, -EOVERFLOW, -EFBIG} ==> plain && owned && !out.immutable && !inF.swapfile && !out.swapfile)
    ensures KindError(inF, out, splice) == 0 && 0 <= posIn && 0 <= posOut ==>
              && err == RangeError(inF, posIn, out, posOut, len0, rlimit)
              && (err == 0 ==> len == ShortenedLen(inF, posIn, out, posOut, len0, rlimit))
    ensures err == 0 && len < TWO63 ==> Passed(inF, posIn, out, posOut, len, len0, rlimit)
  {
    len := len0;
    err := GenericFileRwChecks(inF, out);
    if err != 0 {
      return;
    }
    if splice {
    } else if out.copyOp != 0 {
      if inF.copyOp != out.copyOp {
        return -EXDEV, len;
      }
    } else if inF.superblock != out.superblock {
      return -EXDEV, len;
    }
    if out.immutable {
      return -EPERM, len;
    }
    if inF.swapfile || out.swapfile {
      return -ETXTBSY, len;
    }
    err, len := RangeChecks(inF, posIn, out, posOut, len0, rlimit);
  }

  /** The two sums must not wrap, then the length shrinks to end of file and to the target's limit. */
  method ShortenCopy(inF: File, posIn: i64, out: File, posOut: i64, len: u64, rlimit: u64)
    returns (err: int, count: u64)
    requires WellFormed(inF) && WellFormed(out)
    ensures err == if !NoWrap(posIn, posOut, len) then -EOVERFLOW
                   else if posOut >= SizeLimit(out, rlimit) then -EFBIG
                   else 0
    ensures err == 0 ==> count == WordLen(inF, posIn, out, posOut, len, rlimit)
    ensures err == 0 && count < TWO63 ==>
              && count <= len
              && (0 <= posIn ==> count <= Max(inF.size - posIn, 0))
              && (0 <= posOut ==> posOut + count as int <= SizeLimit(out, rlimit))
    ensures err == 0 && 0 <= posIn && 0 <= posOut ==>
              count == ShortenedLen(inF, posIn, out, posOut, len, rlimit)
  {
    count := len;
    WrapShows(posIn, count);
    WrapShows(posOut, count);
    if U64(posIn as int + count) < U64(posIn) || U64(posOut as int + count) < U64(posOut) {
      return -EOVERFLOW, len;
    }
    count := CutAtEof(posIn, inF.size, count);
    var signedCount: i64;
    err, signedCount := GenericWriteCheckLimits(out, posOut, I64(count), rlimit);
    count := U64(signedCount);
  }

  method RangeChecks(inF: File, posIn: i64, out: File, posOut: i64, len0: u64, rlimit: u64)
    returns (err: int, len: u64)
    requires WellFormed(inF) && WellFormed(out)
    ensures err == WordError(inF, posIn, out, posOut, len0, rlimit)
    ensures err == 0 ==> len == WordLen(inF, posIn, out, posOut, len0, rlimit)
    ensures 0 <= posIn && 0 <= posOut ==>
              && err == RangeError(inF, posIn, out, posOut, len0, rlimit)
              && (err == 0 ==> len == ShortenedLen(inF, posIn, out, posOut, len0, rlimit))
    ensures err == 0 && len < TWO63 ==> Passed(inF, posIn, out, posOut, len, len0, rlimit)
  {
    if 0 <= posIn && 0 <= posOut {
      WordsAreExact(inF, posIn, out, posOut, len0, rlimit);
    }
    var count;
    err, count := ShortenCopy(inF, posIn, out, posOut, len0, rlimit);
    if err != 0 {
      return err, len0;
    }
    if inF.inode == out.inode && WordsOverlap(posIn, posOut, count) {
      return -EINVAL, len0;
    }
    WordsThatPass(inF, posIn, out, posOut, len0, rlimit);
    return 0, count;
  }

  /** The first objection to a copy, in the order of the source; 0 if there is none. */
  function CopyError(inF: File, posIn: i64, out: File, posOut: i64, len: u64, badFlags: bool, splice: bool,
                     rlimit: u64, permIn: int, permOut: int): (err: int)
    requires WellFormed(inF)
    ensures err == 0 ==> NoWrap(posIn, posOut, len)
  {
    if badFlags then -EINVAL
    else if KindError(inF, out, splice) != 0 then KindError(inF, out, splice)
    else if WordError(inF, posIn, out, posOut, len, rlimit) != 0 then WordError(inF, posIn, out, posOut, len, rlimit)
    else
      var n := WordLen(inF, posIn, out, posOut, len, rlimit);
      var areaIn := RwVerifyArea(inF.unsignedOffsets, Some(posIn), n, permIn);
      if areaIn != 0 then areaIn else RwVerifyArea(out.unsignedOffsets, Some(posOut), n, permOut)
  }

  /** Everything in vfs_copy_file_range before the copy step; `copying` tells whether that step is reached. */
  method VfsCopyFileRange(inF: File, posIn: i64, out: File, posOut: i64, len0: u64, badFlags: bool, splice: bool,
                          rlimit: u64, permIn: int, permOut: int)
    returns (ret: int, len: u64, copying: bool)
    requires WellFormed(inF) && WellFormed(out)
    // The result, and when the copy step is reached with how much, for all positions, kinds of offsets and hooks.
    ensures ret == CopyError(inF, posIn, out, posOut, len0, badFlags, splice, rlimit, permIn, permOut)
    ensures copying <==> ret == 0 && WordLen(inF, posIn, out, posOut, len0, rlimit) > 0
    ensures copying ==> len == WordLen(inF, posIn, out, posOut, len0, rlimit)
    // What holds there.
    ensures copying ==> CopyBasics(inF, posIn, out, posOut, len, len0)
    ensures copying && !inF.unsignedOffsets && !out.unsignedOffsets ==> 0 <= posIn && 0 <= posOut
    ensures copying && 0 <= posIn && 0 <= posOut ==> SafeToCopy(inF, posIn, out, posOut, len, len0, rlimit)
    ensures copying ==>
              && 0 < len <= len0 && permIn == 0 && permOut == 0
              && (inF.inode == out.inode ==>
                    U64(posIn) + len as int <= U64(posOut) || U64(posOut) + len as int <= U64(posIn))
    ensures badFlags ==> ret == -EINVAL
    // Only from files opened for reading to files opened for writing, of the right kinds and owners.
    ensures copying ==>
              && !badFlags && !inF.isDir && !out.isDir && inF.isReg && out.isReg
              && inF.readable && out.writable && !out.append && !out.immutable && !inF.swapfile && !out.swapfile
              && (splice || if out.copyOp != 0 then inF.copyOp == out.copyOp else inF.superblock == out.superblock)
    // On signed offsets all of it is as on integers.
    ensures !inF.unsignedOffsets && !out.unsignedOffsets && permIn == 0 && permOut == 0 && !badFlags ==>
              KindError(inF, out, splice) == 0 ==>
              if 0 <= posIn && 0 <= posOut then
                && ret == RangeError(inF, posIn, out, posOut, len0, rlimit)
                && copying == (ret == 0 && ShortenedLen(inF, posIn, out, posOut, len0, rlimit) > 0)
                && (copying ==> len == ShortenedLen(inF, posIn, out, posOut, len0, rlimit))
              else ret < 0 && !copying
    // End of file and size limits are kept exactly on the side whose position is below 2^63.
    ensures copying ==> (U64(posIn) + len as int <= inF.size <==> 0 <= posIn)
    ensures copying ==> (U64(posOut) + len as int <= SizeLimit(out, rlimit) <==> 0 <= posOut)
  {
    len, copying := len0, false;
    if badFlags {
      return -EINVAL, len, false;
    }
    ret, len := GenericCopyFileChecks(inF, posIn, out, posOut, len0, splice, rlimit);
    if ret != 0 {
      return;
    }
    ret := RwVerifyArea(inF.unsignedOffsets, Some(posIn), len, permIn);
    if ret != 0 {
      return;
    }
    ret := RwVerifyArea(out.unsignedOffsets, Some(posOut), len, permOut);
    if ret != 0 {
      return;
    }
    copying := len != 0;
  }

  /** Between two such files, with good flags, silent hooks and positions from 0 up, nothing objects exactly if the sums
      stay below 2^64, the target position is below its limits, and in one inode the ranges that remain are apart.  What
      remains is what lies before end of file and below the limits. */
  lemma CopyGranted(inF: File, posIn: i64, out: File, posOut: i64, len: u64, splice: bool, rlimit: u64)
    requires WellFormed(inF) && WellFormed(out) && 0 <= posIn && 0 <= posOut
    requires !inF.isDir && !out.isDir && inF.isReg && out.isReg
    requires inF.readable && out.writable && !out.append && !out.immutable && !inF.swapfile && !out.swapfile
    requires splice || if out.copyOp != 0 then inF.copyOp == out.copyOp else inF.superblock == out.superblock
    ensures var file: int := if out.largefile then out.maxBytes else 0x7fff_ffff;
            var process: int := if rlimit < TWO63 then rlimit else rlimit - TWO64;
            var limit: int := if rlimit == RLIM_INFINITY || file <= process then file else process;
            var rest: int := if posIn < inF.size then inF.size - posIn else 0;
            var n: int := Min(Min(len, rest), limit - posOut);
            var err := CopyError(inF, posIn, out, posOut, len, false, splice, rlimit, 0, 0);
            && (err == 0 <==> && posIn + len as int < TWO64 && posOut + len as int < TWO64 && posOut < limit
                              && (inF.inode != out.inode || posOut + n <= posIn || posIn + n <= posOut))
            && (err == -EFBIG <==> posIn + len as int < TWO64 && posOut + len as int < TWO64 && posOut >= limit)
            && (err == -EOVERFLOW <==> posIn + len as int >= TWO64 || posOut + len as int >= TWO64)
            && err in {0, -EOVERFLOW, -EFBIG, -EINVAL}
            && (err == 0 ==> WordLen(inF, posIn, out, posOut, len, rlimit) == n)
  {
    NothingElseObjects(inF, posIn, out, posOut, len, splice, rlimit);
    LimitInNumbers(out, rlimit);
  }

  lemma LimitInNumbers(out: File, rlimit: u64)
    ensures var file: int := if out.largefile then out.maxBytes else 0x7fff_ffff;
            var process: int := if rlimit < TWO63 then rlimit else rlimit - TWO64;
            SizeLimit(out, rlimit) == if rlimit == RLIM_INFINITY || file <= process then file else process
  {
  }

  /** Positions from 0 up: what passes the range checks also exists. */
  lemma NothingElseObjects(inF: File, posIn: i64, out: File, posOut: i64, len: u64, splice: bool, rlimit: u64)
    requires WellFormed(inF) && WellFormed(out) && 0 <= posIn && 0 <= posOut && KindError(inF, out, splice) == 0
    ensures var err := RangeError(inF, posIn, out, posOut, len, rlimit);
            && CopyError(inF, posIn, out, posOut, len, false, splice, rlimit, 0, 0) == err
            && (err == 0 ==> && NoWrap(posIn, posOut, len)
                             && WordLen(inF, posIn, out, posOut, len, rlimit) ==
                                ShortenedLen(inF, posIn, out, posOut, len, rlimit))
  {
    WordsAreExact(inF, posIn, out, posOut, len, rlimit);
  }

  /** With silent hooks, good flags and the right kinds of files, a copy happens exactly if the words pass, something
      is left, and both ranges exist. */
  lemma CopiesExactly(inF: File, posIn: i64, out: File, posOut: i64, len: u64, splice: bool, rlimit: u64)
    requires WellFormed(inF) && WellFormed(out) && KindError(inF, out, splice) == 0
    ensures CopyError(inF, posIn, out, posOut, len, false, splice, rlimit, 0, 0) == 0 <==>
            && WordError(inF, posIn, out, posOut, len, rlimit) == 0
            && AreaExists(inF.unsignedOffsets, posIn, WordLen(inF, posIn, out, posOut, len, rlimit))
            && AreaExists(out.unsignedOffsets, posOut, WordLen(inF, posIn, out, posOut, len, rlimit))
  {
  }

  /** A regular file with unsigned offsets that may be read and written. */
  function Plain(inode: int, size: i64, maxBytes: i64): File {
    File(inode, 0, 0, false, true, true, true, false, false, false, true, true, size, maxBytes)
  }

  /** From position 2^64 - 2^62 of a file of ten bytes all of a hundred bytes are "copied". */
  lemma EofEscaped()
    ensures var inF, out := Plain(1, 10, TWO63 - 1), Plain(2, 0, TWO63 - 1);
            var pos: i64 := -0x4000_0000_0000_0000;
            && CopyError(inF, pos, out, 0, 100, false, false, RLIM_INFINITY, 0, 0) == 0
            && WordLen(inF, pos, out, 0, 100, RLIM_INFINITY) == 100
  {
  }

  /** To position 2^64 - 4096 of a file that may grow to 2^32 bytes five bytes are copied. */
  lemma LimitEscaped()
    ensures var inF, out := Plain(1, 5, TWO63 - 1), Plain(2, 0, 0x1_0000_0000);
            && CopyError(inF, 0, out, -0x1000, 5, false, false, RLIM_INFINITY, 0, 0) == 0
            && WordLen(inF, 0, out, -0x1000, 5, RLIM_INFINITY) == 5
  {
  }
}
