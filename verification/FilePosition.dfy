/** read, write and their vectored and positioned variants: what they do to the file position and to the
    caller's byte counters (fs/read_write.c). */
module FilePosition {
  import opened Machine
  import opened Ranges
  import opened SegmentLoop
  import opened SegmentPosition

  datatype Dir = In | Out

  /** A security hook allows with 0 or refuses with a negative error. */
  type HookResult = x: int | x <= 0

  /** Answers of code outside to a plain call: access_ok, the permission hook, whether the file has a transfer
      operation, what that returns (at most what was asked) and where it leaves the position when it fails. */
  datatype Env = Env(accessOk: bool, permission: HookResult, hasOp: bool, result: int, strayPos: i64)

  /** The same for a vectored call: the error of import_iovec or the segments it leaves, the permission hook, and then
      either one operation on all of them, with an error from the flags first, or one transfer per segment. */
  datatype VecEnv = VecEnv(importError: HookResult, iov: UserIov, permission: HookResult, hasIter: bool,
                           flagsError: HookResult, result: int, strayPos: i64,
                           badFlags: bool, memory: seq<Byte>, raw: Op<Dev>)

  /** `q` is `n` bytes after `p`, in the file's own reading of positions, and neither wraps. */
  predicate Advanced(unsignedOffsets: bool, p: i64, n: int, q: i64) {
    if unsignedOffsets then U64(q) == U64(p) + n else 0 <= p && q == p + n
  }

  /** A 64-bit counter that went from `c` to `d` while `n` bytes were moved. */
  predicate Counted(c: u64, n: nat, d: u64) {
    d == Low64(c as int + n)
  }

  class OpenFile {
    const stream: bool
    const unsignedOffsets: bool
    const readable: bool
    const canRead: bool
    const writable: bool
    const canWrite: bool
    const preadable: bool
    const pwritable: bool
    var pos: i64
    /** Bytes the caller has read and written, as 64-bit counters. */
    var rchar: u64
    var wchar: u64

    function ModeError(dir: Dir): int {
      if !(if dir.In? then readable else writable) then -EBADF
      else if !(if dir.In? then canRead else canWrite) then -EINVAL
      else 0
    }

    /** What a plain transfer returns: the first objection, or as much of the (clamped) request as the operation
        moves. */
    function TransferResult(dir: Dir, ppos: Option<i64>, count: u64, env: Env): int {
      var area := RwVerifyArea(unsignedOffsets, ppos, count, env.permission);
      if ModeError(dir) != 0 then ModeError(dir)
      else if !env.accessOk then -EFAULT
      else if area != 0 then area
      else if !env.hasOp then -EINVAL
      else Min(env.result, Min(count, MAX_RW_COUNT))
    }

    /** The same for a vectored transfer.  Without an operation for all segments the result is that of the loop: the
        bytes moved, or the last error if there are none. */
    function VectoredResult(dir: Dir, ppos: Option<i64>, v: VecEnv): (ret: int)
      ensures ret <= MAX_RW_COUNT
    {
      var total := |Flatten(v.iov)|;
      if v.importError < 0 then v.importError
      else if ModeError(dir) != 0 then ModeError(dir)
      else if total == 0 then 0
      else
        var area := RwVerifyArea(unsignedOffsets, ppos, total, v.permission);
        if area < 0 then area
        else if !v.hasIter then LoopResult(v, PosOrZero(ppos))
        else if v.flagsError < 0 then v.flagsError
        else Min(v.result, total)
    }

    /** A plain transfer in numbers: what it takes to be served, and how much it then moves. */
    lemma TransferInNumbers(dir: Dir, ppos: Option<i64>, count: u64, env: Env)
      ensures var ret := TransferResult(dir, ppos, count, env);
              var open_ := if dir.In? then readable else writable;
              var able := if dir.In? then canRead else canWrite;
              var inside :=
                && count < TWO63
                && (ppos.Some? ==>
                      if unsignedOffsets
                      then (if ppos.value < 0 then ppos.value + TWO64 else ppos.value) as int + count < TWO64
                      else 0 <= ppos.value && ppos.value + count as int < TWO63);
              && (!open_ ==> ret == -EBADF) && (open_ && !able ==> ret == -EINVAL)
              && (open_ && able && !env.accessOk ==> ret == -EFAULT)
              && (ret >= 0 ==> open_ && able && env.accessOk && inside && env.permission == 0 && env.hasOp)
              && (open_ && able && env.accessOk && inside && env.permission < 0 ==> ret == env.permission)
              && (open_ && able && env.accessOk && inside && env.permission == 0 && !env.hasOp ==> ret == -EINVAL)
              && (open_ && able && env.accessOk && inside && env.permission == 0 && env.hasOp ==>
                    ret == if env.result <= count && env.result <= 0x7fff_f000 then env.result
                           else if count <= 0x7fff_f000 then count else 0x7fff_f000)
    {
    }

    /** A vectored one. */
    lemma VectoredInNumbers(dir: Dir, ppos: Option<i64>, v: VecEnv)
      ensures var ret := VectoredResult(dir, ppos, v);
              var open_ := if dir.In? then readable else writable;
              var able := if dir.In? then canRead else canWrite;
              var total := |Flatten(v.iov)|;
              var inside := ppos.Some? ==>
                if unsignedOffsets
                then (if ppos.value < 0 then ppos.value + TWO64 else ppos.value) as int + total < TWO64
                else 0 <= ppos.value && ppos.value + total < TWO63;
              && (v.importError < 0 ==> ret == v.importError)
              && (v.importError == 0 && !open_ ==> ret == -EBADF)
              && (v.importError == 0 && open_ && !able ==> ret == -EINVAL)
              && (v.importError == 0 && open_ && able && total == 0 ==> ret == 0)
              && (ret > 0 ==> && v.importError == 0 && open_ && able && inside && v.permission == 0
                              && ret <= total && (if v.hasIter then v.flagsError == 0 else !v.badFlags))
              && (v.importError == 0 && open_ && able && total > 0 && inside && v.permission == 0 ==>
                    if !v.hasIter then ret == LoopResult(v, if ppos.Some? then ppos.value else 0)
                    else if v.flagsError < 0 then ret == v.flagsError
                    else ret == if v.result <= total then v.result else total)
    {
      LoopBounds(v, if ppos.Some? then ppos.value else 0);
    }

    /** The counter of the direction grows by the bytes moved; an error counts nothing. */
    twostate predicate Charged(dir: Dir, ret: int)
      reads this
    {
      && Counted(old(rchar), if dir.In? then Max(ret, 0) else 0, rchar)
      && Counted(old(wchar), if dir.Out? then Max(ret, 0) else 0, wchar)
    }

    method Charge(dir: Dir, ret: int)
      modifies this`rchar, this`wchar
      ensures Charged(dir, ret)
    {
      if ret > 0 {
        if dir.In? {
          rchar := Low64(rchar as int + ret);
        } else {
          wchar := Low64(wchar as int + ret);
        }
      }
    }

    /** vfs_read and vfs_write: checks, clamping, the operation, accounting.  `newPos` is what the caller's position
        variable holds afterwards; a failed operation may leave anything there. */
    method VfsTransfer(dir: Dir, ppos: Option<i64>, count0: u64, env: Env) returns (ret: int, newPos: i64)
      modifies this`rchar, this`wchar
      ensures ret == TransferResult(dir, ppos, count0, env)
      ensures ret >= 0 && ppos.Some? ==> Advanced(unsignedOffsets, ppos.value, ret, newPos)
      ensures Charged(dir, ret)
    {
      newPos := if ppos.Some? then ppos.value else 0;
      ret := ModeError(dir);
      if ret != 0 {
        return;
      }
      if !env.accessOk {
        return -EFAULT, newPos;
      }
      ret := RwVerifyArea(unsignedOffsets, ppos, count0, env.permission);
      if ret != 0 {
        return;
      }
      var count := count0;
      if count > MAX_RW_COUNT {
        count := MAX_RW_COUNT;
      }
      if !env.hasOp {
        return -EINVAL, newPos;
      }
      ret := Min(env.result, count);
      if dir.In? || ret > 0 {
        newPos := if ret >= 0 then I64(newPos as int + ret) else env.strayPos;
      }
      Charge(dir, ret);
    }

    /** do_iter_read and do_iter_write behind vfs_readv and vfs_writev. */
    method VfsVectored(dir: Dir, ppos: Option<i64>, v: VecEnv) returns (ret: int, newPos: i64)
      ensures ret == VectoredResult(dir, ppos, v)
      ensures ret >= 0 && ppos.Some? ==> newPos == VectoredPos(ppos.value, ret, v)
      ensures ret == 0 && ppos.Some? ==> newPos == ppos.value
      // Exactly a failing last segment that moved the position spoils it.
      ensures ret > 0 && ppos.Some? ==> (Advanced(unsignedOffsets, ppos.value, ret, newPos) <==> !Strays(v, ppos.value))
    {
      newPos := PosOrZero(ppos);
      if v.importError < 0 {
        return v.importError, newPos;
      }
      ret := ModeError(dir);
      if ret != 0 {
        return;
      }
      var total: u64 := |Flatten(v.iov)|;
      LoopBounds(v, newPos);
      if total == 0 {
        return 0, newPos;
      }
      ret := RwVerifyArea(unsignedOffsets, ppos, total, v.permission);
      if ret < 0 {
        return;
      }
      if v.hasIter {
        ret, newPos := IterTransfer(v, newPos);
      } else {
        var dev, buf;
        ret, dev, buf := DoLoopReadvWritev(Advancing(v.raw), Dev(newPos, v.memory), v.iov, v.badFlags);
        newPos := dev.pos;
      }
      if ret > 0 && ppos.Some? {
        AdvancedIs(unsignedOffsets, ppos.value, total, ret, newPos);
      }
    }

    /** do_iter_readv_writev. */
    method IterTransfer(v: VecEnv, pos: i64) returns (ret: int, newPos: i64)
      ensures ret == if v.flagsError < 0 then v.flagsError else Min(v.result, |Flatten(v.iov)|)
      ensures ret >= 0 ==> newPos == I64(pos as int + ret)
    {
      if v.flagsError < 0 {
        return v.flagsError, pos;
      }
      ret := Min(v.result, |Flatten(v.iov)|);
      newPos := if ret >= 0 then I64(pos as int + ret) else v.strayPos;
    }

    /** What a call may do: move the position by its result if it is one of the calls that use the file's own position,
        did not fail and did not stray, and charge its result; nothing else. */
    twostate predicate Accounted(dir: Dir, implicit: bool, strays: bool, ret: int)
      reads this
    {
      && Charged(dir, ret)
      && if implicit && !stream && ret > 0 then Advanced(unsignedOffsets, old(pos), ret, pos) <==> !strays
         else pos == old(pos)
    }

    function Where(p: i64): Option<i64> {
      if stream then None else Some(p)
    }

    method SysReadWrite(dir: Dir, count: u64, env: Env) returns (ret: int)
      modifies this
      ensures ret == TransferResult(dir, Where(old(pos)), count, env)
      ensures Accounted(dir, true, false, ret)
      // In numbers.
      ensures ret <= 0 || stream ==> pos == old(pos)
      ensures ret > 0 && !stream && !unsignedOffsets ==> pos == old(pos) + ret
      ensures ret <= 0 ==> rchar == old(rchar) && wchar == old(wchar)
      ensures ret > 0 && dir.In? ==> rchar == (old(rchar) as int + ret) % TWO64 && wchar == old(wchar)
      ensures ret > 0 && dir.Out? ==> wchar == (old(wchar) as int + ret) % TWO64 && rchar == old(rchar)
    {
      var ppos := Where(pos);
      var newPos;
      ret, newPos := VfsTransfer(dir, ppos, count, env);
      if ret >= 0 && ppos.Some? {
        pos := newPos;
      }
    }

    method SysVectored(dir: Dir, v: VecEnv) returns (ret: int)
      modifies this
      ensures ret == VectoredResult(dir, Where(old(pos)), v)
      ensures Accounted(dir, true, Strays(v, old(pos)), ret)
      ensures !stream && ret > 0 ==> pos == VectoredPos(old(pos), ret, v)
      // In numbers.
      ensures ret <= 0 || stream ==> pos == old(pos)
      ensures ret > 0 && !stream && !unsignedOffsets && v.hasIter ==> pos == old(pos) + ret
      ensures ret <= 0 ==> rchar == old(rchar) && wchar == old(wchar)
      ensures ret > 0 && dir.In? ==> rchar == Low64(old(rchar) as int + ret) && wchar == old(wchar)
      ensures ret > 0 && dir.Out? ==> wchar == Low64(old(wchar) as int + ret) && rchar == old(rchar)
    {
      var ppos := Where(pos);
      var newPos;
      ret, newPos := VfsVectored(dir, ppos, v);
      if ret >= 0 && ppos.Some? {
        pos := newPos;
      }
      Charge(dir, ret);
    }

    method SysPositioned(dir: Dir, count: u64, at: i64, env: Env) returns (ret: int)
      modifies this
      ensures Accounted(dir, false, false, ret) && pos == old(pos)
      ensures at < 0 ==> ret == -EINVAL
      ensures at >= 0 && !(if dir.In? then preadable else pwritable) ==> ret == -ESPIPE
      ensures ret == if at < 0 then -EINVAL
                     else if if dir.In? then preadable else pwritable then TransferResult(dir, Some(at), count, env)
                     else -ESPIPE
    {
      if at < 0 {
        return -EINVAL;
      }
      ret := -ESPIPE;
      if if dir.In? then preadable else pwritable {
        var unused;
        ret, unused := VfsTransfer(dir, Some(at), count, env);
      }
    }

    method SysPositionedVectored(dir: Dir, at: i64, v: VecEnv) returns (ret: int)
      modifies this
      ensures Accounted(dir, false, false, ret) && pos == old(pos)
      ensures at < 0 ==> ret == -EINVAL
      ensures at >= 0 && !(if dir.In? then preadable else pwritable) ==> ret == -ESPIPE
      ensures ret == if at < 0 then -EINVAL
                     else if if dir.In? then preadable else pwritable then VectoredResult(dir, Some(at), v)
                     else -ESPIPE
    {
      if at < 0 {
        return -EINVAL;
      }
      ret := -ESPIPE;
      if if dir.In? then preadable else pwritable {
        var unused;
        ret, unused := VfsVectored(dir, Some(at), v);
      }
      Charge(dir, ret);
    }

    ghost function Books(): Ledger
      reads this
    {
      Ledger(pos, rchar, wchar)
    }

    /** What a call returns when the file's own position is `p`. */
    function ResultOf(c: Call, p: i64): (ret: int)
      ensures ret <= MAX_RW_COUNT
    {
      match c
      case ReadWrite(dir, count, env) => TransferResult(dir, Where(p), count, env)
      case Vectored(dir, v) => VectoredResult(dir, Where(p), v)
      case Positioned(dir, count, at, env) =>
        if at < 0 then -EINVAL
        else if if dir.In? then preadable else pwritable then TransferResult(dir, Some(at), count, env)
        else -ESPIPE
      case PositionedVectored(dir, at, v) =>
        if at < 0 then -EINVAL
        else if if dir.In? then preadable else pwritable then VectoredResult(dir, Some(at), v)
        else -ESPIPE
    }

    /** Where a call leaves the file's own position. */
    function NextPos(c: Call, p: i64): i64 {
      var ret := ResultOf(c, p);
      if stream || !Implicit(c) || ret <= 0 then p
      else if c.Vectored? then VectoredPos(p, ret, c.v)
      else I64(p as int + ret)
    }

    /** The same for a run. */
    function PosAfter(p: i64, calls: seq<Call>): i64 {
      if calls == [] then p else NextPos(calls[|calls| - 1], PosAfter(p, calls[..|calls| - 1]))
    }

    function Results(p: i64, calls: seq<Call>): (r: seq<int>)
      ensures |r| == |calls|
    {
      if calls == [] then []
      else
        var rest := calls[..|calls| - 1];
        Results(p, rest) + [ResultOf(calls[|calls| - 1], PosAfter(p, rest))]
    }

    /** In no vectored call on the file's own position does a late segment fail and move the position. */
    predicate NoneStrays(p: i64, calls: seq<Call>) {
      calls == [] ||
      var rest, c := calls[..|calls| - 1], calls[|calls| - 1];
      NoneStrays(p, rest) && !(c.Vectored? && Strays(c.v, PosAfter(p, rest)))
    }

    lemma NextPosAdvances(c: Call, p: i64)
      requires !stream && !(c.Vectored? && Strays(c.v, p))
      ensures var ret := ResultOf(c, p);
              if Implicit(c) && ret > 0 then Advanced(unsignedOffsets, p, ret, NextPos(c, p)) else NextPos(c, p) == p
    {
      var ret := ResultOf(c, p);
      if c.Vectored? && ret > 0 {
        LoopBounds(c.v, p);
        AdvancedIs(unsignedOffsets, p, |Flatten(c.v.iov)|, ret, NextPos(c, p));
      }
    }

    /** Over any run in which no call strays, the position moves by the sum of the results of the calls that use it. */
    lemma {:induction false} PositionTallies(p: i64, calls: seq<Call>)
      requires !stream && NoneStrays(p, calls)
      ensures PosTallies(unsignedOffsets, p, calls, Results(p, calls), PosAfter(p, calls))
    {
      if calls != [] {
        var rest, c := calls[..|calls| - 1], calls[|calls| - 1];
        PositionTallies(p, rest);
        var mid := PosAfter(p, rest);
        NextPosAdvances(c, mid);
        PosStep(unsignedOffsets, p, rest, Results(p, rest), mid, c, ResultOf(c, mid), NextPos(c, mid));
        assert calls == rest + [c];
      }
    }

    /** One more call of a run. */
    method RunOne(ghost start: Ledger, ghost done: seq<Call>, ghost results: seq<int>, c: Call) returns (ret: int)
      requires |done| == |results| && pos == PosAfter(start.pos, done) && CountersTally(start, done, results, Books())
      modifies this
      ensures ret == ResultOf(c, PosAfter(start.pos, done)) && pos == PosAfter(start.pos, done + [c])
      ensures CountersTally(start, done + [c], results + [ret], Books())
      ensures stream ==> pos == old(pos)
    {
      assert (done + [c])[..|done|] == done;
      ghost var before := Books();
      ret := Dispatch(c);
      CountersStep(start, done, results, before, c, ret, Books());
    }

    /** Any run of the eight calls. */
    method Run(calls: seq<Call>) returns (results: seq<int>)
      modifies this
      ensures results == Results(old(pos), calls) && pos == PosAfter(old(pos), calls)
      ensures CountersTally(old(Books()), calls, results, Books())
      ensures stream ==> pos == old(pos)
      ensures !stream && NoneStrays(old(pos), calls) ==> PosTallies(unsignedOffsets, old(pos), calls, results, pos)
    {
      results := [];
      var i := 0;
      while i < |calls|
        invariant 0 <= i <= |calls|
        invariant results == Results(old(pos), calls[..i]) && pos == PosAfter(old(pos), calls[..i])
        invariant CountersTally(old(Books()), calls[..i], results, Books())
        invariant stream ==> pos == old(pos)
      {
        assert calls[..i + 1][..i] == calls[..i] && calls[..i + 1] == calls[..i] + [calls[i]];
        var ret := RunOne(old(Books()), calls[..i], results, calls[i]);
        results := results + [ret];
        i := i + 1;
      }
      assert calls[..i] == calls;
      if !stream && NoneStrays(old(pos), calls) {
        PositionTallies(old(pos), calls);
      }
    }

    method Dispatch(c: Call) returns (ret: int)
      modifies this
      ensures ret == ResultOf(c, old(pos)) && pos == NextPos(c, old(pos))
      ensures Accounted(c.dir, Implicit(c), c.Vectored? && Strays(c.v, old(pos)), ret)
    {
      match c {
        case ReadWrite(dir, count, env) => ret := SysReadWrite(dir, count, env);
        case Vectored(dir, v) => ret := SysVectored(dir, v);
        case Positioned(dir, count, at, env) => ret := SysPositioned(dir, count, at, env);
        case PositionedVectored(dir, at, v) => ret := SysPositionedVectored(dir, at, v);
      }
    }
  }

  function PosOrZero(ppos: Option<i64>): i64 {
    if ppos.Some? then ppos.value else 0
  }

  // ----- vectored calls on files without an operation for all segments

  function LoopResult(v: VecEnv, start: i64): (ret: int)
    ensures ret <= MAX_RW_COUNT
  {
    var op, d := Advancing(v.raw), Dev(start, v.memory);
    LoopMovesExactly(v.raw, d, v.iov);
    if v.badFlags then -EOPNOTSUPP else CountOrError(MovedBy(op, d, v.iov), LastAnswer(op, d, v.iov))
  }

  /** Where a vectored call that moved `ret` bytes leaves its position. */
  function VectoredPos(start: i64, ret: int, v: VecEnv): i64
    requires 0 <= ret <= MAX_RW_COUNT
  {
    if v.hasIter then I64(start as int + ret) else Rounds(Advancing(v.raw), Dev(start, v.memory), 0, v.iov).state.pos
  }

  /** The loop's last segment failed and moved the position. */
  predicate Strays(v: VecEnv, start: i64) {
    !v.hasIter && StrayAtLast(v.raw, Dev(start, v.memory), v.iov)
  }

  lemma LoopBounds(v: VecEnv, start: i64)
    ensures !v.badFlags && !v.hasIter && LoopResult(v, start) >= 0 ==>
              var ret := LoopResult(v, start);
              && (VectoredPos(start, ret, v) == I64(start as int + ret) <==> !Strays(v, start))
              && (ret == 0 ==> VectoredPos(start, ret, v) == start) && ret <= |Flatten(v.iov)|
    ensures |Flatten(v.iov)| == 0 ==> VectoredPos(start, 0, v) == start
  {
    LoopMovesExactly(v.raw, Dev(start, v.memory), v.iov);
    RoundsMove(v.raw, Dev(start, v.memory), 0, v.iov);
  }

  /** Inside a range that exists nothing wraps, so there is one position `n` bytes on. */
  lemma AdvancedIs(unsignedOffsets: bool, p: i64, total: u64, n: nat, q: i64)
    requires AreaExists(unsignedOffsets, p, total) && n <= total
    ensures Advanced(unsignedOffsets, p, n, q) <==> q == I64(p as int + n)
  {
  }

  // ----- sums over runs

  /** Position and counters at one moment. */
  datatype Ledger = Ledger(pos: i64, rchar: u64, wchar: u64)

  datatype Call =
    | ReadWrite(dir: Dir, count: u64, env: Env)
    | Vectored(dir: Dir, v: VecEnv)
    | Positioned(dir: Dir, count: u64, at: i64, env: Env)
    | PositionedVectored(dir: Dir, at: i64, v: VecEnv)

  predicate Implicit(c: Call) {
    c.ReadWrite? || c.Vectored?
  }

  /** Bytes moved by the calls that use the file's own position. */
  function ImplicitSum(calls: seq<Call>, results: seq<int>): nat
    requires |calls| == |results|
  {
    if |calls| == 0 then 0
    else
      var n := |calls| - 1;
      ImplicitSum(calls[..n], results[..n]) + if Implicit(calls[n]) then Max(results[n], 0) else 0
  }

  function Share(dir: Dir, c: Call, ret: int): nat {
    if c.dir == dir then Max(ret, 0) else 0
  }

  /** Bytes moved in one direction. */
  function DirSum(dir: Dir, calls: seq<Call>, results: seq<int>): nat
    requires |calls| == |results|
  {
    if |calls| == 0 then 0
    else
      var n := |calls| - 1;
      DirSum(dir, calls[..n], results[..n]) + Share(dir, calls[n], results[n])
  }

  /** The position moved by exactly the sum of the results of the calls that use it, without wrapping. */
  predicate PosTallies(unsignedOffsets: bool, start: i64, calls: seq<Call>, results: seq<int>, end: i64)
    requires |calls| == |results|
  {
    if unsignedOffsets then U64(end) == U64(start) + ImplicitSum(calls, results)
    else end == start + ImplicitSum(calls, results)
  }

  /** The counters grew by exactly the sums of the bytes moved. */
  predicate CountersTally(start: Ledger, calls: seq<Call>, results: seq<int>, end: Ledger)
    requires |calls| == |results|
  {
    && Counted(start.rchar, DirSum(In, calls, results), end.rchar)
    && Counted(start.wchar, DirSum(Out, calls, results), end.wchar)
  }

  lemma CountersStep(start: Ledger, calls: seq<Call>, results: seq<int>, mid: Ledger, c: Call, ret: int, end: Ledger)
    requires |calls| == |results| && CountersTally(start, calls, results, mid)
    requires Counted(mid.rchar, Share(In, c, ret), end.rchar) && Counted(mid.wchar, Share(Out, c, ret), end.wchar)
    ensures CountersTally(start, calls + [c], results + [ret], end)
  {
    DirSumSnoc(In, calls, results, c, ret);
    DirSumSnoc(Out, calls, results, c, ret);
    CounterStep(start.rchar, DirSum(In, calls, results), mid.rchar, Share(In, c, ret), end.rchar);
    CounterStep(start.wchar, DirSum(Out, calls, results), mid.wchar, Share(Out, c, ret), end.wchar);
  }

  lemma PosStep(unsignedOffsets: bool, start: i64, calls: seq<Call>, results: seq<int>, mid: i64, c: Call, ret: int,
                end: i64)
    requires |calls| == |results| && PosTallies(unsignedOffsets, start, calls, results, mid)
    requires if Implicit(c) && ret > 0 then Advanced(unsignedOffsets, mid, ret, end) else end == mid
    ensures PosTallies(unsignedOffsets, start, calls + [c], results + [ret], end)
  {
    var n := |calls|;
    assert (calls + [c])[..n] == calls && (results + [ret])[..n] == results;
  }

  lemma CounterStep(start: u64, sum: nat, mid: u64, n: nat, end: u64)
    requires Counted(start, sum, mid) && Counted(mid, n, end)
    ensures Counted(start, sum + n, end)
  {
  }

  lemma DirSumSnoc(dir: Dir, calls: seq<Call>, results: seq<int>, c: Call, ret: int)
    requires |calls| == |results|
    ensures DirSum(dir, calls + [c], results + [ret]) == DirSum(dir, calls, results) + Share(dir, c, ret)
  {
    var n := |calls|;
    assert (calls + [c])[..n] == calls && (results + [ret])[..n] == results;
  }
}
