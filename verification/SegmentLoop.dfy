/** do_loop_readv_writev: a vectored transfer made of one plain transfer per segment (fs/read_write.c). */
module SegmentLoop {
  import opened Machine

  /** Outcome of a transfer: the device or file with its position, the buffer, and the number of bytes moved
      or a negative error.  A read changes the buffer, a write the device. */
  datatype Xfer<S> = Xfer(state: S, buf: seq<Byte>, n: int)

  type Op<!S> = (S, seq<Byte>) -> Xfer<S>

  /** The segments an iterator still has before it. */
  datatype Iov = End | Seg(buf: seq<Byte>, rest: Iov)

  function Flatten(iov: Iov): seq<Byte> {
    match iov
    case End => []
    case Seg(buf, rest) => buf + Flatten(rest)
  }

  /** What has been moved so far, continued by a transfer that returned `n`: an error only shows
      when nothing was moved before it. */
  function Accumulated(moved: int, n: int): int {
    if n >= 0 then moved + n else if moved == 0 then n else moved
  }

  /** Two transfers in a row, the second only after a complete first one. */
  function Then<S>(op: Op<S>, s: S, a: seq<Byte>, b: seq<Byte>): Xfer<S> {
    var first := op(s, a);
    if first.n != |a| then Xfer(first.state, first.buf + b, first.n)
    else
      var second := op(first.state, b);
      Xfer(second.state, first.buf + second.buf, Accumulated(|a|, second.n))
  }

  /** A transfer on a long buffer is the same as transfers on its two parts. */
  ghost predicate Composable<S(!new)>(op: Op<S>) {
    forall s, a, b :: op(s, a + b) == Then(op, s, a, b)
  }

  // ----- the loop

  /** iov_iter_advance over a segment that was used up also passes over empty segments behind it. */
  function SkipEmpty(iov: Iov): Iov {
    if iov.Seg? && |iov.buf| == 0 then SkipEmpty(iov.rest) else iov
  }

  function Length(iov: Iov): nat {
    if iov.End? then 0 else 1 + Length(iov.rest)
  }

  lemma {:induction false} SkipEmptyLosesNothing(iov: Iov)
    ensures Flatten(SkipEmpty(iov)) == Flatten(iov) && Length(SkipEmpty(iov)) <= Length(iov)
  {
    if iov.Seg? && |iov.buf| == 0 {
      SkipEmptyLosesNothing(iov.rest);
      assert iov.buf + Flatten(iov.rest) == Flatten(iov.rest);
    }
  }

  /** The rounds of the loop, `moved` bytes having been moved before: each uses up at least one segment. */
  function Rounds<S>(op: Op<S>, s: S, moved: int, iov: Iov): Xfer<S>
    decreases Length(iov)
  {
    if |Flatten(iov)| == 0 then Xfer(s, [], moved)
    else
      var r := op(s, iov.buf);
      if r.n != |iov.buf| then Xfer(r.state, r.buf + Flatten(iov.rest), Accumulated(moved, r.n))
      else
        SkipEmptyLosesNothing(iov.rest);
        var t := Rounds(op, r.state, moved + r.n, SkipEmpty(iov.rest));
        Xfer(t.state, r.buf + t.buf, t.n)
  }

  /** The loop as the source writes it. */
  method LoopOverSegments<S(!new)>(op: Op<S>, s0: S, iov: Iov) returns (ret: int, s: S, buf: seq<Byte>)
    ensures Xfer(s, buf, ret) == Rounds(op, s0, 0, iov)
  {
    s, ret := s0, 0;
    ghost var whole := Rounds(op, s0, 0, iov);
    var done: seq<Byte> := [];
    var iter := iov;
    while |Flatten(iter)| > 0
      invariant ret >= 0
      invariant var t := Rounds(op, s, ret, iter); whole == Xfer(t.state, done + t.buf, t.n)
      decreases Length(iter)
    {
      var nr := op(s, iter.buf);
      if nr.n < 0 {
        if ret == 0 {
          ret := nr.n;
        }
        return ret, nr.state, done + (nr.buf + Flatten(iter.rest));
      }
      if nr.n != |iter.buf| {
        return ret + nr.n, nr.state, done + (nr.buf + Flatten(iter.rest));
      }
      SkipEmptyLosesNothing(iter.rest);
      ghost var t := Rounds(op, nr.state, ret + nr.n, SkipEmpty(iter.rest));
      assert done + (nr.buf + t.buf) == (done + nr.buf) + t.buf;
      ret := ret + nr.n;
      s, done := nr.state, done + nr.buf;
      iter := SkipEmpty(iter.rest);
    }
    buf := done;
  }

  method DoLoopReadvWritev<S(!new)>(op: Op<S>, s0: S, iov: Iov, badFlags: bool) returns (ret: int, s: S, buf: seq<Byte>)
    ensures badFlags ==> ret == -EOPNOTSUPP && s == s0 && buf == Flatten(iov)
    ensures !badFlags && |Flatten(iov)| == 0 ==> ret == 0 && s == s0 && buf == []
    ensures !badFlags ==> ret == CountOrError(MovedBy(op, s0, iov), LastAnswer(op, s0, iov))
    ensures !badFlags ==> Xfer(s, buf, ret) == Rounds(op, s0, 0, iov)
    ensures !badFlags && |Flatten(iov)| > 0 && Composable(op) ==> Xfer(s, buf, ret) == op(s0, Flatten(iov))
  {
    if badFlags {
      return -EOPNOTSUPP, s0, Flatten(iov);
    }
    if |Flatten(iov)| > 0 && Composable(op) {
      RoundsAreOneTransfer(op, s0, 0, iov);
    }
    RoundsCount(op, s0, 0, iov);
    ret, s, buf := LoopOverSegments(op, s0, iov);
  }

  /** However the buffer is cut into segments, empty ones included, the rounds return, move and leave the position
      exactly as one transfer over the whole would. */
  lemma {:induction false} RoundsAreOneTransfer<S(!new)>(op: Op<S>, s: S, moved: int, iov: Iov)
    requires Composable(op) && moved >= 0 && |Flatten(iov)| > 0
    ensures var r := op(s, Flatten(iov)); Rounds(op, s, moved, iov) == Xfer(r.state, r.buf, Accumulated(moved, r.n))
    decreases Length(iov)
  {
    var seg, rest := iov.buf, Flatten(iov.rest);
    var first := op(s, seg);
    SkipEmptyLosesNothing(iov.rest);
    if first.n == |seg| && |rest| == 0 {
      assert seg + rest == seg && first.buf + [] == first.buf;
    } else {
      assert op(s, seg + rest) == Then(op, s, seg, rest);
      if first.n == |seg| {
        RoundsAreOneTransfer(op, first.state, moved + first.n, SkipEmpty(iov.rest));
      }
    }
  }

  /** The bytes that the transfers of the rounds moved, all told. */
  function MovedBy<S>(op: Op<S>, s: S, iov: Iov): nat
    decreases Length(iov)
  {
    if |Flatten(iov)| == 0 then 0
    else
      var r := op(s, iov.buf);
      SkipEmptyLosesNothing(iov.rest);
      Max(r.n, 0) + if r.n == |iov.buf| then MovedBy(op, r.state, SkipEmpty(iov.rest)) else 0
  }

  /** What the last transfer of the rounds returned, or 0 if there was none. */
  function LastAnswer<S>(op: Op<S>, s: S, iov: Iov): int
    decreases Length(iov)
  {
    if |Flatten(iov)| == 0 then 0
    else
      var r := op(s, iov.buf);
      SkipEmptyLosesNothing(iov.rest);
      if r.n == |iov.buf| && |Flatten(iov.rest)| > 0 then LastAnswer(op, r.state, SkipEmpty(iov.rest)) else r.n
  }

  /** What the last transfer of the rounds was called with. */
  function LastCall<S>(op: Op<S>, s: S, iov: Iov): (S, seq<Byte>)
    decreases Length(iov)
  {
    if |Flatten(iov)| == 0 then (s, [])
    else
      var r := op(s, iov.buf);
      SkipEmptyLosesNothing(iov.rest);
      if r.n == |iov.buf| && |Flatten(iov.rest)| > 0 then LastCall(op, r.state, SkipEmpty(iov.rest)) else (s, iov.buf)
  }

  /** The bytes moved, or the error of the last transfer if not a single byte was moved. */
  function CountOrError(moved: nat, last: int): int {
    if moved == 0 && last < 0 then last else moved
  }

  /** Whatever the transfers do, an error is reported only if nothing was moved, and otherwise exactly what was moved.
      */
  lemma {:induction false} RoundsCount<S(!new)>(op: Op<S>, s: S, moved: nat, iov: Iov)
    ensures Rounds(op, s, moved, iov).n == CountOrError(moved + MovedBy(op, s, iov), LastAnswer(op, s, iov))
    decreases Length(iov)
  {
    if |Flatten(iov)| > 0 {
      var r := op(s, iov.buf);
      SkipEmptyLosesNothing(iov.rest);
      if r.n == |iov.buf| {
        RoundsCount(op, r.state, moved + r.n, SkipEmpty(iov.rest));
      }
    }
  }

  // ----- devices for which transfers compose

  /** A medium with what is left to read, the position, and an optional fault (a negative error) at its end. */
  datatype Medium = Medium(left: seq<Byte>, pos: nat, fault: int)

  function ReadMedium(m: Medium, buf: seq<Byte>): Xfer<Medium> {
    if |m.left| == 0 then Xfer(m, buf, Min(m.fault, 0))
    else
      var n := Min(|buf|, |m.left|);
      Xfer(Medium(m.left[n..], m.pos + n, m.fault), m.left[..n] + buf[n..], n)
  }

  lemma ReadsCompose()
    ensures Composable(ReadMedium)
  {
    forall m, a, b
      ensures ReadMedium(m, a + b) == Then(ReadMedium, m, a, b)
    {
      ReadsComposeAt(m, a, b);
    }
  }

  lemma ReadsComposeAt(m: Medium, a: seq<Byte>, b: seq<Byte>)
    ensures ReadMedium(m, a + b) == Then(ReadMedium, m, a, b)
  {
    if |m.left| == 0 {
    } else if |a| <= |m.left| {
      ReadsSplit(m, a, b);
    } else {
      assert (a + b)[|m.left|..] == a[|m.left|..] + b;
    }
  }

  lemma ReadsSplit(m: Medium, a: seq<Byte>, b: seq<Byte>)
    requires 0 < |m.left| && |a| <= |m.left|
    ensures ReadMedium(m, a + b) == Then(ReadMedium, m, a, b)
  {
    var n := |a|;
    var k := Min(|b|, |m.left| - n);
    var rest := m.left[n..];
    assert ReadMedium(m, a) == Xfer(Medium(rest, m.pos + n, m.fault), m.left[..n], n) by {
      assert m.left[..n] + a[n..] == m.left[..n];
    }
    assert (a + b)[n + k..] == b[k..];
    assert m.left[..n + k] == m.left[..n] + rest[..k];
    assert m.left[n + k..] == rest[k..];
    if |rest| == 0 {
      assert rest[..k] + b[k..] == b;
    }
    assert m.left[..n] + rest[..k] + b[k..] == m.left[..n] + (rest[..k] + b[k..]);
  }

  /** A medium with what has been written, the room left, and an optional fault at its end. */
  datatype Store = Store(data: seq<Byte>, room: nat, fault: int)

  function WriteStore(m: Store, buf: seq<Byte>): Xfer<Store> {
    if m.room == 0 then Xfer(m, buf, Min(m.fault, 0))
    else
      var n := Min(|buf|, m.room);
      Xfer(Store(m.data + buf[..n], m.room - n, m.fault), buf, n)
  }

  lemma WritesCompose()
    ensures Composable(WriteStore)
  {
    forall m, a, b
      ensures WriteStore(m, a + b) == Then(WriteStore, m, a, b)
    {
      WritesComposeAt(m, a, b);
    }
  }

  lemma WritesComposeAt(m: Store, a: seq<Byte>, b: seq<Byte>)
    ensures WriteStore(m, a + b) == Then(WriteStore, m, a, b)
  {
    if 0 < m.room {
      if |a| <= m.room {
        var k := Min(|b|, m.room - |a|);
        assert a[..|a|] == a && (a + b)[..|a| + k] == a + b[..k];
        assert m.data + (a + b[..k]) == m.data + a + b[..k];
        if m.room == |a| {
          assert m.data + a + b[..0] == m.data + a;
        }
      } else {
        assert (a + b)[..m.room] == a[..m.room];
      }
    }
  }
}
