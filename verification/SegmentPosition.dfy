/** What the segment loop does to the file position when transfers advance it (fs/read_write.c). */
module SegmentPosition {
  import opened Machine
  import opened Ranges
  import opened SegmentLoop

  /** The caller's position variable and whatever else the file remembers. */
  datatype Dev = Dev(pos: i64, memory: seq<Byte>)

  /** What import_iovec leaves: at most MAX_RW_COUNT bytes all told. */
  type UserIov = v: Iov | |Flatten(v)| <= MAX_RW_COUNT witness End

  /** A transfer of a file, made of any `raw` outcome: it moves at most what it is asked to, and unless it fails it
      advances the position by what it moves.  A failing one may leave anything. */
  function Transfer(raw: Op<Dev>, d: Dev, buf: seq<Byte>): Xfer<Dev> {
    var x := raw(d, buf);
    var n := Min(x.n, Min(|buf|, MAX_RW_COUNT));
    if n >= 0 then Xfer(Dev(I64(d.pos as int + n), x.state.memory), x.buf, n) else Xfer(x.state, x.buf, n)
  }

  function Advancing(raw: Op<Dev>): Op<Dev> {
    (d, buf) => Transfer(raw, d, buf)
  }

  /** The last transfer of the rounds failed and moved the position. */
  predicate StrayAtLast(raw: Op<Dev>, d: Dev, iov: Iov) {
    var op := Advancing(raw);
    var (found, buf) := LastCall(op, d, iov);
    LastAnswer(op, d, iov) < 0 && op(found, buf).state.pos != found.pos
  }

  lemma {:induction false} MovedAtMost(raw: Op<Dev>, d: Dev, iov: Iov)
    ensures MovedBy(Advancing(raw), d, iov) <= |Flatten(iov)|
    decreases Length(iov)
  {
    if |Flatten(iov)| > 0 {
      var r := Advancing(raw)(d, iov.buf);
      SkipEmptyLosesNothing(iov.rest);
      if r.n == |iov.buf| {
        MovedAtMost(raw, r.state, SkipEmpty(iov.rest));
      }
    }
  }

  /** Where the rounds leave the position: advanced by what they moved, except for what a failing last transfer did to
      it. */
  lemma {:induction false} RoundsMove(raw: Op<Dev>, d: Dev, moved: nat, iov: Iov)
    requires |Flatten(iov)| <= MAX_RW_COUNT
    ensures MovedBy(Advancing(raw), d, iov) <= |Flatten(iov)|
    ensures var op := Advancing(raw);
            var (found, buf) := LastCall(op, d, iov);
            var end := Rounds(op, d, moved, iov).state;
            && (LastAnswer(op, d, iov) >= 0 ==> end.pos == I64(d.pos as int + MovedBy(op, d, iov)))
            && (LastAnswer(op, d, iov) < 0 ==> end == op(found, buf).state)
            && (LastAnswer(op, d, iov) < 0 ==> found.pos == I64(d.pos as int + MovedBy(op, d, iov)))
    decreases Length(iov)
  {
    MovedAtMost(raw, d, iov);
    if |Flatten(iov)| > 0 {
      var op := Advancing(raw);
      var r := op(d, iov.buf);
      SkipEmptyLosesNothing(iov.rest);
      if r.n == |iov.buf| {
        MovedAtMost(raw, r.state, SkipEmpty(iov.rest));
        RoundsMove(raw, r.state, moved + r.n, SkipEmpty(iov.rest));
        SkippedIsEmpty(op, r.state, iov.rest);
      }
    }
  }

  lemma SkippedIsEmpty(op: Op<Dev>, d: Dev, iov: Iov)
    ensures |Flatten(iov)| == 0 ==> MovedBy(op, d, SkipEmpty(iov)) == 0 && LastAnswer(op, d, SkipEmpty(iov)) == 0
    ensures |Flatten(iov)| == 0 ==> forall moved :: Rounds(op, d, moved, SkipEmpty(iov)).state == d
  {
    SkipEmptyLosesNothing(iov);
  }

  /** The rounds advance the position by exactly what they moved unless the last transfer failed and moved the
      position. */
  lemma LoopMovesExactly(raw: Op<Dev>, d: Dev, iov: UserIov)
    ensures var op := Advancing(raw);
            var end := Rounds(op, d, 0, iov).state;
            && MovedBy(op, d, iov) <= MAX_RW_COUNT
            && (end.pos == I64(d.pos as int + MovedBy(op, d, iov)) <==> !StrayAtLast(raw, d, iov))
  {
    RoundsMove(raw, d, 0, iov);
  }

  /** A file that moves one byte at the start and fails everywhere else, leaving the position at 777. */
  function OneByteThenFail(d: Dev, buf: seq<Byte>): Xfer<Dev> {
    if d.pos == 0 then Xfer(d, buf, 1) else Xfer(Dev(777, []), buf, -EINVAL)
  }

  /** Two segments of one byte from such a file: the loop returns one byte and position 777. */
  lemma StrayPosition()
    ensures var end := Rounds(Advancing(OneByteThenFail), Dev(0, []), 0, Seg([0], Seg([0], End)));
            end.n == 1 && end.state.pos == 777
  {
    var op := Advancing(OneByteThenFail);
    var rest := Seg([0], End);
    assert Flatten(rest) == [0] + [] == [0] && Flatten(Seg([0], rest)) == [0] + [0];
    assert op(Dev(0, []), [0]) == Xfer(Dev(1, []), [0], 1);
    assert op(Dev(1, []), [0]) == Xfer(Dev(777, []), [0], -EINVAL);
    assert Rounds(op, Dev(1, []), 1, rest).n == 1;
  }
}
