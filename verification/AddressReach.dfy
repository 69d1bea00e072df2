/** Which maps single-field PR_SET_MM calls reach under a data limit (kernel/sys.c). */
module AddressReach {
  import opened Machine
  import opened AddressMap

  ghost predicate Reaches(lim: Limits, m: Addresses, t: Addresses) {
    exists calls :: Accepted(lim, m, calls) && Final(lim, m, calls) == t
  }

  lemma Onwards(lim: Limits, a: Addresses, b: Addresses, c: Addresses)
    requires Reaches(lim, a, b) && Reaches(lim, b, c)
    ensures Reaches(lim, a, c)
  {
    var c1 :| Accepted(lim, a, c1) && Final(lim, a, c1) == b;
    var c2 :| Accepted(lim, b, c2) && Final(lim, b, c2) == c;
    AcceptedConcat(lim, a, c1, c2);
  }

  lemma OneCall(lim: Limits, m: Addresses, f: nat, a: u64)
    requires f < FIELDS && ValidMap(lim, m[f := a])
    ensures Reaches(lim, m, m[f := a])
  {
    var calls := [SetField(f, a)];
    assert InBounds(lim, m[f := a][f]);
    assert calls[0] == SetField(f, a) && FieldOf(calls[0].opt) == f && calls[1..] == [];
    assert Accepted(lim, m[f := a], calls[1..]) && Final(lim, m[f := a], calls[1..]) == m[f := a];
    assert Accepted(lim, m, calls);
    assert Final(lim, m, calls) == Final(lim, m[f := a], calls[1..]);
  }

  lemma TwoFields(lim: Limits, m: Addresses, f: nat, a: u64, g: nat, b: u64)
    requires f < FIELDS && g < FIELDS && ValidMap(lim, m[f := a]) && ValidMap(lim, m[f := a][g := b])
    ensures Reaches(lim, m, m[f := a][g := b])
  {
    OneCall(lim, m, f, a);
    OneCall(lim, m[f := a], g, b);
    Onwards(lim, m, m[f := a], m[f := a][g := b]);
  }

  predicate IsDataPair(f: nat) {
    f == START_DATA || f == START_BRK
  }

  /** Both limited pairs are empty. */
  predicate NoData(m: Addresses) {
    m[START_DATA] == m[END_DATA] && m[START_BRK] == m[BRK]
  }

  // ----- a positive limit

  function Distance(a: int, b: int): nat {
    if a <= b then b - a else a - b
  }

  /** An empty pair moves one address up or down: for a moment it is one byte long. */
  lemma UnitMove(lim: Limits, m: Addresses, f: nat, b: u64)
    requires lim.data > 0 && ValidMap(lim, m) && NoData(m) && IsDataPair(f) && InBounds(lim, b)
    requires Distance(m[f], b) == 1
    ensures Reaches(lim, m, m[f := b][f + 1 := b]) && ValidMap(lim, m[f := b][f + 1 := b])
  {
    var t: Addresses := m[f := b][f + 1 := b];
    assert ValidMap(lim, t);
    if m[f] < b {
      assert t == m[f + 1 := b][f := b];
      assert ValidMap(lim, m[f + 1 := b]);
      TwoFields(lim, m, f + 1, b, f, b);
    } else {
      assert ValidMap(lim, m[f := b]);
      TwoFields(lim, m, f, b, f + 1, b);
    }
  }

  /** Step by step an empty pair gets everywhere. */
  lemma {:induction false} Slide(lim: Limits, m: Addresses, f: nat, b: u64)
    requires lim.data > 0 && ValidMap(lim, m) && NoData(m) && IsDataPair(f) && InBounds(lim, b)
    ensures Reaches(lim, m, m[f := b][f + 1 := b]) && ValidMap(lim, m[f := b][f + 1 := b])
    decreases Distance(m[f], b)
  {
    var t: Addresses := m[f := b][f + 1 := b];
    assert InBounds(lim, m[f]);
    if m[f] == b {
      assert t == m;
      assert Accepted(lim, m, []) && Final(lim, m, []) == m;
    } else {
      var c: u64 := if m[f] < b then m[f] as int + 1 else m[f] as int - 1;
      UnitMove(lim, m, f, c);
      var m': Addresses := m[f := c][f + 1 := c];
      Slide(lim, m', f, b);
      assert m'[f := b][f + 1 := b] == t;
      Onwards(lim, m, m', t);
    }
  }

  /** Emptying the two pairs, and filling them from empty. */
  lemma EmptyAndFill(lim: Limits, m: Addresses)
    requires ValidMap(lim, m)
    ensures var e := m[END_DATA := m[START_DATA]][BRK := m[START_BRK]];
            ValidMap(lim, e) && NoData(e) && Reaches(lim, m, e) && Reaches(lim, e, m)
  {
    assert InBounds(lim, m[START_DATA]) && InBounds(lim, m[START_BRK]);
    var half: Addresses := m[END_DATA := m[START_DATA]];
    var e: Addresses := half[BRK := m[START_BRK]];
    assert ValidMap(lim, half) && ValidMap(lim, e);
    TwoFields(lim, m, END_DATA, m[START_DATA], BRK, m[START_BRK]);
    assert e[BRK := m[BRK]] == half && half[END_DATA := m[END_DATA]] == m;
    TwoFields(lim, e, BRK, m[BRK], END_DATA, m[END_DATA]);
  }

  /** With a positive limit any two valid maps that agree outside of the limited pairs reach each other. */
  lemma MoveData(lim: Limits, m: Addresses, t: Addresses)
    requires lim.data > 0 && ValidMap(lim, m) && ValidMap(lim, t)
    requires t == m[START_DATA := t[START_DATA]][END_DATA := t[END_DATA]][START_BRK := t[START_BRK]][BRK := t[BRK]]
    ensures Reaches(lim, m, t)
  {
    assert InBounds(lim, t[START_DATA]) && InBounds(lim, t[START_BRK]);
    EmptyAndFill(lim, m);
    EmptyAndFill(lim, t);
    var e0: Addresses := m[END_DATA := m[START_DATA]][BRK := m[START_BRK]];
    var e1: Addresses := e0[START_DATA := t[START_DATA]][END_DATA := t[START_DATA]];
    var e2: Addresses := e1[START_BRK := t[START_BRK]][BRK := t[START_BRK]];
    Slide(lim, e0, START_DATA, t[START_DATA]);
    Slide(lim, e1, START_BRK, t[START_BRK]);
    assert e2 == t[END_DATA := t[START_DATA]][BRK := t[START_BRK]];
    Onwards(lim, m, e0, e1);
    Onwards(lim, m, e1, e2);
    Onwards(lim, m, e2, t);
  }

  // ----- the other addresses, for every limit

  lemma OtherPair(lim: Limits, m: Addresses, t: Addresses, f: nat)
    requires ValidMap(lim, m) && ValidMap(lim, t) && IsPair(f) && !IsDataPair(f)
    ensures Reaches(lim, m, m[f := t[f]][f + 1 := t[f + 1]]) && ValidMap(lim, m[f := t[f]][f + 1 := t[f + 1]])
  {
    MovePairAccepted(lim, m, t, f);
  }

  /** `m` with everything but the limited pairs taken from `t`. */
  function OthersFrom(m: Addresses, t: Addresses): Addresses {
    t[START_DATA := m[START_DATA]][END_DATA := m[END_DATA]][START_BRK := m[START_BRK]][BRK := m[BRK]]
  }

  /** The code, argument and environment pairs. */
  function PairsFrom(m: Addresses, t: Addresses): Addresses {
    OthersFrom(m, t)[START_STACK := m[START_STACK]]
  }

  lemma MoveOtherPairs(lim: Limits, m: Addresses, t: Addresses)
    requires ValidMap(lim, m) && ValidMap(lim, t)
    ensures Reaches(lim, m, PairsFrom(m, t)) && ValidMap(lim, PairsFrom(m, t))
  {
    var m1: Addresses := m[START_CODE := t[START_CODE]][END_CODE := t[END_CODE]];
    var m2: Addresses := m1[ARG_START := t[ARG_START]][ARG_END := t[ARG_END]];
    var m3: Addresses := m2[ENV_START := t[ENV_START]][ENV_END := t[ENV_END]];
    OtherPair(lim, m, t, START_CODE);
    OtherPair(lim, m1, t, ARG_START);
    OtherPair(lim, m2, t, ENV_START);
    assert m3 == PairsFrom(m, t);
    Onwards(lim, m, m1, m2);
    Onwards(lim, m, m2, m3);
  }

  lemma MoveOthers(lim: Limits, m: Addresses, t: Addresses)
    requires ValidMap(lim, m) && ValidMap(lim, t)
    ensures Reaches(lim, m, OthersFrom(m, t)) && ValidMap(lim, OthersFrom(m, t))
  {
    var p, o := PairsFrom(m, t), OthersFrom(m, t);
    MoveOtherPairs(lim, m, t);
    assert InBounds(lim, t[START_STACK]);
    assert o == p[START_STACK := t[START_STACK]];
    assert ValidMap(lim, o);
    OneCall(lim, p, START_STACK, t[START_STACK]);
    Onwards(lim, m, p, o);
  }

  // ----- a limit of zero

  predicate SameData(m: Addresses, t: Addresses) {
    forall i :: START_DATA <= i <= BRK ==> m[i] == t[i]
  }

  /** Every change of a limited pair would make it at least one byte long or turn it around. */
  lemma ZeroLimitOneCall(lim: Limits, m: Addresses, f: nat, a: u64)
    requires lim.data == 0 && f < FIELDS && ValidMap(lim, m) && ValidMap(lim, m[f := a])
    ensures SameData(m, m[f := a])
  {
    assert NoData(m) && NoData(m[f := a]);
  }

  lemma {:induction false} ZeroLimitFreezes(lim: Limits, m: Addresses, calls: seq<FieldCall>)
    requires lim.data == 0 && ValidMap(lim, m) && Accepted(lim, m, calls)
    ensures SameData(m, Final(lim, m, calls))
    decreases |calls|
  {
    if calls != [] {
      var f, a := FieldOf(calls[0].opt), calls[0].addr;
      ZeroLimitOneCall(lim, m, f, a);
      ZeroLimitFreezes(lim, m[f := a], calls[1..]);
    }
  }

  /** From a valid map, single-field calls reach every other valid map exactly if the data limit is positive, however
      small, or the map keeps the data and heap addresses. */
  lemma ReachableExactly(lim: Limits, m: Addresses, t: Addresses)
    requires ValidMap(lim, m) && ValidMap(lim, t)
    ensures Reaches(lim, m, t) <==> lim.data > 0 || SameData(m, t)
  {
    var o: Addresses := OthersFrom(m, t);
    MoveOthers(lim, m, t);
    if SameData(m, t) {
      assert o == t;
    } else if lim.data > 0 {
      MoveData(lim, o, t);
      Onwards(lim, m, o, t);
    } else if Reaches(lim, m, t) {
      var calls :| Accepted(lim, m, calls) && Final(lim, m, calls) == t;
      ZeroLimitFreezes(lim, m, calls);
    }
  }
}
