/** PR_SET_MM: editing the addresses that describe a process image (kernel/sys.c). */
module AddressMap {
  import opened Machine

  const FIELDS: nat := 11

  // Positions of the addresses, in the order in which they are range checked.
  const START_CODE: nat := 0
  const END_CODE: nat := 1
  const START_DATA: nat := 2
  const END_DATA: nat := 3
  const START_BRK: nat := 4
  const BRK: nat := 5
  const START_STACK: nat := 6
  const ARG_START: nat := 7
  const ARG_END: nat := 8
  const ENV_START: nat := 9
  const ENV_END: nat := 10

  type Addresses = m: seq<u64> | |m| == FIELDS witness seq(FIELDS, _ => 0)

  /** What the call cannot change: address space bounds and the data limit. */
  datatype Limits = Limits(minAddr: u64, taskSize: u64, data: u64)

  // ----- what makes a map valid

  predicate InBounds(lim: Limits, a: u64) {
    lim.minAddr <= a < lim.taskSize
  }

  predicate PairsOrdered(m: Addresses) {
    && m[START_CODE] < m[END_CODE]
    && m[START_DATA] <= m[END_DATA]
    && m[START_BRK] <= m[BRK]
    && m[ARG_START] <= m[ARG_END]
    && m[ENV_START] <= m[ENV_END]
  }

  /** The data and heap segments together stay within RLIMIT_DATA. */
  predicate WithinDataLimit(lim: Limits, m: Addresses) {
    lim.data == RLIM_INFINITY || (m[BRK] - m[START_BRK]) + (m[END_DATA] - m[START_DATA]) <= lim.data
  }

  predicate ValidMap(lim: Limits, m: Addresses) {
    && (forall i :: 0 <= i < FIELDS ==> InBounds(lim, m[i]))
    && PairsOrdered(m)
    && WithinDataLimit(lim, m)
  }

  // ----- the checks and the call as the source writes them

  /** check_data_rlimit: the sizes are computed on wrapping words. */
  function CheckDataRlimit(rlim: u64, new_: u64, start: u64, endData: u64, startData: u64): bool {
    rlim < RLIM_INFINITY && U64(U64(new_ - start) + U64(endData - startData)) > rlim
  }

  /** Whatever the bounds, the wrapped test is right about ordered pairs unless the two sizes add up to 2^64 or more
      and the rest of that sum is within the limit.  Below 2^63 they never do. */
  lemma DataTestExactly(lim: Limits, m: Addresses)
    requires PairsOrdered(m)
    ensures var sum := (m[BRK] - m[START_BRK]) as int + (m[END_DATA] - m[START_DATA]);
            (CheckDataRlimit(lim.data, m[BRK], m[START_BRK], m[END_DATA], m[START_DATA]) <==> !WithinDataLimit(lim, m))
            <==> !(lim.data != RLIM_INFINITY && sum >= TWO64 && sum - TWO64 <= lim.data)
  {
  }

  method ValidatePrctlMapAddr(lim: Limits, m: Addresses) returns (error: int)
    requires lim.taskSize <= TWO63
    ensures error == if ValidMap(lim, m) then 0 else -EINVAL
    ensures error == 0 <==>
            && (forall i :: 0 <= i < 11 ==> lim.minAddr <= m[i] < lim.taskSize)
            && m[START_CODE] < m[END_CODE] && m[START_DATA] <= m[END_DATA] && m[START_BRK] <= m[BRK]
            && m[ARG_START] <= m[ARG_END] && m[ENV_START] <= m[ENV_END]
            && (lim.data == RLIM_INFINITY || m[BRK] - m[START_BRK] + (m[END_DATA] - m[START_DATA]) <= lim.data)
  {
    var i := 0;
    while i < FIELDS
      invariant 0 <= i <= FIELDS
      invariant forall k :: 0 <= k < i ==> InBounds(lim, m[k])
    {
      if m[i] >= lim.taskSize || m[i] < lim.minAddr {
        assert !InBounds(lim, m[i]);
        return -EINVAL;
      }
      i := i + 1;
    }
    if !(&& m[START_CODE] < m[END_CODE]
         && m[START_DATA] <= m[END_DATA]
         && m[START_BRK] <= m[BRK]
         && m[ARG_START] <= m[ARG_END]
         && m[ENV_START] <= m[ENV_END])
    {
      return -EINVAL;
    }
    assert InBounds(lim, m[BRK]) && InBounds(lim, m[END_DATA]);
    if CheckDataRlimit(lim.data, m[BRK], m[START_BRK], m[END_DATA], m[START_DATA]) {
      return -EINVAL;
    }
    return 0;
  }

  // Options of PR_SET_MM, as user space numbers them.
  const OPT_START_CODE: int := 1
  const OPT_END_CODE: int := 2
  const OPT_START_DATA: int := 3
  const OPT_END_DATA: int := 4
  const OPT_START_STACK: int := 5
  const OPT_START_BRK: int := 6
  const OPT_BRK: int := 7
  const OPT_ARG_START: int := 8
  const OPT_ARG_END: int := 9
  const OPT_ENV_START: int := 10
  const OPT_ENV_END: int := 11

  /** The field that an option names. */
  function FieldOf(opt: int): (f: nat)
    requires 1 <= opt <= 11
    ensures f < FIELDS
  {
    [START_CODE, END_CODE, START_DATA, END_DATA, START_STACK, START_BRK, BRK,
     ARG_START, ARG_END, ENV_START, ENV_END][opt - 1]
  }

  function OptionOf(f: nat): (opt: int)
    requires f < FIELDS
    ensures 1 <= opt <= 11 && FieldOf(opt) == f
  {
    [OPT_START_CODE, OPT_END_CODE, OPT_START_DATA, OPT_END_DATA, OPT_START_BRK, OPT_BRK, OPT_START_STACK,
     OPT_ARG_START, OPT_ARG_END, OPT_ENV_START, OPT_ENV_END][f]
  }

  /** Stack, argument and environment addresses must lie below some mapping. */
  predicate NeedsVma(f: nat) {
    f >= START_STACK
  }

  /** One single-field call; `vma` tells whether find_vma found a mapping for the address. */
  function FieldError(lim: Limits, m: Addresses, capable: bool, vma: bool, opt: int, addr: u64): int {
    if !capable then -EPERM
    else if !InBounds(lim, addr) || !(1 <= opt <= 11) || !ValidMap(lim, m[FieldOf(opt) := addr]) then -EINVAL
    else if NeedsVma(FieldOf(opt)) && !vma then -EFAULT
    else 0
  }

  const OPT_AUXV: int := 12
  const OPT_EXE_FILE: int := 13
  const OPT_MAP: int := 14
  const OPT_MAP_SIZE: int := 15

  /** What the call finds outside: the CAP_SYS_RESOURCE answer, whether find_vma found a mapping, the map that
      user space passes and whether its size is right, and the results of the parts of the call that touch no
      address (auxiliary vector, executable file, size query). */
  datatype Env = Env(capable: bool, vma: bool, user: Addresses, sizeOk: bool,
                     mapExtras: int, mapSize: int, exeFile: int, auxv: int)

  /** Which map a call asks for; none for the options that touch no address. */
  function Requested(m: Addresses, opt: int, addr: u64, env: Env): Addresses {
    if 1 <= opt <= 11 then m[FieldOf(opt) := addr] else if opt == OPT_MAP then env.user else m
  }

  function PrctlError(lim: Limits, m: Addresses, opt: int, addr: u64, arg4: u64, arg5: u64, env: Env): int {
    if arg5 != 0 || (arg4 != 0 && opt != OPT_AUXV && opt != OPT_MAP && opt != OPT_MAP_SIZE) then -EINVAL
    else if opt == OPT_MAP_SIZE then env.mapSize
    else if opt == OPT_MAP then (if env.sizeOk && ValidMap(lim, env.user) then env.mapExtras else -EINVAL)
    else if opt == OPT_EXE_FILE && env.capable then env.exeFile
    else if opt == OPT_AUXV && env.capable then env.auxv
    else FieldError(lim, m, env.capable, env.vma, opt, addr)
  }

  /** The call in the terms of user space. */
  lemma PrctlInWords(lim: Limits, m: Addresses, opt: int, addr: u64, arg4: u64, arg5: u64, env: Env)
    ensures 1 <= opt <= 11 ==>
              var error := PrctlError(lim, m, opt, addr, arg4, arg5, env);
              var asked: Addresses :=
                if opt == OPT_START_CODE then m[START_CODE := addr]
                else if opt == OPT_END_CODE then m[END_CODE := addr]
                else if opt == OPT_START_DATA then m[START_DATA := addr]
                else if opt == OPT_END_DATA then m[END_DATA := addr]
                else if opt == OPT_START_BRK then m[START_BRK := addr]
                else if opt == OPT_BRK then m[BRK := addr]
                else if opt == OPT_START_STACK then m[START_STACK := addr]
                else if opt == OPT_ARG_START then m[ARG_START := addr]
                else if opt == OPT_ARG_END then m[ARG_END := addr]
                else if opt == OPT_ENV_START then m[ENV_START := addr]
                else m[ENV_END := addr];
              var mapped := opt == OPT_START_STACK || opt >= OPT_ARG_START ==> env.vma;
              && (error == 0 <==> arg4 == 0 && arg5 == 0 && env.capable && ValidMap(lim, asked) && mapped)
              && (error == -EPERM <==> arg4 == 0 && arg5 == 0 && !env.capable)
              && (error == -EFAULT <==> arg4 == 0 && arg5 == 0 && env.capable && ValidMap(lim, asked) && !mapped)
              && error in {0, -EPERM, -EFAULT, -EINVAL} && asked == Requested(m, opt, addr, env)
  {
    if 1 <= opt <= 11 {
      var f := FieldOf(opt);
      assert m[f := addr][f] == addr;
      assert ValidMap(lim, m[f := addr]) ==> InBounds(lim, m[f := addr][f]);
    }
  }

  class MmStruct {
    var m: Addresses

    method PrctlSetMm(lim: Limits, opt: int, addr: u64, arg4: u64, arg5: u64, env: Env) returns (error: int)
      requires lim.taskSize <= TWO63
      modifies this
      ensures error == PrctlError(lim, old(m), opt, addr, arg4, arg5, env)
      ensures m == if error == 0 then Requested(old(m), opt, addr, env) else old(m)
      ensures m == old(m) || ValidMap(lim, m)
      // Option by option: which map is asked for, and when it is installed.
      ensures 1 <= opt <= 11 ==>
                var asked: Addresses :=
                  if opt == OPT_START_CODE then old(m)[START_CODE := addr]
                  else if opt == OPT_END_CODE then old(m)[END_CODE := addr]
                  else if opt == OPT_START_DATA then old(m)[START_DATA := addr]
                  else if opt == OPT_END_DATA then old(m)[END_DATA := addr]
                  else if opt == OPT_START_BRK then old(m)[START_BRK := addr]
                  else if opt == OPT_BRK then old(m)[BRK := addr]
                  else if opt == OPT_START_STACK then old(m)[START_STACK := addr]
                  else if opt == OPT_ARG_START then old(m)[ARG_START := addr]
                  else if opt == OPT_ARG_END then old(m)[ARG_END := addr]
                  else if opt == OPT_ENV_START then old(m)[ENV_START := addr]
                  else old(m)[ENV_END := addr];
                var mapped := opt == OPT_START_STACK || opt >= OPT_ARG_START ==> env.vma;
                && (error == 0 <==> arg4 == 0 && arg5 == 0 && env.capable && ValidMap(lim, asked) && mapped)
                && (error == -EPERM <==> arg4 == 0 && arg5 == 0 && !env.capable)
                && (error == -EFAULT <==> arg4 == 0 && arg5 == 0 && env.capable && ValidMap(lim, asked) && !mapped)
                && error in {0, -EPERM, -EFAULT, -EINVAL} && m == if error == 0 then asked else old(m)
      // The other options.
      ensures opt == OPT_MAP ==>
                && m == (if error == 0 then env.user else old(m))
                && (error == 0 <==> arg5 == 0 && env.sizeOk && ValidMap(lim, env.user) && env.mapExtras == 0)
      ensures opt < 1 || opt == OPT_AUXV || opt == OPT_EXE_FILE || opt > OPT_MAP ==> m == old(m)
      ensures opt == OPT_AUXV ==> error == if arg5 != 0 then -EINVAL else if !env.capable then -EPERM else env.auxv
      ensures opt == OPT_EXE_FILE && arg4 == 0 && arg5 == 0 ==> error == if env.capable then env.exeFile else -EPERM
      ensures opt < 1 || opt > OPT_MAP_SIZE ==> error == -EPERM || error == -EINVAL
    {
      PrctlInWords(lim, m, opt, addr, arg4, arg5, env);
      if arg5 != 0 || (arg4 != 0 && opt != OPT_AUXV && opt != OPT_MAP && opt != OPT_MAP_SIZE) {
        return -EINVAL;
      }
      if opt == OPT_MAP || opt == OPT_MAP_SIZE {
        error := PrctlSetMmMap(lim, opt, env);
        return;
      }
      if !env.capable {
        return -EPERM;
      }
      if opt == OPT_EXE_FILE {
        return env.exeFile;
      }
      if opt == OPT_AUXV {
        return env.auxv;
      }
      if addr >= lim.taskSize || addr < lim.minAddr {
        return -EINVAL;
      }
      var map_ := m;
      match opt {
        case 1 => map_ := map_[START_CODE := addr];
        case 2 => map_ := map_[END_CODE := addr];
        case 3 => map_ := map_[START_DATA := addr];
        case 4 => map_ := map_[END_DATA := addr];
        case 5 => map_ := map_[START_STACK := addr];
        case 6 => map_ := map_[START_BRK := addr];
        case 7 => map_ := map_[BRK := addr];
        case 8 => map_ := map_[ARG_START := addr];
        case 9 => map_ := map_[ARG_END := addr];
        case 10 => map_ := map_[ENV_START := addr];
        case 11 => map_ := map_[ENV_END := addr];
        case _ => return -EINVAL;
      }
      error := ValidatePrctlMapAddr(lim, map_);
      if error != 0 {
        return;
      }
      if || opt == OPT_START_STACK
         || opt == OPT_ARG_START || opt == OPT_ARG_END
         || opt == OPT_ENV_START || opt == OPT_ENV_END
      {
        if !env.vma {
          return -EFAULT;
        }
      }
      m := map_;
    }

    method PrctlSetMmMap(lim: Limits, opt: int, env: Env) returns (error: int)
      requires lim.taskSize <= TWO63 && (opt == OPT_MAP || opt == OPT_MAP_SIZE)
      modifies this
      ensures error == if opt == OPT_MAP_SIZE then env.mapSize
                       else if env.sizeOk && ValidMap(lim, env.user) then env.mapExtras else -EINVAL
      ensures m == if opt == OPT_MAP && error == 0 then env.user else old(m)
    {
      if opt == OPT_MAP_SIZE {
        return env.mapSize;
      }
      if !env.sizeOk {
        return -EINVAL;
      }
      error := ValidatePrctlMapAddr(lim, env.user);
      if error != 0 {
        return;
      }
      if env.mapExtras != 0 {
        return env.mapExtras;
      }
      m := env.user;
    }
  }

  // ----- single-field calls reach every valid map

  datatype FieldCall = FieldCall(opt: int, addr: u64)

  /** All calls are accepted, with privilege and with mappings where they are needed. */
  predicate Accepted(lim: Limits, m: Addresses, calls: seq<FieldCall>)
    decreases |calls|
  {
    calls == [] ||
    (FieldError(lim, m, true, true, calls[0].opt, calls[0].addr) == 0
     && Accepted(lim, m[FieldOf(calls[0].opt) := calls[0].addr], calls[1..]))
  }

  function Final(lim: Limits, m: Addresses, calls: seq<FieldCall>): Addresses
    requires Accepted(lim, m, calls)
    decreases |calls|
  {
    if calls == [] then m else Final(lim, m[FieldOf(calls[0].opt) := calls[0].addr], calls[1..])
  }

  /** Every state of an accepted sequence after the first call is valid, whatever the map was before. */
  lemma {:induction false} AcceptedEndsValid(lim: Limits, m: Addresses, calls: seq<FieldCall>)
    requires Accepted(lim, m, calls) && (calls != [] || ValidMap(lim, m))
    ensures ValidMap(lim, Final(lim, m, calls))
    decreases |calls|
  {
    if calls != [] {
      AcceptedEndsValid(lim, m[FieldOf(calls[0].opt) := calls[0].addr], calls[1..]);
    }
  }

  lemma {:induction false} AcceptedConcat(lim: Limits, m: Addresses, c1: seq<FieldCall>, c2: seq<FieldCall>)
    requires Accepted(lim, m, c1) && Accepted(lim, Final(lim, m, c1), c2)
    ensures Accepted(lim, m, c1 + c2) && Final(lim, m, c1 + c2) == Final(lim, Final(lim, m, c1), c2)
    decreases |c1|
  {
    if c1 == [] {
      assert c1 + c2 == c2;
    } else {
      assert (c1 + c2)[1..] == c1[1..] + c2;
      AcceptedConcat(lim, m[FieldOf(c1[0].opt) := c1[0].addr], c1[1..], c2);
    }
  }

  function SetField(f: nat, addr: u64): FieldCall
    requires f < FIELDS
  {
    FieldCall(OptionOf(f), addr)
  }

  lemma TwoCalls(lim: Limits, m: Addresses, f: nat, a: u64, g: nat, b: u64)
    requires f < FIELDS && g < FIELDS && f != g
    requires ValidMap(lim, m[f := a]) && ValidMap(lim, m[f := a][g := b])
    ensures var calls := [SetField(f, a), SetField(g, b)];
            Accepted(lim, m, calls) && Final(lim, m, calls) == m[f := a][g := b]
  {
    var calls := [SetField(f, a), SetField(g, b)];
    assert m[f := a][f] == a && m[f := a][g := b][g] == b;
    assert InBounds(lim, m[f := a][f]) && InBounds(lim, m[f := a][g := b][g]);
    assert calls[1..][1..] == [];
    assert calls[1..][0] == SetField(g, b);
    assert Final(lim, m[f := a][g := b], calls[1..][1..]) == m[f := a][g := b];
    assert Final(lim, m[f := a], calls[1..]) == m[f := a][g := b];
  }

  predicate IsPair(f: nat) {
    f == START_CODE || f == START_DATA || f == START_BRK || f == ARG_START || f == ENV_START
  }

  /** The order in which to move the pair at `f`: downwards start first, upwards end first. */
  function MovePair(m: Addresses, t: Addresses, f: nat): seq<FieldCall>
    requires IsPair(f)
  {
    if t[f] < m[f + 1] then [SetField(f, t[f]), SetField(f + 1, t[f + 1])]
    else [SetField(f + 1, t[f + 1]), SetField(f, t[f])]
  }

  lemma MovePairAccepted(lim: Limits, m: Addresses, t: Addresses, f: nat)
    requires ValidMap(lim, m) && ValidMap(lim, t) && IsPair(f)
    requires lim.data == RLIM_INFINITY || (f != START_DATA && f != START_BRK)
    ensures Accepted(lim, m, MovePair(m, t, f))
    ensures Final(lim, m, MovePair(m, t, f)) == m[f := t[f]][f + 1 := t[f + 1]]
    ensures ValidMap(lim, m[f := t[f]][f + 1 := t[f + 1]])
  {
    assert InBounds(lim, t[f]) && InBounds(lim, t[f + 1]);
    var m' := m[f := t[f]][f + 1 := t[f + 1]];
    assert PairsOrdered(m');
    if t[f] < m[f + 1] {
      TwoCalls(lim, m, f, t[f], f + 1, t[f + 1]);
    } else {
      assert m' == m[f + 1 := t[f + 1]][f := t[f]];
      TwoCalls(lim, m, f + 1, t[f + 1], f, t[f]);
    }
  }

  /** The first `n` of the six moves: the five pairs, then the stack. */
  function Merged(m: Addresses, t: Addresses, n: nat): Addresses
    requires n <= 6
  {
    if n == 0 then m
    else if n == 6 then Merged(m, t, 5)[START_STACK := t[START_STACK]]
    else
      var f := PairAt(n - 1);
      Merged(m, t, n - 1)[f := t[f]][f + 1 := t[f + 1]]
  }

  function PairAt(k: nat): (f: nat)
    requires k < 5
    ensures IsPair(f)
  {
    [START_CODE, START_DATA, START_BRK, ARG_START, ENV_START][k]
  }

  function Plan(m: Addresses, t: Addresses, n: nat): (calls: seq<FieldCall>)
    requires n <= 6
    ensures |calls| == if n == 6 then 11 else 2 * n
  {
    if n == 0 then []
    else if n == 6 then Plan(m, t, 5) + [SetField(START_STACK, t[START_STACK])]
    else Plan(m, t, n - 1) + MovePair(Merged(m, t, n - 1), t, PairAt(n - 1))
  }

  lemma {:induction false} PlanWorks(lim: Limits, m: Addresses, t: Addresses, n: nat)
    requires lim.data == RLIM_INFINITY && ValidMap(lim, m) && ValidMap(lim, t) && n <= 6
    ensures Accepted(lim, m, Plan(m, t, n))
    ensures Final(lim, m, Plan(m, t, n)) == Merged(m, t, n) && ValidMap(lim, Merged(m, t, n))
  {
    if n == 0 {
    } else if n == 6 {
      PlanWorks(lim, m, t, 5);
      var m' := Merged(m, t, 5);
      assert InBounds(lim, t[START_STACK]);
      assert ValidMap(lim, m'[START_STACK := t[START_STACK]]);
      var last := [SetField(START_STACK, t[START_STACK])];
      assert last[1..] == [];
      assert Accepted(lim, m', last);
      AcceptedConcat(lim, m, Plan(m, t, 5), last);
    } else {
      PlanWorks(lim, m, t, n - 1);
      var m' := Merged(m, t, n - 1);
      MovePairAccepted(lim, m', t, PairAt(n - 1));
      AcceptedConcat(lim, m, Plan(m, t, n - 1), MovePair(m', t, PairAt(n - 1)));
    }
  }

  /** Without a data limit, eleven accepted single-field calls lead from any valid map to any other:
      they do what one PR_SET_MM_MAP does. */
  lemma ElevenCallsReachAnyMap(lim: Limits, m: Addresses, t: Addresses)
    requires lim.data == RLIM_INFINITY && ValidMap(lim, m) && ValidMap(lim, t)
    ensures |Plan(m, t, 6)| == 11 && Accepted(lim, m, Plan(m, t, 6)) && Final(lim, m, Plan(m, t, 6)) == t
  {
    PlanWorks(lim, m, t, 6);
    assert Merged(m, t, 6) == t by {
      assert Merged(m, t, 0) == m;
      var m1 := Merged(m, t, 1);
      var m2 := Merged(m, t, 2);
      var m3 := Merged(m, t, 3);
      var m4 := Merged(m, t, 4);
      var m5 := Merged(m, t, 5);
      assert m1 == m[0 := t[0]][1 := t[1]];
      assert m2 == m1[2 := t[2]][3 := t[3]];
      assert m3 == m2[4 := t[4]][5 := t[5]];
      assert m4 == m3[7 := t[7]][8 := t[8]];
      assert m5 == m4[9 := t[9]][10 := t[10]];
    }
  }

  /** Order matters: an interval that moves up past its own end cannot start with its start. */
  lemma FixedOrderFails(lim: Limits, m: Addresses, t: Addresses, capable: bool, vma: bool)
    requires ValidMap(lim, m) && m[END_CODE] <= t[START_CODE]
    ensures FieldError(lim, m, capable, vma, OPT_START_CODE, t[START_CODE]) != 0
  {
    assert !PairsOrdered(m[START_CODE := t[START_CODE]]);
  }
}
