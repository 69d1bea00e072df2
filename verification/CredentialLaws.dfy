/** What holds over whole runs of the set*uid calls, how the calls simulate one another,
    and the set*gid calls as the same moves without user tracking (kernel/sys.c). */
module CredentialLaws {
  import opened Machine
  import opened Credentials

  // ----- runs without CAP_SETUID

  datatype Step = Step(call: Call, env: Env)

  function Run(c: Ids, ns: set<Id>, steps: seq<Step>): Ids
    decreases |steps|
  {
    if steps == [] then c else Run(After(c, ns, steps[0].env, steps[0].call), ns, steps[1..])
  }

  predicate Unprivileged(steps: seq<Step>) {
    forall k :: 0 <= k < |steps| ==> !steps[k].env.capable
  }

  /** No single unprivileged call brings in an id from outside. */
  lemma StepShrinks(c: Ids, ns: set<Id>, step: Step)
    requires !step.env.capable
    ensures var d := After(c, ns, step.env, step.call);
            Three(d) <= Three(c) && d.fsuid in Three(c) + {c.fsuid}
  {
  }

  lemma {:induction false} RunShrinks(c: Ids, ns: set<Id>, steps: seq<Step>)
    requires Unprivileged(steps)
    ensures Three(Run(c, ns, steps)) <= Three(c)
    ensures Run(c, ns, steps).fsuid in Three(c) + {c.fsuid}
    decreases |steps|
  {
    if steps != [] {
      StepShrinks(c, ns, steps[0]);
      RunShrinks(After(c, ns, steps[0].env, steps[0].call), ns, steps[1..]);
    }
  }

  /** Privileges dropped for good: once the three ids agree, no unprivileged run separates them. */
  lemma DroppedForEver(c: Ids, ns: set<Id>, steps: seq<Step>)
    requires Unprivileged(steps) && c.uid == c.euid == c.suid
    ensures SameThree(Run(c, ns, steps), c)
  {
    RunShrinks(c, ns, steps);
    var d := Run(c, ns, steps);
    assert d.uid in Three(d) && d.euid in Three(d) && d.suid in Three(d);
  }

  ghost predicate Attainable(c: Ids, ns: set<Id>, t: Ids) {
    exists steps :: Unprivileged(steps) && SameThree(Run(c, ns, steps), t)
  }

  /** A starting id that has a name, so that it can be passed to a call. */
  predicate Usable(c: Ids, ns: set<Id>, u: Id) {
    Named(ns, u) && AmongThree(c, u)
  }

  /** Each id is the old one of its kind or one that can be passed. */
  predicate Picked(c: Ids, ns: set<Id>, t: Ids) {
    && (t.uid == c.uid || Usable(c, ns, t.uid))
    && (t.euid == c.euid || Usable(c, ns, t.euid))
    && (t.suid == c.suid || Usable(c, ns, t.suid))
  }

  /** setreuid copied the effective id into the saved one: that takes a real id with a name, and afterwards only that
      id can be passed. */
  predicate Copied(c: Ids, ns: set<Id>, t: Ids) {
    Usable(c, ns, t.uid) && (t.euid == c.euid || t.euid == t.uid) && t.suid == c.euid
  }

  /** No unprivileged call leaves these two kinds of triples. */
  lemma StepStays(c0: Ids, c: Ids, ns: set<Id>, step: Step)
    requires !step.env.capable && (Picked(c0, ns, c) || Copied(c0, ns, c))
    ensures var d := After(c, ns, step.env, step.call); Picked(c0, ns, d) || Copied(c0, ns, d)
  {
  }

  lemma {:induction false} RunStays(c0: Ids, c: Ids, ns: set<Id>, steps: seq<Step>)
    requires Unprivileged(steps) && (Picked(c0, ns, c) || Copied(c0, ns, c))
    ensures var d := Run(c, ns, steps); Picked(c0, ns, d) || Copied(c0, ns, d)
    decreases |steps|
  {
    if steps != [] {
      StepStays(c0, c, ns, steps[0]);
      RunStays(c0, After(c, ns, steps[0].env, steps[0].call), ns, steps[1..]);
    }
  }

  function Calm(call: Call): Step {
    Step(call, Env(false, true, true, 0, 0, false))
  }

  function PassUnless(same: bool, u: Id): Id {
    if same then KEEP else u
  }

  lemma PickedAttained(c: Ids, ns: set<Id>, t: Ids)
    requires Picked(c, ns, t)
    ensures Attainable(c, ns, t)
  {
    var r := PassUnless(t.uid == c.uid, t.uid);
    var e := PassUnless(t.euid == c.euid, t.euid);
    var s := PassUnless(t.suid == c.suid, t.suid);
    var steps := [Calm(Setresuid(r, e, s))];
    var d := After(c, ns, steps[0].env, steps[0].call);
    assert Run(c, ns, steps) == Run(d, ns, steps[1..]) == d;
    assert Unprivileged(steps) && SameThree(Run(c, ns, steps), t);
  }

  lemma CopiedAttained(c: Ids, ns: set<Id>, t: Ids)
    requires Copied(c, ns, t)
    ensures Attainable(c, ns, t)
  {
    var x := t.uid;
    var last := Setresuid(KEEP, PassUnless(t.euid == c.euid, x), KEEP);
    var steps := [Calm(Setresuid(x, KEEP, KEEP)), Calm(Setreuid(x, KEEP)), Calm(last)];
    var d1 := After(c, ns, steps[0].env, steps[0].call);
    assert d1.uid == x && d1.euid == c.euid;
    var d2 := After(d1, ns, steps[1].env, steps[1].call);
    assert d2.uid == x && d2.euid == d2.suid == c.euid;
    var d3 := After(d2, ns, steps[2].env, steps[2].call);
    assert SameThree(d3, t);
    assert steps[1..][1..][1..] == [];
    assert Run(d2, ns, steps[1..][1..]) == d3;
    assert Run(d1, ns, steps[1..]) == d3;
    assert Unprivileged(steps) && SameThree(Run(c, ns, steps), t);
  }

  /** Exactly these triples can be attained without privilege, whichever of the ids have names. */
  lemma AttainableExactly(c: Ids, ns: set<Id>, t: Ids)
    ensures Attainable(c, ns, t) <==> Picked(c, ns, t) || Copied(c, ns, t)
  {
    if Attainable(c, ns, t) {
      var steps :| Unprivileged(steps) && SameThree(Run(c, ns, steps), t);
      RunStays(c, c, ns, steps);
    }
    if Picked(c, ns, t) {
      PickedAttained(c, ns, t);
    }
    if Copied(c, ns, t) {
      CopiedAttained(c, ns, t);
    }
  }

  /** If all three ids have names these are all triples over them. */
  lemma AttainableWithNames(c: Ids, ns: set<Id>, t: Ids)
    requires forall u :: u in Three(c) ==> Named(ns, u)
    ensures Attainable(c, ns, t) <==> Three(t) <= Three(c)
  {
    AttainableExactly(c, ns, t);
    assert t.uid in Three(t) && t.euid in Three(t) && t.suid in Three(t);
    assert c.uid in Three(c) && c.euid in Three(c) && c.suid in Three(c);
  }

  // ----- one privileged call

  /** CAP_SETUID is held and nothing else objects. */
  function Free(): Env {
    Env(true, true, true, 0, 0, false)
  }

  /** A privileged setresuid reaches exactly the triples whose changed members have names. */
  lemma ResuidReachesExactly(c: Ids, ns: set<Id>, t: Ids)
    ensures (exists r, e, s :: SameThree(After(c, ns, Free(), Setresuid(r, e, s)), t)) <==>
            && (t.uid == c.uid || (t.uid != KEEP && t.uid in ns))
            && (t.euid == c.euid || (t.euid != KEEP && t.euid in ns))
            && (t.suid == c.suid || (t.suid != KEEP && t.suid in ns))
  {
    forall r, e, s
      ensures var d := After(c, ns, Free(), Setresuid(r, e, s));
              && (d.uid == c.uid || (d.uid != KEEP && d.uid in ns))
              && (d.euid == c.euid || (d.euid != KEEP && d.euid in ns))
              && (d.suid == c.suid || (d.suid != KEEP && d.suid in ns))
    {
      SetresuidRule(c, ns, Free(), r, e, s);
    }
    var r := PassUnless(t.uid == c.uid, t.uid);
    var e := PassUnless(t.euid == c.euid, t.euid);
    var s := PassUnless(t.suid == c.suid, t.suid);
    SetresuidRule(c, ns, Free(), r, e, s);
  }

  /** A privileged setreuid reaches exactly the starting triple, the one with the effective id set back to a real id
      that has a name, and those whose saved id follows the effective one: the real id is then set, or the effective id
      is set to another id. */
  lemma ReuidReachesExactly(c: Ids, ns: set<Id>, t: Ids)
    ensures (exists r, e :: SameThree(After(c, ns, Free(), Setreuid(r, e)), t)) <==>
            || (t.uid == c.uid && t.euid == c.euid && t.suid == c.suid)
            || (t.uid == c.uid && t.euid == c.uid && t.suid == c.suid && c.uid != KEEP && c.uid in ns)
            || (&& t.suid == t.euid && (t.euid == c.euid || (t.euid != KEEP && t.euid in ns))
                && (|| (t.uid != KEEP && t.uid in ns)
                    || (t.uid == c.uid && t.euid != c.uid && t.euid != KEEP && t.euid in ns)))
  {
    forall r, e
      ensures SameThree(After(c, ns, Free(), Setreuid(r, e)), t) ==>
              || (t.uid == c.uid && t.euid == c.euid && t.suid == c.suid)
              || (t.uid == c.uid && t.euid == c.uid && t.suid == c.suid && c.uid != KEEP && c.uid in ns)
              || (&& t.suid == t.euid && (t.euid == c.euid || (t.euid != KEEP && t.euid in ns))
                  && (|| (t.uid != KEEP && t.uid in ns)
                      || (t.uid == c.uid && t.euid != c.uid && t.euid != KEEP && t.euid in ns)))
    {
      SetreuidRule(c, ns, Free(), r, e);
    }
    SetreuidRule(c, ns, Free(), KEEP, KEEP);
    SetreuidRule(c, ns, Free(), KEEP, c.uid);
    SetreuidRule(c, ns, Free(), KEEP, t.euid);
    SetreuidRule(c, ns, Free(), t.uid, PassUnless(t.euid == c.euid, t.euid));
  }

  /** A privileged setfsuid reaches exactly the old filesystem id and every id with a name, and touches no other id. */
  lemma FsuidReachesExactly(c: Ids, ns: set<Id>, t: Ids)
    ensures (exists x :: After(c, ns, Free(), Setfsuid(x)) == t) <==>
            && t.uid == c.uid && t.euid == c.euid && t.suid == c.suid
            && (t.fsuid == c.fsuid || (t.fsuid != KEEP && t.fsuid in ns))
  {
    forall x
      ensures var d := After(c, ns, Free(), Setfsuid(x));
              d == c.(fsuid := d.fsuid) && (d.fsuid == c.fsuid || (d.fsuid != KEEP && d.fsuid in ns))
    {
      SetfsuidRule(c, ns, Free(), x);
    }
    SetfsuidRule(c, ns, Free(), t.fsuid);
  }

  // ----- setresuid simulates the older calls

  /** `d` is what setresuid(r, e, s) leaves after a successful call. */
  predicate ResuidGives(c: Ids, ns: set<Id>, env: Env, r: Id, e: Id, s: Id, d: Ids) {
    Succeeds(c, ns, env, Setresuid(r, e, s)) && After(c, ns, env, Setresuid(r, e, s)) == d
  }

  /** Some setresuid call leaves the three ids as setreuid(r, e) does. */
  ghost predicate Simulated(c: Ids, ns: set<Id>, env: Env, r: Id, e: Id) {
    exists r', e', s, d' :: ResuidGives(c, ns, env, r', e', s, d') && SameThree(After(c, ns, env, Setreuid(r, e)), d')
  }

  /** What a successful setreuid does some setresuid call does too, unless it copies into the saved id an effective id
      that differs from it and has no name to pass. */
  lemma SetresuidSimulatesSetreuid(c: Ids, ns: set<Id>, env: Env, r: Id, e: Id)
    requires Succeeds(c, ns, env, Setreuid(r, e))
    ensures Simulated(c, ns, env, r, e) <==> !(r != KEEP && e == KEEP && c.euid != c.suid && !Named(ns, c.euid))
  {
    var d := After(c, ns, env, Setreuid(r, e));
    if r != KEEP && e == KEEP && c.euid != c.suid && !Named(ns, c.euid) {
      assert d.suid == c.euid;
      forall r', e', s, d' | ResuidGives(c, ns, env, r', e', s, d')
        ensures !SameThree(d, d')
      {
        assert d'.suid == c.suid || d'.suid == s != c.euid;
      }
    } else {
      var s := if d.suid == c.suid then KEEP else d.suid;
      var d' := After(c, ns, env, Setresuid(r, e, s));
      assert ResuidGives(c, ns, env, r, e, s, d') && SameThree(d, d');
    }
  }

  /** Such a simulation also agrees on the filesystem id when that followed the effective id before. */
  lemma SimulationKeepsFsuid(c: Ids, ns: set<Id>, env: Env, r: Id, e: Id, s: Id, d': Ids)
    requires Succeeds(c, ns, env, Setreuid(r, e)) && ResuidGives(c, ns, env, r, e, s, d')
    requires SameThree(After(c, ns, env, Setreuid(r, e)), d')
    requires c.fsuid == c.euid
    ensures d' == After(c, ns, env, Setreuid(r, e))
  {
  }

  /** An id without a name: setreuid copies the effective id into the saved one where no setresuid call can. */
  lemma UnnamedSavedIdOutOfReach()
    ensures var c, ns, env := Ids(1, 2, 3, 2), {1}, Env(false, true, true, 0, 0, false);
            Succeeds(c, ns, env, Setreuid(1, KEEP)) && !Simulated(c, ns, env, 1, KEEP)
  {
    var c, ns, env := Ids(1, 2, 3, 2), {1}, Env(false, true, true, 0, 0, false);
    assert Succeeds(c, ns, env, Setreuid(1, KEEP));
    SetresuidSimulatesSetreuid(c, ns, env, 1, KEEP);
  }

  /** A successful setuid(x) is setresuid(x, x, x) for the privileged and setresuid(-1, x, -1) for the rest,
      filesystem id included. */
  lemma SetresuidSimulatesSetuid(c: Ids, ns: set<Id>, env: Env, x: Id)
    requires Succeeds(c, ns, env, Setuid(x))
    ensures var y := if env.capable then x else KEEP;
            ResuidGives(c, ns, env, y, x, y, After(c, ns, env, Setuid(x)))
  {
  }

  /** Conversely, without privilege setuid(x) refuses exactly one id that setresuid(-1, x, -1) takes:
      an effective id that is neither the real nor the saved one. */
  lemma SetuidRefusesOnlyEffective(c: Ids, ns: set<Id>, env: Env, x: Id)
    requires !env.capable && Succeeds(c, ns, env, Setresuid(KEEP, x, KEEP)) && Named(ns, x)
    requires env.recordOk && env.hook >= 0 && env.ucounts >= 0
    ensures Succeeds(c, ns, env, Setuid(x)) <==> !(x == c.euid && x != c.uid && x != c.suid)
  {
  }

  // ----- the gid family

  /** The same environment for a call that keeps no user struct and no ucounts. */
  function NoUserTracking(env: Env): Env {
    env.(userOk := true, ucounts := 0)
  }

  method SysSetregid(was: Ids, ns: set<Id>, env: Env, rgid: Id, egid: Id) returns (ret: int, new_: Ids)
    ensures ret == Returns(was, ns, NoUserTracking(env), Setreuid(rgid, egid))
    ensures new_ == After(was, ns, NoUserTracking(env), Setreuid(rgid, egid))
  {
    if (rgid != KEEP && !Named(ns, rgid)) || (egid != KEEP && !Named(ns, egid)) {
      return -EINVAL, was;
    }
    if !env.recordOk {
      return -ENOMEM, was;
    }
    new_ := was;
    if rgid != KEEP {
      if was.uid == rgid || was.euid == rgid || env.capable {
        new_ := new_.(uid := rgid);
      } else {
        return -EPERM, was;
      }
    }
    if egid != KEEP {
      if was.uid == egid || was.euid == egid || was.suid == egid || env.capable {
        new_ := new_.(euid := egid);
      } else {
        return -EPERM, was;
      }
    }
    if rgid != KEEP || (egid != KEEP && egid != was.uid) {
      new_ := new_.(suid := new_.euid);
    }
    new_ := new_.(fsuid := new_.euid);
    ret := env.hook;
    if ret < 0 {
      return ret, was;
    }
    ret := 0;
  }

  method SysSetgid(was: Ids, ns: set<Id>, env: Env, gid: Id) returns (ret: int, new_: Ids)
    ensures ret == Returns(was, ns, NoUserTracking(env), Setuid(gid))
    ensures new_ == After(was, ns, NoUserTracking(env), Setuid(gid))
    ensures ret == 0 <==> && gid != KEEP && gid in ns && env.recordOk && env.hook >= 0
                          && (env.capable || gid == was.uid || gid == was.suid)
    ensures ret == 0 ==> new_ == if env.capable then Ids(gid, gid, gid, gid) else Ids(was.uid, gid, was.suid, gid)
    ensures ret != 0 ==> new_ == was
  {
    if !Named(ns, gid) {
      return -EINVAL, was;
    }
    if !env.recordOk {
      return -ENOMEM, was;
    }
    if env.capable {
      new_ := Ids(gid, gid, gid, gid);
    } else if gid == was.uid || gid == was.suid {
      new_ := was.(euid := gid, fsuid := gid);
    } else {
      return -EPERM, was;
    }
    if env.hook < 0 {
      return env.hook, was;
    }
    ret := 0;
  }

  method SysSetresgid(was: Ids, ns: set<Id>, env: Env, rgid: Id, egid: Id, sgid: Id) returns (ret: int, new_: Ids)
    ensures ret == Returns(was, ns, NoUserTracking(env), Setresuid(rgid, egid, sgid))
    ensures new_ == After(was, ns, NoUserTracking(env), Setresuid(rgid, egid, sgid))
  {
    if (rgid != KEEP && !Named(ns, rgid)) || (egid != KEEP && !Named(ns, egid)) || (sgid != KEEP && !Named(ns, sgid)) {
      return -EINVAL, was;
    }
    if && (rgid == KEEP || rgid == was.uid)
       && (egid == KEEP || (egid == was.euid && egid == was.fsuid))
       && (sgid == KEEP || sgid == was.suid)
    {
      return 0, was;
    }
    var rgidNew := rgid != KEEP && rgid != was.uid && rgid != was.euid && rgid != was.suid;
    var egidNew := egid != KEEP && egid != was.uid && egid != was.euid && egid != was.suid;
    var sgidNew := sgid != KEEP && sgid != was.uid && sgid != was.euid && sgid != was.suid;
    if (rgidNew || egidNew || sgidNew) && !env.capable {
      return -EPERM, was;
    }
    if !env.recordOk {
      return -ENOMEM, was;
    }
    new_ := was;
    if rgid != KEEP {
      new_ := new_.(uid := rgid);
    }
    if egid != KEEP {
      new_ := new_.(euid := egid);
    }
    if sgid != KEEP {
      new_ := new_.(suid := sgid);
    }
    new_ := new_.(fsuid := new_.euid);
    if env.hook < 0 {
      return env.hook, was;
    }
    ret := 0;
  }

  method SysSetfsgid(was: Ids, ns: set<Id>, env: Env, gid: Id) returns (oldFsgid: int, new_: Ids)
    ensures oldFsgid == Returns(was, ns, NoUserTracking(env), Setfsuid(gid))
    ensures new_ == After(was, ns, NoUserTracking(env), Setfsuid(gid))
  {
    oldFsgid, new_ := was.fsuid, was;
    if !Named(ns, gid) || !env.recordOk {
      return;
    }
    if gid == was.uid || gid == was.euid || gid == was.suid || gid == was.fsuid || env.capable {
      if gid != was.fsuid && env.hook == 0 {
        new_ := was.(fsuid := gid);
      }
    }
  }
}
