/** The set*uid and set*gid families: permission rules, the prepare/edit/commit
    transaction on credential records, and the reference counts of user structs
    (kernel/sys.c).  One user namespace, in which ids keep their numbers. */
module Credentials {
  import opened Machine

  type Id = int

  /** (uid_t)-1: "leave this id alone", and never the name of a user. */
  const KEEP: Id := 0xFFFF_FFFF

  datatype Ids = Ids(uid: Id, euid: Id, suid: Id, fsuid: Id)

  /** A credential record: four ids and the user struct it holds a reference to. */
  datatype Cred = Cred(ids: Ids, user: Id)

  /** Answers of code outside the file: CAP_SETUID/CAP_SETGID, record and user allocation, the
      security hook, set_cred_ucounts, and whether somebody else still holds the old record. */
  datatype Env = Env(capable: bool, recordOk: bool, userOk: bool, hook: int, ucounts: int, oldShared: bool)

  datatype Call =
    | Setreuid(ruid: Id, euid: Id)
    | Setuid(uid: Id)
    | Setresuid(ruid: Id, euid: Id, suid: Id)
    | Setfsuid(fsuid: Id)

  predicate Named(ns: set<Id>, u: Id) {
    u != KEEP && u in ns
  }

  predicate KeptOrNamed(ns: set<Id>, u: Id) {
    u == KEEP || Named(ns, u)
  }

  function Pick(arg: Id, was: Id): Id {
    if arg == KEEP then was else arg
  }

  predicate AmongThree(c: Ids, u: Id) {
    u == c.uid || u == c.euid || u == c.suid
  }

  function Three(c: Ids): set<Id> {
    {c.uid, c.euid, c.suid}
  }

  predicate SameThree(c: Ids, d: Ids) {
    c.uid == d.uid && c.euid == d.euid && c.suid == d.suid
  }

  // ----- the rules, call by call

  predicate ArgumentsValid(ns: set<Id>, call: Call) {
    match call
    case Setreuid(r, e) => KeptOrNamed(ns, r) && KeptOrNamed(ns, e)
    case Setuid(u) => Named(ns, u)
    case Setresuid(r, e, s) => KeptOrNamed(ns, r) && KeptOrNamed(ns, e) && KeptOrNamed(ns, s)
    case Setfsuid(u) => Named(ns, u)
  }

  /** setresuid returns early when it has nothing to change. */
  predicate NoOp(c: Ids, r: Id, e: Id, s: Id) {
    Pick(r, c.uid) == c.uid && (e == KEEP || (e == c.euid && e == c.fsuid)) && Pick(s, c.suid) == c.suid
  }

  predicate Permitted(c: Ids, capable: bool, call: Call) {
    || capable
    || match call
       case Setreuid(r, e) => (r == KEEP || r == c.uid || r == c.euid) && (e == KEEP || AmongThree(c, e))
       case Setuid(u) => u == c.uid || u == c.suid
       case Setresuid(r, e, s) =>
         (r == KEEP || AmongThree(c, r)) && (e == KEEP || AmongThree(c, e)) && (s == KEEP || AmongThree(c, s))
       case Setfsuid(u) => AmongThree(c, u) || u == c.fsuid
  }

  function Moved(c: Ids, capable: bool, call: Call): Ids {
    match call
    case Setreuid(r, e) =>
      var e' := Pick(e, c.euid);
      Ids(Pick(r, c.uid), e', if r != KEEP || (e != KEEP && e != c.uid) then e' else c.suid, e')
    case Setuid(u) => if capable then Ids(u, u, u, u) else c.(euid := u, fsuid := u)
    case Setresuid(r, e, s) =>
      if NoOp(c, r, e, s) then c
      else Ids(Pick(r, c.uid), Pick(e, c.euid), Pick(s, c.suid), Pick(e, c.euid))
    case Setfsuid(u) => c.(fsuid := u)
  }

  /** What can still stop a permitted call. */
  function LateError(c: Ids, c': Ids, env: Env): int {
    if c'.uid != c.uid && !env.userOk then -EAGAIN
    else if env.hook < 0 then env.hook
    else if env.ucounts < 0 then env.ucounts
    else 0
  }

  /** Return value of a call.  setfsuid has no errors: it returns the old fsuid whatever happens. */
  function Returns(c: Ids, ns: set<Id>, env: Env, call: Call): int {
    if call.Setfsuid? then c.fsuid
    else if !ArgumentsValid(ns, call) then -EINVAL
    else if call.Setresuid? then
      if NoOp(c, call.ruid, call.euid, call.suid) then 0
      else if !Permitted(c, env.capable, call) then -EPERM
      else if !env.recordOk then -ENOMEM
      else LateError(c, Moved(c, env.capable, call), env)
    else if !env.recordOk then -ENOMEM
    else if !Permitted(c, env.capable, call) then -EPERM
    else LateError(c, Moved(c, env.capable, call), env)
  }

  predicate Succeeds(c: Ids, ns: set<Id>, env: Env, call: Call) {
    if call.Setfsuid?
    then ArgumentsValid(ns, call) && env.recordOk && Permitted(c, env.capable, call) && env.hook == 0
    else Returns(c, ns, env, call) == 0
  }

  function After(c: Ids, ns: set<Id>, env: Env, call: Call): Ids {
    if Succeeds(c, ns, env, call) then Moved(c, env.capable, call) else c
  }

  // ----- the rules in terms of ids, names and capabilities

  /** setuid: the privileged get all four ids, the rest the effective and filesystem id, and only from the real or the
      saved one. */
  lemma SetuidRule(c: Ids, ns: set<Id>, env: Env, x: Id)
    ensures var ret, d := Returns(c, ns, env, Setuid(x)), After(c, ns, env, Setuid(x));
            && (ret == 0 <==> && x != KEEP && x in ns && env.recordOk && (env.capable || x == c.uid || x == c.suid)
                              && (env.capable && x != c.uid ==> env.userOk) && env.hook >= 0 && env.ucounts >= 0)
            && d == (if ret != 0 then c else if env.capable then Ids(x, x, x, x) else Ids(c.uid, x, c.suid, x))
            && (env.hook >= 0 && env.ucounts >= 0 ==>
                  && (ret == -EINVAL <==> x == KEEP || x !in ns)
                  && (ret == -EPERM <==> && x != KEEP && x in ns && env.recordOk && !env.capable
                                         && x != c.uid && x != c.suid)
                  && (ret == -ENOMEM <==> x != KEEP && x in ns && !env.recordOk)
                  && ret in {0, -EINVAL, -ENOMEM, -EPERM, -EAGAIN})
  {
  }

  /** setreuid: the real id from the real or effective one, the effective id from all three; the saved id follows the
      new effective id when the real id is set or the effective id is set to something else than the old real one. */
  lemma SetreuidRule(c: Ids, ns: set<Id>, env: Env, r: Id, e: Id)
    ensures var ret, d := Returns(c, ns, env, Setreuid(r, e)), After(c, ns, env, Setreuid(r, e));
            && (ret == 0 <==> && (r == KEEP || r in ns) && (e == KEEP || e in ns) && env.recordOk
                              && (env.capable || r == KEEP || r == c.uid || r == c.euid)
                              && (env.capable || e == KEEP || e == c.uid || e == c.euid || e == c.suid)
                              && (r == KEEP || r == c.uid || env.userOk) && env.hook >= 0 && env.ucounts >= 0)
            && (ret != 0 ==> d == c)
            && (ret == 0 ==>
                  && d.uid == (if r == KEEP then c.uid else r) && d.euid == (if e == KEEP then c.euid else e)
                  && d.fsuid == d.euid
                  && d.suid == (if r != KEEP || (e != KEEP && e != c.uid) then d.euid else c.suid))
            && (env.hook >= 0 && env.ucounts >= 0 ==>
                  var named := (r == KEEP || r in ns) && (e == KEEP || e in ns);
                  && (ret == -EINVAL <==> !named) && (ret == -ENOMEM <==> named && !env.recordOk)
                  && (ret == -EPERM <==> && named && env.recordOk && !env.capable
                                         && (|| (r != KEEP && r != c.uid && r != c.euid)
                                             || (e != KEEP && e != c.uid && e != c.euid && e != c.suid)))
                  && ret in {0, -EINVAL, -ENOMEM, -EPERM, -EAGAIN})
  {
  }

  /** setresuid: each id from all three or kept; nothing happens, not even to the filesystem id, if nothing is to
      change. */
  lemma SetresuidRule(c: Ids, ns: set<Id>, env: Env, r: Id, e: Id, s: Id)
    ensures var ret, d := Returns(c, ns, env, Setresuid(r, e, s)), After(c, ns, env, Setresuid(r, e, s));
            var idle :=
              (r == KEEP || r == c.uid) && (e == KEEP || e == c.euid == c.fsuid) && (s == KEEP || s == c.suid);
            && (ret == 0 <==>
                  && (r == KEEP || r in ns) && (e == KEEP || e in ns) && (s == KEEP || s in ns)
                  && (!idle ==>
                        && (env.capable || r == KEEP || r == c.uid || r == c.euid || r == c.suid)
                        && (env.capable || e == KEEP || e == c.uid || e == c.euid || e == c.suid)
                        && (env.capable || s == KEEP || s == c.uid || s == c.euid || s == c.suid)
                        && (r == KEEP || r == c.uid || env.userOk)
                        && env.recordOk && env.hook >= 0 && env.ucounts >= 0))
            && (ret != 0 || idle ==> d == c)
            && (ret == 0 ==>
                  && d.uid == (if r == KEEP then c.uid else r) && d.euid == (if e == KEEP then c.euid else e)
                  && d.suid == (if s == KEEP then c.suid else s) && (idle || d.fsuid == d.euid))
            && (env.hook >= 0 && env.ucounts >= 0 ==>
                  var named := (r == KEEP || r in ns) && (e == KEEP || e in ns) && (s == KEEP || s in ns);
                  && (ret == -EINVAL <==> !named)
                  && (ret == -EPERM <==> && named && !idle && !env.capable
                                         && (|| (r != KEEP && r != c.uid && r != c.euid && r != c.suid)
                                             || (e != KEEP && e != c.uid && e != c.euid && e != c.suid)
                                             || (s != KEEP && s != c.uid && s != c.euid && s != c.suid)))
                  && ret in {0, -EINVAL, -ENOMEM, -EPERM, -EAGAIN})
  {
  }

  /** setfsuid: the filesystem id from all four, and no other id ever changes. */
  lemma SetfsuidRule(c: Ids, ns: set<Id>, env: Env, x: Id)
    ensures var ret, d := Returns(c, ns, env, Setfsuid(x)), After(c, ns, env, Setfsuid(x));
            && ret == c.fsuid && d == c.(fsuid := d.fsuid) && (d.fsuid == x || d.fsuid == c.fsuid)
            && (x != c.fsuid ==>
                  (d.fsuid == x <==> && x != KEEP && x in ns && env.recordOk && env.hook == 0
                                     && (env.capable || x == c.uid || x == c.euid || x == c.suid)))
  {
  }

  // ----- reference counts

  /** How many of the records point to the user struct of `u`. */
  function Pointers(records: seq<Cred>, u: Id): nat {
    if records == [] then 0 else One(records[0].user, u) + Pointers(records[1..], u)
  }

  function One(x: Id, u: Id): nat {
    if x == u then 1 else 0
  }

  function Count(refs: map<Id, int>, u: Id): int {
    if u in refs then refs[u] else 0
  }

  function Add(refs: map<Id, int>, u: Id, n: int): map<Id, int> {
    refs[u := Count(refs, u) + n]
  }

  /** Every count is the number of live records that point to the user. */
  ghost predicate Settled(refs: map<Id, int>, user: Id, others: seq<Cred>) {
    forall u :: Count(refs, u) == One(user, u) + Pointers(others, u)
  }

  /** The same while a private copy that points to `x` is being edited. */
  ghost predicate InFlight(x: Id, refs: map<Id, int>, user: Id, others: seq<Cred>) {
    forall u :: Count(refs, u) == One(x, u) + One(user, u) + Pointers(others, u)
  }

  /** Settled counts keep a user struct alive exactly while some record points to it. */
  lemma UserAliveExactly(refs: map<Id, int>, user: Id, others: seq<Cred>, u: Id)
    requires Settled(refs, user, others)
    ensures u in refs && refs[u] > 0 <==> u == user || exists i :: 0 <= i < |others| && others[i].user == u
    ensures u in refs && others == [] ==> refs[u] == if u == user then 1 else 0
  {
    PointersCount(others, u);
    assert Count(refs, u) == One(user, u) + Pointers(others, u);
  }

  lemma {:induction false} PointersCount(records: seq<Cred>, u: Id)
    ensures Pointers(records, u) > 0 <==> exists i :: 0 <= i < |records| && records[i].user == u
  {
    if records != [] {
      PointersCount(records[1..], u);
      if exists i :: 0 <= i < |records[1..]| && records[1..][i].user == u {
        var i :| 0 <= i < |records[1..]| && records[1..][i].user == u;
        assert records[i + 1].user == u;
      }
      if i :| 0 < i < |records| && records[i].user == u {
        assert records[1..][i - 1].user == u;
      }
    }
  }

  // ----- the transaction

  class CredStore {
    const ns: set<Id>
    /** The record installed for the calling task. */
    var current: Cred
    /** Records that other tasks and open files hold. */
    var others: seq<Cred>
    /** Reference counts of the user structs. */
    var refs: map<Id, int>

    /** Between calls the counts are settled, and the installed record's user is that of its real uid. */
    ghost predicate Valid()
      reads this
    {
      Settled(refs, current.user, others) && current.user == current.ids.uid
    }

    method PrepareCreds() returns (new_: Cred)
      requires Settled(refs, current.user, others)
      modifies this`refs
      ensures InFlight(new_.user, refs, current.user, others) && new_ == current
    {
      refs := Add(refs, current.user, 1);
      new_ := current;
    }

    method AbortCreds(new_: Cred)
      requires InFlight(new_.user, refs, current.user, others)
      modifies this`refs
      ensures Settled(refs, current.user, others)
    {
      refs := Add(refs, new_.user, -1);
    }

    method CommitCreds(new_: Cred, oldShared: bool)
      requires InFlight(new_.user, refs, current.user, others)
      modifies this
      ensures Settled(refs, current.user, others) && current == new_
      ensures others == if oldShared then [old(current)] + old(others) else old(others)
    {
      if oldShared {
        others := [current] + others;
        assert others[1..] == old(others);
      } else {
        refs := Add(refs, current.user, -1);
      }
      current := new_;
    }

    method SetUser(new_: Cred, userOk: bool) returns (err: int, moved: Cred)
      requires InFlight(new_.user, refs, current.user, others)
      modifies this`refs
      ensures InFlight(moved.user, refs, current.user, others)
      ensures err == if userOk then 0 else -EAGAIN
      ensures moved == if userOk then new_.(user := new_.ids.uid) else new_
    {
      if !userOk {
        return -EAGAIN, new_;
      }
      refs := Add(refs, new_.ids.uid, 1);
      refs := Add(refs, new_.user, -1);
      return 0, new_.(user := new_.ids.uid);
    }

    /** The common tail: security hook, ucounts, then commit; an error drops the private copy. */
    method Finish(new_: Cred, env: Env) returns (ret: int)
      requires InFlight(new_.user, refs, current.user, others)
      modifies this
      ensures Settled(refs, current.user, others)
      ensures ret == if env.hook < 0 then env.hook else if env.ucounts < 0 then env.ucounts else 0
      ensures ret == 0 ==> current == new_
      ensures ret == 0 ==> others == if env.oldShared then [old(current)] + old(others) else old(others)
      ensures ret != 0 ==> current == old(current) && others == old(others)
    {
      if env.hook < 0 {
        AbortCreds(new_);
        return env.hook;
      }
      if env.ucounts < 0 {
        AbortCreds(new_);
        return env.ucounts;
      }
      CommitCreds(new_, env.oldShared);
      return 0;
    }

    /** All or nothing: a call that does not succeed leaves every record, hence every count, alone. */
    twostate predicate Transacted(env: Env, call: Call, ret: int)
      requires old(Valid())
      reads this
    {
      var was := old(current.ids);
      && Valid()
      && ret == Returns(was, ns, env, call)
      && current.ids == After(was, ns, env, call)
      && (!Succeeds(was, ns, env, call) ==> current == old(current) && others == old(others))
      && (others == old(others) || others == [old(current)] + old(others))
    }

    method SysSetreuid(ruid: Id, euid: Id, env: Env) returns (ret: int)
      requires Valid()
      modifies this
      ensures Transacted(env, Setreuid(ruid, euid), ret)
      ensures env.capable && env.recordOk && env.userOk && env.hook >= 0 && env.ucounts >= 0 ==>
              (ruid == KEEP || ruid in ns) && (euid == KEEP || euid in ns) ==>
                && ret == 0 && (ruid != KEEP ==> current.ids.uid == ruid)
                && (euid != KEEP ==> current.ids.euid == current.ids.fsuid == euid)
    {
      SetreuidRule(current.ids, ns, env, ruid, euid);
      if (ruid != KEEP && !Named(ns, ruid)) || (euid != KEEP && !Named(ns, euid)) {
        return -EINVAL;
      }
      if !env.recordOk {
        return -ENOMEM;
      }
      var was := current.ids;
      var new_ := PrepareCreds();
      var ids := was;
      if ruid != KEEP {
        ids := ids.(uid := ruid);
        if was.uid != ruid && was.euid != ruid && !env.capable {
          AbortCreds(new_);
          return -EPERM;
        }
      }
      if euid != KEEP {
        ids := ids.(euid := euid);
        if was.uid != euid && was.euid != euid && was.suid != euid && !env.capable {
          AbortCreds(new_);
          return -EPERM;
        }
      }
      if ids.uid != was.uid {
        ret, new_ := SetUser(new_.(ids := ids), env.userOk);
        if ret < 0 {
          AbortCreds(new_);
          return;
        }
      }
      if ruid != KEEP || (euid != KEEP && euid != was.uid) {
        ids := ids.(suid := ids.euid);
      }
      ids := ids.(fsuid := ids.euid);
      assert ids == Moved(was, env.capable, Setreuid(ruid, euid));
      ret := Finish(new_.(ids := ids), env);
    }

    method SysSetuid(uid: Id, env: Env) returns (ret: int)
      requires Valid()
      modifies this
      ensures Transacted(env, Setuid(uid), ret)
      ensures env.capable && env.recordOk && env.userOk && env.hook >= 0 && env.ucounts >= 0 ==>
              uid != KEEP && uid in ns ==> ret == 0 && current.ids == Ids(uid, uid, uid, uid)
    {
      SetuidRule(current.ids, ns, env, uid);
      if !Named(ns, uid) {
        return -EINVAL;
      }
      if !env.recordOk {
        return -ENOMEM;
      }
      var was := current.ids;
      var new_ := PrepareCreds();
      if env.capable {
        new_ := new_.(ids := new_.ids.(suid := uid, uid := uid));
        if uid != was.uid {
          ret, new_ := SetUser(new_, env.userOk);
          if ret < 0 {
            AbortCreds(new_);
            return;
          }
        }
      } else if uid != was.uid && uid != new_.ids.suid {
        AbortCreds(new_);
        return -EPERM;
      }
      new_ := new_.(ids := new_.ids.(fsuid := uid, euid := uid));
      ret := Finish(new_, env);
    }

    /** The checks setresuid makes before it takes a private copy. */
    method CheckResuid(ruid: Id, euid: Id, suid: Id, env: Env) returns (done: bool, ret: int)
      ensures var call := Setresuid(ruid, euid, suid);
              && done == (!ArgumentsValid(ns, call) || NoOp(current.ids, ruid, euid, suid)
                          || !Permitted(current.ids, env.capable, call) || !env.recordOk)
              && (done ==> ret == Returns(current.ids, ns, env, call))
    {
      if || (ruid != KEEP && !Named(ns, ruid))
         || (euid != KEEP && !Named(ns, euid))
         || (suid != KEEP && !Named(ns, suid))
      {
        return true, -EINVAL;
      }
      var was := current.ids;
      if && (ruid == KEEP || ruid == was.uid)
         && (euid == KEEP || (euid == was.euid && euid == was.fsuid))
         && (suid == KEEP || suid == was.suid)
      {
        return true, 0;
      }
      var ruidNew := ruid != KEEP && ruid != was.uid && ruid != was.euid && ruid != was.suid;
      var euidNew := euid != KEEP && euid != was.uid && euid != was.euid && euid != was.suid;
      var suidNew := suid != KEEP && suid != was.uid && suid != was.euid && suid != was.suid;
      if (ruidNew || euidNew || suidNew) && !env.capable {
        return true, -EPERM;
      }
      if !env.recordOk {
        return true, -ENOMEM;
      }
      return false, 0;
    }

    method SysSetresuid(ruid: Id, euid: Id, suid: Id, env: Env) returns (ret: int)
      requires Valid()
      modifies this
      ensures Transacted(env, Setresuid(ruid, euid, suid), ret)
      ensures env.capable && env.recordOk && env.userOk && env.hook >= 0 && env.ucounts >= 0 ==>
              (ruid == KEEP || ruid in ns) && (euid == KEEP || euid in ns) && (suid == KEEP || suid in ns) ==>
                && ret == 0 && (ruid != KEEP ==> current.ids.uid == ruid)
                && (euid != KEEP ==> current.ids.euid == current.ids.fsuid == euid)
                && (suid != KEEP ==> current.ids.suid == suid)
    {
      SetresuidRule(current.ids, ns, env, ruid, euid, suid);
      var done;
      done, ret := CheckResuid(ruid, euid, suid, env);
      if done {
        return;
      }
      var was := current.ids;
      var new_ := PrepareCreds();
      var ids := was;
      if ruid != KEEP {
        ids := ids.(uid := ruid);
        if ruid != was.uid {
          ret, new_ := SetUser(new_.(ids := ids), env.userOk);
          if ret < 0 {
            AbortCreds(new_);
            return;
          }
        }
      }
      if euid != KEEP {
        ids := ids.(euid := euid);
      }
      if suid != KEEP {
        ids := ids.(suid := suid);
      }
      ids := ids.(fsuid := ids.euid);
      assert ids == Moved(was, env.capable, Setresuid(ruid, euid, suid));
      ret := Finish(new_.(ids := ids), env);
    }

    method SysSetfsuid(uid: Id, env: Env) returns (oldFsuid: int)
      requires Valid()
      modifies this
      ensures Transacted(env, Setfsuid(uid), oldFsuid)
      ensures oldFsuid == old(current.ids).fsuid
      ensures env.capable && env.recordOk && env.hook == 0 && uid != KEEP && uid in ns ==> current.ids.fsuid == uid
    {
      SetfsuidRule(current.ids, ns, env, uid);
      var was := current.ids;
      oldFsuid := was.fsuid;
      if !Named(ns, uid) || !env.recordOk {
        return;
      }
      var new_ := PrepareCreds();
      if uid == was.uid || uid == was.euid || uid == was.suid || uid == was.fsuid || env.capable {
        if uid != was.fsuid {
          new_ := new_.(ids := new_.ids.(fsuid := uid));
          if env.hook == 0 {
            CommitCreds(new_, env.oldShared);
            return;
          }
        }
      }
      AbortCreds(new_);
    }
  }
}
