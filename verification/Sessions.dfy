/** Process groups and sessions: setpgid, setsid and what fork, clone, exec and
    exit do to them (kernel/sys.c).  Each call is one atomic step. */
module Sessions {
  import opened Machine

  type Pid = int

  /** The fields that a thread group shares through its signal struct. */
  datatype Process = Process(parent: Pid, pgrp: Pid, session: Pid, leader: bool, forkNoExec: bool)

  /** Thread group leaders by pid, and the other threads with the process they belong to. */
  datatype Table = Table(procs: map<Pid, Process>, threads: map<Pid, Pid>)

  // ----- the invariant

  ghost predicate GroupInOneSession(t: Table) {
    forall p, q :: p in t.procs && q in t.procs && t.procs[p].pgrp == t.procs[q].pgrp
                   ==> t.procs[p].session == t.procs[q].session
  }

  ghost predicate LeadersAtHome(t: Table) {
    forall p :: p in t.procs && t.procs[p].leader ==> t.procs[p].pgrp == p && t.procs[p].session == p
  }

  /** A group numbered by a live process lies in that process's session. */
  ghost predicate GroupNumberAgrees(t: Table) {
    forall q :: q in t.procs && t.procs[q].pgrp in t.procs
                ==> t.procs[t.procs[q].pgrp].session == t.procs[q].session
  }

  /** A session numbered by a live process is led by that process. */
  ghost predicate SessionNumberLeads(t: Table) {
    forall q :: q in t.procs && t.procs[q].session in t.procs ==> t.procs[t.procs[q].session].leader
  }

  ghost predicate Inv(t: Table) {
    && GroupInOneSession(t)
    && LeadersAtHome(t)
    && GroupNumberAgrees(t)
    && SessionNumberLeads(t)
    && (forall p :: p in t.procs ==> p > 0)
    && (forall h :: h in t.threads ==> h !in t.procs && t.threads[h] in t.procs)
  }

  // ----- setpgid and setsid as relations between tables

  function TargetOf(caller: Pid, pid: Pid): Pid {
    if pid == 0 then caller else pid
  }

  function GroupOf(target: Pid, pgid: Pid): Pid {
    if pgid == 0 then target else pgid
  }

  /** The target is the caller, or a child of the caller that shares its session and has not exec'ed. */
  predicate OwnOrFreshChild(t: Table, caller: Pid, target: Pid)
    requires caller in t.procs && target in t.procs
  {
    if t.procs[target].parent == caller
    then t.procs[target].session == t.procs[caller].session && t.procs[target].forkNoExec
    else target == caller
  }

  /** The group exists and lies in the caller's session. */
  predicate GroupReachable(t: Table, caller: Pid, pgid: Pid)
    requires caller in t.procs
  {
    exists q :: q in t.procs && t.procs[q].pgrp == pgid && t.procs[q].session == t.procs[caller].session
  }

  /** The moves POSIX allows, apart from the security hook. */
  predicate MayJoin(t: Table, caller: Pid, target: Pid, group: Pid)
    requires caller in t.procs
  {
    && group >= 0
    && target in t.procs
    && OwnOrFreshChild(t, caller, target)
    && !t.procs[target].leader
    && (group == target || GroupReachable(t, caller, group))
  }

  /** Which rule a refused move breaks, in the order in which POSIX error codes are reported here. */
  function Refusal(t: Table, caller: Pid, target: Pid, group: Pid): (err: int)
    requires caller in t.procs
    ensures err == 0 <==> MayJoin(t, caller, target, group)
  {
    if group < 0 then -EINVAL
    else if target !in t.procs then (if target in t.threads then -EINVAL else -ESRCH)
    else if target != caller && t.procs[target].parent != caller then -ESRCH
    else if !OwnOrFreshChild(t, caller, target) then
      (if t.procs[target].session != t.procs[caller].session then -EPERM else -EACCES)
    else if MayJoin(t, caller, target, group) then 0
    else -EPERM
  }

  /** The same, field by field. */
  lemma RefusalInFields(t: Table, caller: Pid, target: Pid, group: Pid)
    requires Inv(t) && caller in t.procs
    ensures var err, p := Refusal(t, caller, target, group), t.procs;
            && (err == 0 <==>
                  && group >= 0 && target in p && !p[target].leader
                  && (if p[target].parent == caller then p[target].session == p[caller].session && p[target].forkNoExec
                      else target == caller)
                  && (group == target || exists q :: q in p && p[q].pgrp == group && p[q].session == p[caller].session))
            && (err == -EINVAL <==> group < 0 || target in t.threads)
            && (err == -ESRCH <==> group >= 0 && target !in t.threads
                                   && (target !in p || (target != caller && p[target].parent != caller)))
            && (err == -EACCES <==> group >= 0 && target in p && p[target].parent == caller
                                    && p[target].session == p[caller].session && !p[target].forkNoExec)
            && err in {0, -EINVAL, -ESRCH, -EACCES, -EPERM}
  {
  }

  function Joined(t: Table, target: Pid, group: Pid): Table
    requires target in t.procs
  {
    t.(procs := t.procs[target := t.procs[target].(pgrp := group)])
  }

  predicate GroupExists(t: Table, pgid: Pid) {
    exists q :: q in t.procs && t.procs[q].pgrp == pgid
  }

  predicate MaySetsid(t: Table, caller: Pid)
    requires caller in t.procs
  {
    !t.procs[caller].leader && !GroupExists(t, caller)
  }

  function Detached(t: Table, caller: Pid): Table
    requires caller in t.procs
  {
    t.(procs := t.procs[caller := t.procs[caller].(leader := true, session := caller, pgrp := caller)])
  }

  // ----- the calls as the source writes them

  class ProcessTable {
    var procs: map<Pid, Process>
    var threads: map<Pid, Pid>

    ghost function View(): Table
      reads this
    {
      Table(procs, threads)
    }

    /** The list of a group holds its members in an order of its own: any member can come first. */
    method FirstOfGroup(pgid: Pid) returns (found: bool, g: Pid)
      ensures found == GroupExists(View(), pgid)
      ensures found ==> g in procs && procs[g].pgrp == pgid
    {
      found, g := false, 0;
      if q :| q in procs && procs[q].pgrp == pgid {
        found, g := true, q;
      }
    }

    method Setpgid(caller: Pid, pid0: Pid, pgid0: Pid, hook: int) returns (err: int)
      requires Inv(View()) && caller in procs
      modifies this
      ensures Inv(View())
      ensures var target := TargetOf(caller, pid0);
              var group := GroupOf(target, pgid0);
              var refusal := old(Refusal(View(), caller, target, group));
              && err == (if refusal != 0 then refusal else hook)
              && (err == 0 ==> old(MayJoin(View(), caller, target, group)))
              && View() == if err == 0 then old(Joined(View(), target, group)) else old(View())
      // In terms of the fields: which moves are accepted, and why the others are not.
      ensures var target := if pid0 == 0 then caller else pid0;
              var group := if pgid0 == 0 then target else pgid0;
              var p := old(procs);
              err == 0 <==> && hook == 0 && group >= 0 && target in p && !p[target].leader
                            && (if p[target].parent == caller
                                then p[target].session == p[caller].session && p[target].forkNoExec
                                else target == caller)
                            && (group == target ||
                                exists q :: q in p && p[q].pgrp == group && p[q].session == p[caller].session)
      ensures var target := if pid0 == 0 then caller else pid0;
              var group := if pgid0 == 0 then target else pgid0;
              var p := old(procs);
              hook == 0 ==>
                && (err == -EINVAL <==> group < 0 || target in old(threads))
                && (err == -ESRCH <==> group >= 0 && target !in old(threads)
                                       && (target !in p || (target != caller && p[target].parent != caller)))
                && (err == -EACCES <==> group >= 0 && target in p && p[target].parent == caller
                                        && p[target].session == p[caller].session && !p[target].forkNoExec)
                && err in {0, -EINVAL, -ESRCH, -EACCES, -EPERM}
      // What an accepted one changes.
      ensures err == 0 ==>
                var target := if pid0 == 0 then caller else pid0;
                && procs.Keys == old(procs.Keys) && threads == old(threads) && target in procs
                && procs[target] == old(procs[target]).(pgrp := if pgid0 == 0 then target else pgid0)
                && forall q :: q in procs && q != target ==> procs[q] == old(procs[q])
      ensures err != 0 ==> procs == old(procs) && threads == old(threads)
    {
      RefusalInFields(View(), caller, TargetOf(caller, pid0), GroupOf(TargetOf(caller, pid0), pgid0));
      var pid, pgid := pid0, pgid0;
      if pid == 0 {
        pid := caller;
      }
      if pgid == 0 {
        pgid := pid;
      }
      if pgid < 0 {
        return -EINVAL;
      }
      if pid !in procs {
        return if pid in threads then -EINVAL else -ESRCH;
      }
      var p := procs[pid];
      if p.parent == caller {
        if p.session != procs[caller].session {
          return -EPERM;
        }
        if !p.forkNoExec {
          return -EACCES;
        }
      } else if pid != caller {
        return -ESRCH;
      }
      if p.leader {
        return -EPERM;
      }
      if pgid != pid {
        var found, g := FirstOfGroup(pgid);
        if !found || procs[g].session != procs[caller].session {
          return -EPERM;
        }
      }
      if hook != 0 {
        return hook;
      }
      if p.pgrp != pgid {
        procs := procs[pid := p.(pgrp := pgid)];
      }
      JoinKeepsInv(old(View()), caller, pid, pgid);
      assert View() == Joined(old(View()), pid, pgid);
      err := 0;
    }

    method SetSpecialPids(caller: Pid)
      requires caller in procs
      modifies this`procs
      ensures procs == old(procs)[caller := old(procs[caller]).(session := caller, pgrp := caller)]
    {
      if procs[caller].session != caller {
        procs := procs[caller := procs[caller].(session := caller)];
      }
      if procs[caller].pgrp != caller {
        procs := procs[caller := procs[caller].(pgrp := caller)];
      }
    }

    method Setsid(caller: Pid) returns (err: int)
      requires Inv(View()) && caller in procs
      modifies this
      ensures Inv(View())
      ensures err == if old(MaySetsid(View(), caller)) then caller else -EPERM
      ensures View() == if err > 0 then old(Detached(View(), caller)) else old(View())
      // In terms of the fields.
      ensures err == -EPERM || err == caller > 0
      ensures err == caller <==>
                !old(procs[caller]).leader && forall q :: q in old(procs) ==> old(procs[q]).pgrp != caller
      ensures err == caller ==>
                && procs.Keys == old(procs.Keys) && threads == old(threads)
                && procs[caller] == old(procs[caller]).(leader := true, session := caller, pgrp := caller)
                && forall q :: q in procs && q != caller ==> procs[q] == old(procs[q])
      ensures err == -EPERM ==> procs == old(procs) && threads == old(threads)
    {
      if procs[caller].leader {
        return -EPERM;
      }
      var found, _ := FirstOfGroup(caller);
      if found {
        return -EPERM;
      }
      procs := procs[caller := procs[caller].(leader := true)];
      SetSpecialPids(caller);
      DetachKeepsInv(old(View()), caller);
      assert View() == Detached(old(View()), caller);
      err := caller;
    }

    /** One operation.  Fork, clone, exec and exit happen elsewhere. */
    method Perform(op: Op) returns (ret: int)
      requires Inv(View()) && Enabled(View(), op)
      modifies this
      ensures Inv(View()) && View() == old(Step(View(), op)) && ret == old(Result(View(), op))
    {
      ret := 0;
      match op {
        case Setpgid(caller, pid, pgid, hook) =>
          ret := Setpgid(caller, pid, pgid, hook);
        case Setsid(caller) =>
          ret := Setsid(caller);
        case _ =>
          StepKeepsInv(View(), op);
          var t := Step(Table(procs, threads), op);
          procs, threads := t.procs, t.threads;
      }
    }

    /** Any run: the calls, in order, give the results and leave the table of the steps, and every process is as its
        history tells. */
    method PerformAll(ops: seq<Op>) returns (results: seq<int>)
      requires Inv(View()) && Runnable(View(), ops)
      modifies this
      ensures Inv(View()) && View() == old(Run(View(), ops)) && results == old(Results(View(), ops))
      ensures forall q :: q in procs ==> procs[q] == Told(old(View()), ops, results, q)
    {
      ghost var t := View();
      results := [];
      var i := 0;
      RunnablePrefix(t, ops, 0);
      while i < |ops|
        invariant 0 <= i <= |ops| && Inv(View())
        invariant Runnable(t, ops[..i]) && View() == Run(t, ops[..i]) && results == Results(t, ops[..i])
      {
        RunnablePrefix(t, ops, i + 1);
        assert ops[..i + 1][..i] == ops[..i];
        var ret := Perform(ops[i]);
        results := results + [ret];
        i := i + 1;
      }
      assert ops[..i] == ops;
      forall q | q in procs
        ensures procs[q] == Told(t, ops, results, q)
      {
        RunAsTold(t, ops, q);
      }
    }
  }

  lemma {:induction false} RunnablePrefix(t: Table, ops: seq<Op>, i: nat)
    requires Runnable(t, ops) && i <= |ops|
    ensures Runnable(t, ops[..i])
  {
    if i == |ops| {
      assert ops[..i] == ops;
    } else {
      var rest := ops[..|ops| - 1];
      RunnablePrefix(t, rest, i);
      assert rest[..i] == ops[..i];
    }
  }

  lemma JoinKeepsInv(t: Table, caller: Pid, target: Pid, group: Pid)
    requires Inv(t) && caller in t.procs && MayJoin(t, caller, target, group)
    ensures Inv(Joined(t, target, group))
  {
  }

  lemma DetachKeepsInv(t: Table, caller: Pid)
    requires Inv(t) && caller in t.procs && MaySetsid(t, caller)
    ensures Inv(Detached(t, caller))
  {
  }

  // ----- whole runs

  datatype Op =
    | Setpgid(caller: Pid, pid: Pid, pgid: Pid, hook: int)
    | Setsid(caller: Pid)
    | Fork(parent: Pid, child: Pid)
    | CloneThread(process: Pid, tid: Pid)
    | Exec(process: Pid)
    | Exit(process: Pid, heir: Pid)

  /** A number that no process, thread, group or session uses. */
  predicate Unused(t: Table, n: Pid) {
    && n > 0 && n !in t.procs && n !in t.threads
    && forall q :: q in t.procs ==> t.procs[q].pgrp != n && t.procs[q].session != n
  }

  predicate Enabled(t: Table, op: Op) {
    match op
    case Setpgid(caller, _, _, _) => caller in t.procs
    case Setsid(caller) => caller in t.procs
    case Fork(parent, child) => parent in t.procs && Unused(t, child)
    case CloneThread(process, tid) => process in t.procs && Unused(t, tid)
    case Exec(process) => process in t.procs
    case Exit(process, _) => process in t.procs
  }

  function Step(t: Table, op: Op): Table
    requires Enabled(t, op)
  {
    match op
    case Setpgid(caller, pid, pgid, hook) =>
      var target := TargetOf(caller, pid);
      var group := GroupOf(target, pgid);
      if hook == 0 && MayJoin(t, caller, target, group) then Joined(t, target, group) else t
    case Setsid(caller) =>
      if MaySetsid(t, caller) then Detached(t, caller) else t
    case Fork(parent, child) =>
      t.(procs := t.procs[child := t.procs[parent].(parent := parent, leader := false, forkNoExec := true)])
    case CloneThread(process, tid) =>
      t.(threads := t.threads[tid := process])
    case Exec(process) =>
      t.(procs := t.procs[process := t.procs[process].(forkNoExec := false)])
    case Exit(process, heir) =>
      Table(
        map q | q in t.procs && q != process ::
          if t.procs[q].parent == process then t.procs[q].(parent := heir) else t.procs[q],
        map h | h in t.threads && t.threads[h] != process :: t.threads[h])
  }

  /** What an operation returns; the ones outside of this file return nothing of interest. */
  function Result(t: Table, op: Op): int
    requires Enabled(t, op)
  {
    match op
    case Setpgid(caller, pid, pgid, hook) =>
      var target := TargetOf(caller, pid);
      var refusal := Refusal(t, caller, target, GroupOf(target, pgid));
      if refusal != 0 then refusal else hook
    case Setsid(caller) => if MaySetsid(t, caller) then caller else -EPERM
    case _ => 0
  }

  predicate Runnable(t: Table, ops: seq<Op>)
    decreases |ops|, 0
  {
    ops == [] ||
    var rest := ops[..|ops| - 1];
    Runnable(t, rest) && Enabled(Run(t, rest), ops[|ops| - 1])
  }

  function Run(t: Table, ops: seq<Op>): Table
    requires Runnable(t, ops)
    decreases |ops|, 1
  {
    if ops == [] then t else Step(Run(t, ops[..|ops| - 1]), ops[|ops| - 1])
  }

  function Results(t: Table, ops: seq<Op>): (r: seq<int>)
    requires Runnable(t, ops)
    ensures |r| == |ops|
  {
    if ops == [] then []
    else
      var rest := ops[..|ops| - 1];
      Results(t, rest) + [Result(Run(t, rest), ops[|ops| - 1])]
  }

  lemma StepKeepsInv(t: Table, op: Op)
    requires Inv(t) && Enabled(t, op)
    ensures Inv(Step(t, op))
  {
    match op
    case Setpgid(caller, pid, pgid, hook) =>
      var target := TargetOf(caller, pid);
      var group := GroupOf(target, pgid);
      if hook == 0 && MayJoin(t, caller, target, group) {
        JoinKeepsInv(t, caller, target, group);
      }
    case Setsid(caller) =>
      if MaySetsid(t, caller) {
        DetachKeepsInv(t, caller);
      }
    case Fork(_, _) =>
    case CloneThread(_, _) =>
    case Exec(_) =>
    case Exit(_, _) =>
  }

  /** In every run each group stays inside one session, and session leaders stay at home. */
  lemma {:induction false} RunKeepsInv(t: Table, ops: seq<Op>)
    requires Inv(t) && Runnable(t, ops)
    ensures Inv(Run(t, ops))
  {
    if ops != [] {
      RunKeepsInv(t, ops[..|ops| - 1]);
      StepKeepsInv(Run(t, ops[..|ops| - 1]), ops[|ops| - 1]);
    }
  }

  // ----- every process by its history

  /** A process as the answers of a run tell: the start, the fork it came from, the accepted setpgid and setsid calls
      on it since, exec, and exits of its parents.  Nothing here looks at a table in between. */
  function Told(t: Table, ops: seq<Op>, results: seq<int>, q: Pid): Process
    requires |ops| == |results|
    decreases |ops|
  {
    if |ops| == 0 then (if q in t.procs then t.procs[q] else Process(0, 0, 0, false, false))
    else
      var n := |ops| - 1;
      var was := Told(t, ops[..n], results[..n], q);
      match ops[n]
      case Setpgid(caller, pid, pgid, _) =>
        if results[n] == 0 && q == (if pid == 0 then caller else pid)
        then was.(pgrp := if pgid == 0 then q else pgid) else was
      case Setsid(caller) =>
        if results[n] > 0 && q == caller then was.(leader := true, session := q, pgrp := q) else was
      case Fork(parent, child) =>
        if q == child
        then Told(t, ops[..n], results[..n], parent).(parent := parent, leader := false, forkNoExec := true) else was
      case CloneThread(_, _) => was
      case Exec(process) => if q == process then was.(forkNoExec := false) else was
      case Exit(process, heir) => if was.parent == process then was.(parent := heir) else was
  }

  lemma StepAsTold(t: Table, op: Op, q: Pid)
    requires Inv(t) && Enabled(t, op) && q in Step(t, op).procs
    ensures var now := Step(t, op).procs[q];
            match op
            case Setpgid(caller, pid, pgid, _) =>
              && q in t.procs
              && now == if Result(t, op) == 0 && q == (if pid == 0 then caller else pid)
                        then t.procs[q].(pgrp := if pgid == 0 then q else pgid) else t.procs[q]
            case Setsid(caller) =>
              && q in t.procs
              && now == if Result(t, op) > 0 && q == caller
                        then t.procs[q].(leader := true, session := q, pgrp := q) else t.procs[q]
            case Fork(parent, child) => q == child || (q in t.procs && now == t.procs[q])
            case CloneThread(_, _) => q in t.procs && now == t.procs[q]
            case Exec(process) => q in t.procs
            case Exit(process, _) => q in t.procs
  {
  }

  /** In any run every live process is as its history tells: its group is that of the last accepted setpgid on it, its
      own number after a later setsid, or the one it was forked with, and so for its other fields. */
  lemma {:induction false} RunAsTold(t: Table, ops: seq<Op>, q: Pid)
    requires Inv(t) && Runnable(t, ops) && q in Run(t, ops).procs
    ensures Run(t, ops).procs[q] == Told(t, ops, Results(t, ops), q)
  {
    if ops != [] {
      var n := |ops| - 1;
      var rest, op := ops[..n], ops[n];
      RunKeepsInv(t, rest);
      StepAsTold(Run(t, rest), op, q);
      assert Results(t, ops)[..n] == Results(t, rest) && Results(t, ops)[n] == Result(Run(t, rest), op);
      if op.Fork? && q == op.child {
        RunAsTold(t, rest, op.parent);
      } else {
        RunAsTold(t, rest, q);
      }
    }
  }

  /** The table at boot: init, not yet a session leader, in group and session 0. */
  function Boot(): Table {
    Table(map[1 := Process(0, 0, 0, false, false)], map[])
  }

  lemma RunsFromBoot(ops: seq<Op>)
    requires Runnable(Boot(), ops)
    ensures Inv(Run(Boot(), ops))
  {
    assert Inv(Boot());
    RunKeepsInv(Boot(), ops);
  }

  /** A successful setsid leaves the caller alone in its new session and its new group. */
  lemma SetsidIsolates(t: Table, caller: Pid, q: Pid)
    requires Inv(t) && caller in t.procs && MaySetsid(t, caller)
    requires q in t.procs && q != caller
    ensures var t' := Detached(t, caller);
            && t'.procs[caller].leader && t'.procs[caller].session == caller && t'.procs[caller].pgrp == caller
            && t'.procs[q].session != caller && t'.procs[q].pgrp != caller
  {
    assert t.procs[q].session in t.procs ==> t.procs[t.procs[q].session].leader;
  }

  /** Along a run in which `q` does not exit, `q` keeps its session unless it leads a new one,
      and once it is a leader neither its group nor its session changes again. */
  lemma {:induction false} SessionChangesOnlyBySetsid(t: Table, ops: seq<Op>, q: Pid)
    requires Inv(t) && Runnable(t, ops) && q in t.procs
    requires forall k :: 0 <= k < |ops| && ops[k].Exit? ==> ops[k].process != q
    ensures var t' := Run(t, ops);
            && q in t'.procs
            && (t'.procs[q].session == t.procs[q].session || (t'.procs[q].leader && t'.procs[q].session == q))
            && (t.procs[q].leader ==> t'.procs[q].leader && t'.procs[q].pgrp == q && t'.procs[q].session == q)
  {
    if ops != [] {
      var rest := ops[..|ops| - 1];
      SessionChangesOnlyBySetsid(t, rest, q);
      RunKeepsInv(t, rest);
      assert ops[|ops| - 1].Exit? ==> ops[|ops| - 1].process != q;
    }
  }
}
