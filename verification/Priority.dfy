/** setpriority and getpriority over sets of tasks (kernel/sys.c). */
module Priority {
  import opened Machine

  const MIN_NICE: int := -20
  const MAX_NICE: int := 19

  type Nice = n: int | MIN_NICE <= n <= MAX_NICE

  const PRIO_PROCESS: int := 0
  const PRIO_PGRP: int := 1
  const PRIO_USER: int := 2

  /** A task with the answers of code outside the file: CAP_SYS_NICE over it, can_nice, and the security hook. */
  datatype Task = Task(pid: int, pgrp: int, uid: int, euid: int, visible: bool, nice: Nice,
                       capNice: bool, canNice: bool, hook: int)

  datatype Caller = Caller(pid: int, pgrp: int, uid: int, euid: int)

  // ----- what the calls mean

  function Clamp(n: int): Nice {
    if n < MIN_NICE then MIN_NICE else if n > MAX_NICE then MAX_NICE else n
  }

  predicate Selected(c: Caller, which: int, who: int, t: Task) {
    if which == PRIO_PROCESS then t.pid == (if who == 0 then c.pid else who)
    else if which == PRIO_PGRP then t.pgrp == (if who == 0 then c.pgrp else who)
    else which == PRIO_USER && t.uid == (if who == 0 then c.uid else who) && t.visible
  }

  /** Why one task cannot be given the nice value; 0 if it can. */
  function Refusal(c: Caller, nice: Nice, t: Task): int {
    if t.uid != c.euid && t.euid != c.euid && !t.capNice then -EPERM
    else if nice < t.nice && !t.canNice then -EACCES
    else t.hook
  }

  predicate Taken(c: Caller, which: int, who: int, nice: Nice, t: Task) {
    Selected(c, which, who, t) && Refusal(c, nice, t) == 0
  }

  function Reniced(c: Caller, which: int, who: int, nice: Nice, t: Task): Task {
    if Taken(c, which, who, nice, t) then t.(nice := nice) else t
  }

  function RenicedAll(c: Caller, which: int, who: int, nice: Nice, ts: seq<Task>): (r: seq<Task>)
    ensures |r| == |ts| && forall i :: 0 <= i < |ts| ==> r[i] == ts[i].(nice := r[i].nice)
  {
    seq(|ts|, i requires 0 <= i < |ts| => Reniced(c, which, who, nice, ts[i]))
  }

  /** Which tasks a selection means: one pid, one group, or the visible tasks of one user; 0 stands for the caller's
      own. */
  lemma SelectedInFields(c: Caller, which: int, who: int, t: Task)
    ensures Selected(c, which, who, t) <==>
            || (which == 0 && t.pid == if who == 0 then c.pid else who)
            || (which == 1 && t.pgrp == if who == 0 then c.pgrp else who)
            || (which == 2 && t.visible && t.uid == if who == 0 then c.uid else who)
  {
  }

  /** Field by field, a task gets the clamped value exactly if it is selected, belongs to the caller or CAP_SYS_NICE
      covers it, is not raised beyond what it may have, and the hook agrees. */
  lemma RenicedInFields(c: Caller, which: int, who: int, niceval: int, ts: seq<Task>, i: nat)
    requires i < |ts|
    ensures var t := ts[i];
            var v: int := if niceval < -20 then -20 else if niceval > 19 then 19 else niceval;
            var allowed :=
              (t.uid == c.euid || t.euid == c.euid || t.capNice) && (t.nice <= v || t.canNice) && t.hook == 0;
            && RenicedAll(c, which, who, Clamp(niceval), ts)[i] ==
               (if Selected(c, which, who, t) && allowed then t.(nice := v) else t)
            && (Refusal(c, Clamp(niceval), t) == 0 <==> allowed)
            && (t.hook == 0 ==>
                  && (Refusal(c, Clamp(niceval), t) == -EPERM <==> t.uid != c.euid && t.euid != c.euid && !t.capNice)
                  && (Refusal(c, Clamp(niceval), t) == -EACCES <==>
                        (t.uid == c.euid || t.euid == c.euid || t.capNice) && v < t.nice && !t.canNice))
  {
  }

  /** How one task changes the error carried along. */
  function Fold1(c: Caller, nice: Nice, t: Task, error: int): int {
    if Refusal(c, nice, t) != 0 then Refusal(c, nice, t)
    else if error == -ESRCH then 0
    else error
  }

  function Fold(c: Caller, which: int, who: int, nice: Nice, ts: seq<Task>): int {
    if ts == [] then -ESRCH
    else
      var error := Fold(c, which, who, nice, ts[..|ts| - 1]);
      var t := ts[|ts| - 1];
      if Selected(c, which, who, t) then Fold1(c, nice, t, error) else error
  }

  ghost predicate Best(c: Caller, which: int, who: int, ts: seq<Task>, r: int) {
    if forall i :: 0 <= i < |ts| ==> !Selected(c, which, who, ts[i]) then r == -ESRCH
    else
      && (exists i :: 0 <= i < |ts| && Selected(c, which, who, ts[i]) && r == 20 - ts[i].nice)
      && (forall i :: 0 <= i < |ts| && Selected(c, which, who, ts[i]) ==> 20 - ts[i].nice <= r)
  }

  predicate DistinctPids(ts: seq<Task>) {
    forall i, j :: 0 <= i < j < |ts| ==> ts[i].pid != ts[j].pid
  }

  // ----- the calls as the source writes them

  class Scheduler {
    /** All threads, in the order in which the kernel walks them. */
    var tasks: seq<Task>
    /** Reference counts of the user structs that exist. */
    var refs: map<int, int>

    /** Pids are unique, and the user struct of every task exists. */
    ghost predicate Valid()
      reads this
    {
      DistinctPids(tasks) && forall i :: 0 <= i < |tasks| ==> tasks[i].uid in refs
    }

    method FindUser(uid: int) returns (found: bool)
      modifies this`refs
      ensures found == (uid in old(refs))
      ensures refs == if found then old(refs)[uid := old(refs)[uid] + 1] else old(refs)
    {
      found := uid in refs;
      if found {
        refs := refs[uid := refs[uid] + 1];
      }
    }

    method FreeUid(uid: int)
      requires uid in refs
      modifies this`refs
      ensures refs == old(refs)[uid := old(refs)[uid] - 1]
    {
      refs := refs[uid := refs[uid] - 1];
    }

    method FindTask(pid: int) returns (i: int)
      ensures -1 <= i < |tasks|
      ensures i >= 0 ==> tasks[i].pid == pid
      ensures i < 0 ==> forall j :: 0 <= j < |tasks| ==> tasks[j].pid != pid
    {
      i := 0;
      while i < |tasks|
        invariant 0 <= i <= |tasks|
        invariant forall j :: 0 <= j < i ==> tasks[j].pid != pid
      {
        if tasks[i].pid == pid {
          return;
        }
        i := i + 1;
      }
      i := -1;
    }

    method SetOnePrio(c: Caller, i: nat, niceval: Nice, error0: int) returns (error: int)
      requires i < |tasks|
      modifies this`tasks
      ensures error == Fold1(c, niceval, old(tasks)[i], error0)
      ensures tasks == if Refusal(c, niceval, old(tasks)[i]) != 0 then old(tasks)
                       else old(tasks)[i := old(tasks)[i].(nice := niceval)]
    {
      var p := tasks[i];
      if !(p.uid == c.euid || p.euid == c.euid || p.capNice) {
        return -EPERM;
      }
      if niceval < p.nice && !p.canNice {
        return -EACCES;
      }
      if p.hook != 0 {
        return p.hook;
      }
      error := error0;
      if error == -ESRCH {
        error := 0;
      }
      tasks := tasks[i := p.(nice := niceval)];
    }

    /** The walk over a group's or a user's tasks. */
    method SetEach(c: Caller, which: int, who: int, niceval: Nice) returns (error: int)
      modifies this`tasks
      ensures error == Fold(c, which, who, niceval, old(tasks))
      ensures tasks == RenicedAll(c, which, who, niceval, old(tasks))
    {
      error := -ESRCH;
      ghost var was := tasks;
      ghost var goal := RenicedAll(c, which, who, niceval, was);
      var i := 0;
      while i < |tasks|
        invariant 0 <= i <= |tasks| == |was|
        invariant forall j :: 0 <= j < i ==> tasks[j] == goal[j]
        invariant forall j :: i <= j < |was| ==> tasks[j] == was[j]
        invariant error == Fold(c, which, who, niceval, was[..i])
      {
        assert tasks[i] == was[i] && was[..i + 1][..i] == was[..i];
        if Selected(c, which, who, tasks[i]) {
          error := SetOnePrio(c, i, niceval, error);
        }
        assert tasks[i] == goal[i];
        i := i + 1;
      }
      assert was[..i] == was;
    }

    method SetProcess(c: Caller, who: int, niceval: Nice) returns (error: int)
      requires DistinctPids(tasks)
      modifies this`tasks
      ensures error == Fold(c, PRIO_PROCESS, who, niceval, old(tasks))
      ensures tasks == RenicedAll(c, PRIO_PROCESS, who, niceval, old(tasks))
    {
      error := -ESRCH;
      var i := FindTask(if who != 0 then who else c.pid);
      if i >= 0 {
        OneMatch(c, PRIO_PROCESS, who, niceval, tasks, i);
        error := SetOnePrio(c, i, niceval, error);
      } else {
        NoMatch(c, PRIO_PROCESS, who, niceval, tasks);
      }
    }

    method SetPriority(c: Caller, which: int, who: int, niceval0: int) returns (error: int)
      requires Valid()
      modifies this
      ensures Valid() && refs == old(refs)
      ensures which < PRIO_PROCESS || which > PRIO_USER ==> error == -EINVAL && tasks == old(tasks)
      ensures PRIO_PROCESS <= which <= PRIO_USER ==>
                && error == Fold(c, which, who, Clamp(niceval0), old(tasks))
                && tasks == RenicedAll(c, which, who, Clamp(niceval0), old(tasks))
    {
      if which > PRIO_USER || which < PRIO_PROCESS {
        return -EINVAL;
      }
      var niceval := niceval0;
      if niceval < MIN_NICE {
        niceval := MIN_NICE;
      }
      if niceval > MAX_NICE {
        niceval := MAX_NICE;
      }
      error := -ESRCH;
      if which == PRIO_PROCESS {
        error := SetProcess(c, who, niceval);
      } else if which == PRIO_PGRP {
        error := SetEach(c, which, who, niceval);
      } else {
        var uid := who;
        if who == 0 {
          uid := c.uid;
        } else if uid != c.uid {
          var found := FindUser(uid);
          if !found {
            NoMatch(c, which, who, niceval, tasks);
            return;
          }
        }
        error := SetEach(c, which, who, niceval);
        if uid != c.uid {
          FreeUid(uid);
        }
      }
    }

    method GetPriority(c: Caller, which: int, who: int) returns (retval: int)
      requires Valid()
      modifies this`refs
      ensures refs == old(refs)
      ensures which < PRIO_PROCESS || which > PRIO_USER ==> retval == -EINVAL
      ensures PRIO_PROCESS <= which <= PRIO_USER ==> Best(c, which, who, tasks, retval)
      ensures 0 <= which <= 2 ==>
                && (retval == -ESRCH <==> forall i :: 0 <= i < |tasks| ==> !Selected(c, which, who, tasks[i]))
                && (retval != -ESRCH ==>
                      exists i :: 0 <= i < |tasks| && Selected(c, which, who, tasks[i]) && retval == 20 - tasks[i].nice)
                && forall i :: 0 <= i < |tasks| && Selected(c, which, who, tasks[i]) ==> 20 - tasks[i].nice <= retval
    {
      if which > PRIO_USER || which < PRIO_PROCESS {
        return -EINVAL;
      }
      retval := -ESRCH;
      if which == PRIO_PROCESS {
        var i := FindTask(if who != 0 then who else c.pid);
        if i >= 0 {
          retval := MAX_NICE - tasks[i].nice + 1;
          assert Selected(c, which, who, tasks[i]);
        }
      } else if which == PRIO_PGRP {
        retval := MaxEach(c, which, who);
      } else {
        var uid := who;
        if who == 0 {
          uid := c.uid;
        } else if uid != c.uid {
          var found := FindUser(uid);
          if !found {
            return;
          }
        }
        retval := MaxEach(c, which, who);
        if uid != c.uid {
          FreeUid(uid);
        }
      }
    }

    method MaxEach(c: Caller, which: int, who: int) returns (retval: int)
      ensures Best(c, which, who, tasks, retval)
    {
      retval := -ESRCH;
      var i := 0;
      while i < |tasks|
        invariant 0 <= i <= |tasks|
        invariant || retval == -ESRCH
                  || exists j :: 0 <= j < i && Selected(c, which, who, tasks[j]) && retval == 20 - tasks[j].nice
        invariant forall j :: 0 <= j < i && Selected(c, which, who, tasks[j]) ==> 20 - tasks[j].nice <= retval
      {
        if Selected(c, which, who, tasks[i]) {
          var niceval := MAX_NICE - tasks[i].nice + 1;
          if niceval > retval {
            retval := niceval;
          }
        }
        i := i + 1;
      }
    }
  }

  lemma {:induction false} NoMatch(c: Caller, which: int, who: int, nice: Nice, ts: seq<Task>)
    requires forall i :: 0 <= i < |ts| ==> !Selected(c, which, who, ts[i])
    ensures Fold(c, which, who, nice, ts) == -ESRCH && RenicedAll(c, which, who, nice, ts) == ts
  {
    if ts != [] {
      NoMatch(c, which, who, nice, ts[..|ts| - 1]);
    }
  }

  lemma {:induction false} OneMatch(c: Caller, which: int, who: int, nice: Nice, ts: seq<Task>, i: nat)
    requires i < |ts| && forall j :: 0 <= j < |ts| ==> (Selected(c, which, who, ts[j]) <==> j == i)
    ensures Fold(c, which, who, nice, ts) == Fold1(c, nice, ts[i], -ESRCH)
    ensures RenicedAll(c, which, who, nice, ts) == ts[i := Reniced(c, which, who, nice, ts[i])]
  {
    var rest := ts[..|ts| - 1];
    if i == |ts| - 1 {
      NoMatch(c, which, who, nice, rest);
    } else {
      OneMatch(c, which, who, nice, rest, i);
    }
  }

  // ----- what the return value says

  /** The last selected task that was refused, or -1. */
  function LastRefused(c: Caller, which: int, who: int, nice: Nice, ts: seq<Task>): (b: int)
    ensures -1 <= b < |ts|
    ensures b >= 0 ==> Selected(c, which, who, ts[b]) && Refusal(c, nice, ts[b]) != 0
    ensures forall j :: b < j < |ts| && Selected(c, which, who, ts[j]) ==> Refusal(c, nice, ts[j]) == 0
  {
    if ts == [] then -1
    else if Selected(c, which, who, ts[|ts| - 1]) && Refusal(c, nice, ts[|ts| - 1]) != 0 then |ts| - 1
    else LastRefused(c, which, who, nice, ts[..|ts| - 1])
  }

  ghost predicate MatchAfter(c: Caller, which: int, who: int, ts: seq<Task>, b: int) {
    exists j :: b < j < |ts| && 0 <= j && Selected(c, which, who, ts[j])
  }

  /** The error carried over a whole walk: that of the last refusal, except that -ESRCH is forgotten as soon
      as another task succeeds. */
  lemma {:induction false} FoldValue(c: Caller, which: int, who: int, nice: Nice, ts: seq<Task>)
    ensures var b := LastRefused(c, which, who, nice, ts);
            var error := if b < 0 then -ESRCH else Refusal(c, nice, ts[b]);
            Fold(c, which, who, nice, ts) == if error == -ESRCH && MatchAfter(c, which, who, ts, b) then 0 else error
  {
    if ts != [] {
      var n := |ts| - 1;
      var rest := ts[..n];
      FoldValue(c, which, who, nice, rest);
      var b := LastRefused(c, which, who, nice, ts);
      if b < n {
        assert b == LastRefused(c, which, who, nice, rest);
        if Selected(c, which, who, ts[n]) {
          assert MatchAfter(c, which, who, ts, b);
        } else if MatchAfter(c, which, who, ts, b) {
          var j :| b < j < |ts| && 0 <= j && Selected(c, which, who, ts[j]);
          assert rest[j] == ts[j];
        }
      }
    }
  }

  ghost predicate NoHookSaysEsrch(c: Caller, which: int, who: int, ts: seq<Task>) {
    forall i :: 0 <= i < |ts| && Selected(c, which, who, ts[i]) ==> ts[i].hook != -ESRCH
  }

  /** Some task matched and every match took the value. */
  ghost predicate AllTaken(c: Caller, which: int, who: int, nice: Nice, ts: seq<Task>) {
    && MatchAfter(c, which, who, ts, -1)
    && forall i :: 0 <= i < |ts| && Selected(c, which, who, ts[i]) ==> Taken(c, which, who, nice, ts[i])
  }

  /** setpriority returns 0 exactly when some task matched and every match took the value. */
  lemma ZeroMeansAllTaken(c: Caller, which: int, who: int, nice: Nice, ts: seq<Task>)
    requires NoHookSaysEsrch(c, which, who, ts)
    ensures Fold(c, which, who, nice, ts) == 0 <==> AllTaken(c, which, who, nice, ts)
  {
    FoldValue(c, which, who, nice, ts);
    var b := LastRefused(c, which, who, nice, ts);
    if b >= 0 {
      assert !Taken(c, which, who, nice, ts[b]);
    }
  }

  /** The last refusal is a hook's -ESRCH, and another match follows it. */
  ghost predicate RefusalHidden(c: Caller, which: int, who: int, nice: Nice, ts: seq<Task>) {
    var b := LastRefused(c, which, who, nice, ts);
    b >= 0 && Refusal(c, nice, ts[b]) == -ESRCH && MatchAfter(c, which, who, ts, b)
  }

  /** For all hooks: the return value tells whether every match took the value exactly unless a refusal is hidden. */
  lemma ZeroTellsExactly(c: Caller, which: int, who: int, nice: Nice, ts: seq<Task>)
    ensures (Fold(c, which, who, nice, ts) == 0 <==> AllTaken(c, which, who, nice, ts))
            <==> !RefusalHidden(c, which, who, nice, ts)
  {
    FoldValue(c, which, who, nice, ts);
    var b := LastRefused(c, which, who, nice, ts);
    if b >= 0 {
      assert !Taken(c, which, who, nice, ts[b]);
    }
  }

  /** A hook that answers -ESRCH can hide a refusal. */
  lemma EsrchHookHidesRefusal()
    ensures var c := Caller(1, 1, 0, 0);
            var refused := Task(2, 7, 0, 0, true, 0, true, true, -ESRCH);
            var taken := Task(3, 7, 0, 0, true, 0, true, true, 0);
            && !AllTaken(c, PRIO_PGRP, 7, 5, [refused, taken])
            && Fold(c, PRIO_PGRP, 7, 5, [refused, taken]) == 0
  {
    var c := Caller(1, 1, 0, 0);
    var refused := Task(2, 7, 0, 0, true, 0, true, true, -ESRCH);
    var taken := Task(3, 7, 0, 0, true, 0, true, true, 0);
    var ts := [refused, taken];
    FoldValue(c, PRIO_PGRP, 7, 5, ts);
    assert LastRefused(c, PRIO_PGRP, 7, 5, ts) == LastRefused(c, PRIO_PGRP, 7, 5, ts[..1]) == 0;
    assert Selected(c, PRIO_PGRP, 7, ts[1]) && !Taken(c, PRIO_PGRP, 7, 5, ts[0]);
  }

  /** After a setpriority that returned 0, getpriority with the same selection reports 20 minus the clamped value
      exactly if no match that was refused had a lower nice value. */
  lemma SetThenGet(c: Caller, which: int, who: int, niceval: int, ts: seq<Task>, r: int)
    requires Fold(c, which, who, Clamp(niceval), ts) == 0
    requires Best(c, which, who, RenicedAll(c, which, who, Clamp(niceval), ts), r)
    ensures r == 20 - Clamp(niceval) <==>
            forall i :: 0 <= i < |ts| && Selected(c, which, who, ts[i]) && Refusal(c, Clamp(niceval), ts[i]) != 0 ==>
                          Clamp(niceval) <= ts[i].nice
  {
    var nice := Clamp(niceval);
    var after := RenicedAll(c, which, who, nice, ts);
    FoldValue(c, which, who, nice, ts);
    var b := LastRefused(c, which, who, nice, ts);
    var j :| b < j < |ts| && 0 <= j && Selected(c, which, who, ts[j]);
    assert Taken(c, which, who, nice, ts[j]) && after[j].nice == nice && Selected(c, which, who, after[j]);
    forall i | 0 <= i < |after|
      ensures Selected(c, which, who, after[i]) == Selected(c, which, who, ts[i])
      ensures Selected(c, which, who, after[i]) ==> after[i].nice == nice || Refusal(c, nice, ts[i]) != 0
      ensures Refusal(c, nice, ts[i]) != 0 ==> after[i] == ts[i]
    {
    }
  }
}
