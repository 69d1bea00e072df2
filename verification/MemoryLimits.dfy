/** The registry of per-process memory limits: four calls, each source file with the list it really walks
    (kernel/usac/project3). */
module MemoryLimits {
  import opened Machine

  datatype Entry = Entry(pid: int, limit: u64)

  const EXCEEDED: int := 100
  const REGISTERED: int := 101

  /** `shared` is the list of add and get; update and remove each have a file-local list of the same name. */
  datatype State = State(shared: seq<Entry>, updates: seq<Entry>, removes: seq<Entry>)

  /** Answers from outside: CAP_SYS_ADMIN, whether a task with that pid exists, its memory use in bytes, and kmalloc. */
  datatype Env = Env(capable: bool, taskFound: bool, usage: i64, allocOk: bool)

  predicate Registered(list: seq<Entry>, pid: int) {
    exists i :: 0 <= i < |list| && list[i].pid == pid
  }

  // ----- what each call returns and leaves

  function AddResult(list: seq<Entry>, pid: int, limit: u64, env: Env): int {
    if pid <= 0 || limit == 0 then -EINVAL
    else if !env.capable then -EPERM
    else if !env.taskFound then -ESRCH
    else if env.usage > I64(limit) then -EXCEEDED
    else if Registered(list, pid) then -REGISTERED
    else if !env.allocOk then -ENOMEM
    else 0
  }

  function UpdateResult(list: seq<Entry>, pid: int, limit: u64, capable: bool): int {
    if pid <= 0 || limit == 0 then -EINVAL
    else if !capable then -EPERM
    else if Registered(list, pid) then 0 else -ESRCH
  }

  function RemoveResult(list: seq<Entry>, pid: int, capable: bool): int {
    if pid <= 0 then -EINVAL
    else if !capable then -EPERM
    else if Registered(list, pid) then 0 else -ESRCH
  }

  /** The number of entries reported, or the error, and the entries. */
  function GetResult(list: seq<Entry>, buffer: bool, counter: bool, maxEntries: u64): (int, seq<Entry>) {
    if maxEntries == 0 || !buffer || !counter then (-EINVAL, [])
    else
      var n := Min(maxEntries, |list|);
      (n, list[..n])
  }

  /** Position of the first entry for `pid`, or the length. */
  function Find(list: seq<Entry>, pid: int): (i: nat)
    ensures i <= |list| && (i < |list| ==> list[i].pid == pid)
    ensures forall j :: 0 <= j < i ==> list[j].pid != pid
    ensures i < |list| <==> Registered(list, pid)
  {
    if list == [] then 0
    else if list[0].pid == pid then 0
    else
      var r := Find(list[1..], pid);
      assert r < |list[1..]| ==> list[1 + r].pid == pid;
      1 + r
  }

  class Registry {
    var shared: seq<Entry>
    var updates: seq<Entry>
    var removes: seq<Entry>
    /** Task references held by the calls. */
    var taskRefs: int

    ghost function View(): State
      reads this
    {
      State(shared, updates, removes)
    }

    constructor ()
      ensures View() == Boot() && taskRefs == 0
    {
      shared, updates, removes, taskRefs := [], [], [], 0;
    }

    /** Every path gives back the reference it took. */
    method AddMemoryLimit(pid: int, limit: u64, env: Env) returns (ret: int)
      modifies this
      ensures ret == AddResult(old(shared), pid, limit, env) && taskRefs == old(taskRefs)
      ensures View() == if ret == 0 then old(View()).(shared := [Entry(pid, limit)] + old(shared)) else old(View())
      // When it succeeds, and what each refusal means.
      ensures ret == 0 <==> && pid > 0 && limit > 0 && env.capable && env.taskFound && env.allocOk
                            && (if limit < TWO63 then env.usage <= limit else env.usage <= limit - TWO64)
                            && forall i :: 0 <= i < |old(shared)| ==> old(shared)[i].pid != pid
      ensures ret == -EINVAL <==> pid <= 0 || limit == 0
      ensures ret == -EPERM <==> pid > 0 && limit > 0 && !env.capable
      ensures ret == -ESRCH <==> pid > 0 && limit > 0 && env.capable && !env.taskFound
      ensures ret == -100 <==> && pid > 0 && limit > 0 && env.capable && env.taskFound
                               && (if limit < TWO63 then env.usage > limit else env.usage > limit - TWO64)
      ensures ret == -101 ==> exists i :: 0 <= i < |old(shared)| && old(shared)[i].pid == pid
      ensures ret == -ENOMEM ==> !env.allocOk
      ensures ret in {0, -EINVAL, -EPERM, -ESRCH, -100, -101, -ENOMEM}
      ensures ret == 0 ==> shared == [Entry(pid, limit)] + old(shared)
      ensures ret != 0 ==> shared == old(shared)
      ensures updates == old(updates) && removes == old(removes)
    {
      if pid <= 0 || limit <= 0 {
        return -EINVAL;
      }
      if !env.capable {
        return -EPERM;
      }
      if !env.taskFound {
        return -ESRCH;
      }
      taskRefs := taskRefs + 1;
      if env.usage > I64(limit) {
        taskRefs := taskRefs - 1;
        return -EXCEEDED;
      }
      var i := 0;
      while i < |shared|
        modifies this`taskRefs
        invariant taskRefs == old(taskRefs) + 1
        invariant 0 <= i <= |shared| && forall j :: 0 <= j < i ==> shared[j].pid != pid
      {
        if shared[i].pid == pid {
          taskRefs := taskRefs - 1;
          return -REGISTERED;
        }
        i := i + 1;
      }
      if !env.allocOk {
        taskRefs := taskRefs - 1;
        return -ENOMEM;
      }
      shared := [Entry(pid, limit)] + shared;
      taskRefs := taskRefs - 1;
      return 0;
    }

    /** The first entries of the shared list, as many as asked for and as there are. */
    method GetMemoryLimits(buffer: bool, counter: bool, maxEntries: u64) returns (ret: int, out: seq<Entry>)
      ensures (ret, out) == GetResult(shared, buffer, counter, maxEntries)
      ensures ret < 0 <==> maxEntries == 0 || !buffer || !counter
      ensures ret < 0 ==> ret == -EINVAL && out == []
      ensures ret >= 0 ==> && ret == |out| <= maxEntries && out <= shared
                           && (|out| == maxEntries || out == shared)
    {
      out := [];
      if maxEntries <= 0 {
        return -EINVAL, out;
      }
      if !buffer || !counter {
        return -EINVAL, out;
      }
      var count := 0;
      var i := 0;
      while i < |shared|
        invariant 0 <= i <= |shared| && count == i <= maxEntries && out == shared[..i]
      {
        if count >= maxEntries {
          break;
        }
        out := out + [Entry(shared[i].pid, shared[i].limit)];
        count := count + 1;
        i := i + 1;
      }
      ret := count;
    }

    method UpdateMemoryLimit(pid: int, limit: u64, capable: bool) returns (ret: int)
      modifies this
      ensures ret == UpdateResult(old(updates), pid, limit, capable)
      ensures ret == 0 <==> && pid > 0 && limit > 0 && capable
                            && exists i :: 0 <= i < |old(updates)| && old(updates)[i].pid == pid
      ensures ret == -EINVAL <==> pid <= 0 || limit == 0
      ensures ret == -EPERM <==> pid > 0 && limit > 0 && !capable
      ensures ret in {0, -EINVAL, -EPERM, -ESRCH}
      ensures shared == old(shared) && removes == old(removes) && |updates| == |old(updates)|
      ensures taskRefs == old(taskRefs)
      ensures var i := Find(old(updates), pid);
              View() == if ret == 0 then old(View()).(updates := old(updates)[i := Entry(pid, limit)]) else old(View())
    {
      if pid <= 0 || limit <= 0 {
        return -EINVAL;
      }
      if !capable {
        return -EPERM;
      }
      var i := 0;
      while i < |updates|
        modifies this`updates
        invariant updates == old(updates)
        invariant 0 <= i <= |updates| && forall j :: 0 <= j < i ==> updates[j].pid != pid
      {
        if updates[i].pid == pid {
          updates := updates[i := updates[i].(limit := limit)];
          return 0;
        }
        i := i + 1;
      }
      return -ESRCH;
    }

    method RemoveMemoryLimit(pid: int, capable: bool) returns (ret: int)
      modifies this
      ensures ret == RemoveResult(old(removes), pid, capable)
      ensures ret == 0 <==> pid > 0 && capable && exists i :: 0 <= i < |old(removes)| && old(removes)[i].pid == pid
      ensures ret == -EINVAL <==> pid <= 0
      ensures ret == -EPERM <==> pid > 0 && !capable
      ensures ret in {0, -EINVAL, -EPERM, -ESRCH}
      ensures shared == old(shared) && updates == old(updates)
      ensures taskRefs == old(taskRefs)
      ensures var i := Find(old(removes), pid);
              View() == if ret != 0 then old(View())
                        else old(View()).(removes := old(removes)[..i] + old(removes)[i + 1..])
    {
      if pid <= 0 {
        return -EINVAL;
      }
      if !capable {
        return -EPERM;
      }
      var i := 0;
      while i < |removes|
        modifies this`removes
        invariant removes == old(removes)
        invariant 0 <= i <= |removes| && forall j :: 0 <= j < i ==> removes[j].pid != pid
      {
        if removes[i].pid == pid {
          removes := removes[..i] + removes[i + 1..];
          return 0;
        }
        i := i + 1;
      }
      return -ESRCH;
    }

    method ServeOne(c: Call) returns (answer: (int, seq<Entry>))
      modifies this
      ensures answer == Answer(old(View()), c) && View() == Step(old(View()), c) && taskRefs == old(taskRefs)
    {
      var ret, out := 0, [];
      match c {
        case Add(pid, limit, env) => ret := AddMemoryLimit(pid, limit, env);
        case Get(buffer, counter, maxEntries) => ret, out := GetMemoryLimits(buffer, counter, maxEntries);
        case Update(pid, limit, capable) => ret := UpdateMemoryLimit(pid, limit, capable);
        case Remove(pid, capable) => ret := RemoveMemoryLimit(pid, capable);
      }
      answer := (ret, out);
    }

    /** A whole run of calls, with everything it answers. */
    method Serve(calls: seq<Call>) returns (answers: seq<(int, seq<Entry>)>)
      modifies this
      ensures answers == Answers(old(View()), calls) && View() == Run(old(View()), calls) && taskRefs == old(taskRefs)
    {
      answers := [];
      var i := 0;
      while i < |calls|
        invariant 0 <= i <= |calls| && taskRefs == old(taskRefs)
        invariant answers == Answers(old(View()), calls[..i]) && View() == Run(old(View()), calls[..i])
      {
        assert calls[..i + 1][..i] == calls[..i];
        var answer := ServeOne(calls[i]);
        answers := answers + [answer];
        i := i + 1;
      }
      assert calls[..i] == calls;
    }
  }

  // ----- whole runs

  datatype Call =
    | Add(pid: int, limit: u64, env: Env)
    | Get(buffer: bool, counter: bool, maxEntries: u64)
    | Update(pid: int, limit: u64, capable: bool)
    | Remove(pid: int, capable: bool)

  function Boot(): State {
    State([], [], [])
  }

  function Step(s: State, c: Call): State {
    match c
    case Add(pid, limit, env) =>
      if AddResult(s.shared, pid, limit, env) == 0 then s.(shared := [Entry(pid, limit)] + s.shared) else s
    case Get(_, _, _) => s
    case Update(pid, limit, capable) =>
      if UpdateResult(s.updates, pid, limit, capable) == 0
      then s.(updates := s.updates[Find(s.updates, pid) := Entry(pid, limit)]) else s
    case Remove(pid, capable) =>
      if RemoveResult(s.removes, pid, capable) == 0
      then s.(removes := s.removes[..Find(s.removes, pid)] + s.removes[Find(s.removes, pid) + 1..]) else s
  }

  function Run(s: State, calls: seq<Call>): State {
    if calls == [] then s else Step(Run(s, calls[..|calls| - 1]), calls[|calls| - 1])
  }

  function Answer(s: State, c: Call): (int, seq<Entry>) {
    match c
    case Add(pid, limit, env) => (AddResult(s.shared, pid, limit, env), [])
    case Get(buffer, counter, maxEntries) => GetResult(s.shared, buffer, counter, maxEntries)
    case Update(pid, limit, capable) => (UpdateResult(s.updates, pid, limit, capable), [])
    case Remove(pid, capable) => (RemoveResult(s.removes, pid, capable), [])
  }

  /** Everything a run tells its callers. */
  function Answers(s: State, calls: seq<Call>): (r: seq<(int, seq<Entry>)>)
    ensures |r| == |calls|
  {
    if calls == [] then []
    else
      var rest := calls[..|calls| - 1];
      Answers(s, rest) + [Answer(Run(s, rest), calls[|calls| - 1])]
  }

  /** Distinct positive pids with positive limits, and nothing in the private lists. */
  ghost predicate Inv(s: State) {
    && (forall i, j :: 0 <= i < j < |s.shared| ==> s.shared[i].pid != s.shared[j].pid)
    && (forall i :: 0 <= i < |s.shared| ==> s.shared[i].pid > 0 && s.shared[i].limit > 0)
    && s.updates == [] && s.removes == []
  }

  lemma StepKeepsInv(s: State, c: Call)
    requires Inv(s)
    ensures Inv(Step(s, c))
  {
    if c.Add? && AddResult(s.shared, c.pid, c.limit, c.env) == 0 {
      assert forall i :: 0 <= i < |s.shared| ==> s.shared[i].pid != c.pid;
    }
  }

  lemma {:induction false} RunKeepsInv(calls: seq<Call>)
    ensures Inv(Run(Boot(), calls))
  {
    if calls != [] {
      RunKeepsInv(calls[..|calls| - 1]);
      StepKeepsInv(Run(Boot(), calls[..|calls| - 1]), calls[|calls| - 1]);
    }
  }

  /** What get reports grows at the front, one entry per successful add, and never changes otherwise: dropping all other
      calls from a run changes nothing. */
  lemma {:induction false} OnlyAddsShow(calls: seq<Call>)
    ensures Run(Boot(), calls).shared == Run(Boot(), OnlyAdds(calls)).shared
  {
    if calls != [] {
      var rest, c := calls[..|calls| - 1], calls[|calls| - 1];
      OnlyAddsShow(rest);
      if c.Add? {
        var adds := OnlyAdds(rest);
        assert (adds + [c])[..|adds|] == adds;
      }
    }
  }

  function OnlyAdds(calls: seq<Call>): seq<Call> {
    if calls == [] then []
    else
      var rest, c := OnlyAdds(calls[..|calls| - 1]), calls[|calls| - 1];
      if c.Add? then rest + [c] else rest
  }

  /** In no run do update and remove find anything, whatever was added. */
  lemma UpdateAndRemoveNeverSucceed(calls: seq<Call>, pid: int, limit: u64, capable: bool)
    ensures UpdateResult(Run(Boot(), calls).updates, pid, limit, capable) < 0
    ensures RemoveResult(Run(Boot(), calls).removes, pid, capable) < 0
  {
    RunKeepsInv(calls);
  }

  // ----- the registry of the documentation, in which all four calls work on one list

  function DocStep(list: seq<Entry>, c: Call): seq<Entry> {
    match c
    case Add(pid, limit, env) => if AddResult(list, pid, limit, env) == 0 then [Entry(pid, limit)] + list else list
    case Get(_, _, _) => list
    case Update(pid, limit, capable) =>
      if UpdateResult(list, pid, limit, capable) == 0 then list[Find(list, pid) := Entry(pid, limit)] else list
    case Remove(pid, capable) =>
      if RemoveResult(list, pid, capable) == 0 then list[..Find(list, pid)] + list[Find(list, pid) + 1..] else list
  }

  function DocRun(list: seq<Entry>, calls: seq<Call>): seq<Entry> {
    if calls == [] then list else DocStep(DocRun(list, calls[..|calls| - 1]), calls[|calls| - 1])
  }

  function DocAnswer(list: seq<Entry>, c: Call): (int, seq<Entry>) {
    Answer(State(list, list, list), c)
  }

  function DocAnswers(list: seq<Entry>, calls: seq<Call>): (r: seq<(int, seq<Entry>)>)
    ensures |r| == |calls|
  {
    if calls == [] then []
    else
      var rest := calls[..|calls| - 1];
      DocAnswers(list, rest) + [DocAnswer(DocRun(list, rest), calls[|calls| - 1])]
  }

  /** The documented update changes the limit of its process and nothing else; the documented remove takes out the
      entry of its process and nothing else. */
  lemma DocumentedEffects(list: seq<Entry>, pid: int, limit: u64, i: nat)
    requires pid > 0 && limit > 0 && i < |list| && list[i].pid == pid
    requires forall j, k :: 0 <= j < k < |list| ==> list[j].pid != list[k].pid
    ensures DocStep(list, Update(pid, limit, true)) == list[i := Entry(pid, limit)]
    ensures DocStep(list, Remove(pid, true)) == list[..i] + list[i + 1..]
    ensures DocStep(list, Update(pid, limit, false)) == DocStep(list, Remove(pid, false)) == list
  {
    assert Registered(list, pid) && Find(list, pid) == i;
  }

  /** A permitted update or remove with valid arguments for a process of the list. */
  predicate Lost(list: seq<Entry>, c: Call) {
    || (c.Update? && c.pid > 0 && c.limit > 0 && c.capable && Registered(list, c.pid))
    || (c.Remove? && c.pid > 0 && c.capable && Registered(list, c.pid))
  }

  /** No call of the run is lost on the list as it is at that moment. */
  predicate NothingLost(calls: seq<Call>) {
    calls == [] ||
    var rest := calls[..|calls| - 1];
    NothingLost(rest) && !Lost(Run(Boot(), rest).shared, calls[|calls| - 1])
  }

  lemma {:induction false} NothingLostAt(calls: seq<Call>, k: nat)
    requires NothingLost(calls) && k < |calls|
    ensures !Lost(Run(Boot(), calls[..k]).shared, calls[k])
  {
    if k < |calls| - 1 {
      var rest := calls[..|calls| - 1];
      NothingLostAt(rest, k);
      assert calls[..k] == rest[..k];
    }
  }

  lemma {:induction false} SomethingLostAt(calls: seq<Call>) returns (k: nat)
    requires !NothingLost(calls)
    ensures k < |calls| && Lost(Run(Boot(), calls[..k]).shared, calls[k])
  {
    var rest := calls[..|calls| - 1];
    if NothingLost(rest) {
      k := |rest|;
    } else {
      k := SomethingLostAt(rest);
      assert calls[..k] == rest[..k];
    }
  }

  /** One call on equal lists: the answers differ exactly if it is lost, and otherwise the lists stay equal. */
  lemma OneCall(s: State, c: Call)
    requires Inv(s)
    ensures Answer(s, c) == DocAnswer(s.shared, c) <==> !Lost(s.shared, c)
    ensures !Lost(s.shared, c) ==> DocStep(s.shared, c) == Step(s, c).shared
  {
    assert c.Update? || c.Remove? ==> !Registered(s.updates, c.pid) && !Registered(s.removes, c.pid);
  }

  lemma {:induction false} ListsStayEqual(calls: seq<Call>)
    requires NothingLost(calls)
    ensures DocRun([], calls) == Run(Boot(), calls).shared
  {
    if calls != [] {
      var rest := calls[..|calls| - 1];
      ListsStayEqual(rest);
      RunKeepsInv(rest);
      OneCall(Run(Boot(), rest), calls[|calls| - 1]);
    }
  }

  /** Over a whole run from boot, results and reported entries are those of the documentation exactly if no permitted
      update or remove names a process that has been added. */
  lemma {:induction false} AnswersAsDocumentedExactly(calls: seq<Call>)
    ensures Answers(Boot(), calls) == DocAnswers([], calls) <==> NothingLost(calls)
  {
    if calls != [] {
      var rest, c := calls[..|calls| - 1], calls[|calls| - 1];
      AnswersAsDocumentedExactly(rest);
      var n := |rest|;
      assert Answers(Boot(), calls)[..n] == Answers(Boot(), rest) && DocAnswers([], calls)[..n] == DocAnswers([], rest);
      if NothingLost(rest) {
        ListsStayEqual(rest);
        RunKeepsInv(rest);
        OneCall(Run(Boot(), rest), c);
        assert Answers(Boot(), calls)[n] == Answer(Run(Boot(), rest), c);
        assert DocAnswers([], calls)[n] == DocAnswer(DocRun([], rest), c);
      }
    }
  }

  /** Adding a process again after removing it: refused as written, granted as documented. */
  lemma AddAgainRefused(pid: int, limit: u64, env: Env)
    requires pid > 0 && 0 < limit < TWO63 && env == Env(true, true, 0, true)
    ensures var add := Add(pid, limit, env);
            && Answers(Boot(), [add, Remove(pid, true), add]) == [(0, []), (-ESRCH, []), (-REGISTERED, [])]
            && DocAnswers([], [add, Remove(pid, true), add]) == [(0, []), (0, []), (0, [])]
  {
    var add, remove := Add(pid, limit, env), Remove(pid, true);
    var one, two, three := [add], [add, remove], [add, remove, add];
    assert one[..0] == [] && two[..1] == one && three[..2] == two;
    var list := [Entry(pid, limit)];
    assert Run(Boot(), one) == State(list, [], []) && DocRun([], one) == list;
    assert list[0].pid == pid;
    assert Run(Boot(), two) == State(list, [], []) && DocRun([], two) == [];
    assert Answers(Boot(), two) == Answers(Boot(), one) + [(-ESRCH, [])];
    assert DocAnswers([], two) == DocAnswers([], one) + [(0, [])];
    assert Answers(Boot(), three) == Answers(Boot(), two) + [(-REGISTERED, [])];
    assert DocAnswers([], three) == DocAnswers([], two) + [(0, [])];
    assert Answers(Boot(), one) == Answers(Boot(), []) + [(0, [])];
    assert DocAnswers([], one) == DocAnswers([], []) + [(0, [])];
  }

  /** The limit is compared as a signed number: a limit of 2^63 bytes or more counts as exceeded by any task that does
      not itself use that much. */
  lemma HugeLimitRefused(list: seq<Entry>, pid: int, limit: u64, env: Env)
    requires pid > 0 && limit > 0 && env.capable && env.taskFound && env.usage >= 0
    ensures AddResult(list, pid, limit, env) == -EXCEEDED <==> limit >= TWO63 || env.usage > limit
  {
  }
}
