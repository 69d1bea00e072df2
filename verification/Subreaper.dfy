/** PR_SET_CHILD_SUBREAPER and the pruned walk that spreads has_child_subreaper
    over the caller's descendants (kernel/sys.c). */
module Subreaper {

  type Pid = nat

  /** `born` orders processes by creation, so a parent is always older than its children;
      `reaper` marks the child reaper of a pid namespace. */
  datatype Process = Process(parent: Pid, born: nat, isSub: bool, hasSub: bool, reaper: bool)

  type Forest = map<Pid, Process>

  ghost predicate WellFounded(f: Forest) {
    forall p :: p in f && f[p].parent in f ==> f[f[p].parent].born < f[p].born
  }

  /** What the walk owes `c`: its parent is a subreaper or carries the flag, and `c` may not be skipped. */
  predicate Owed(f: Forest, c: Pid) {
    && c in f && !f[c].reaper && f[c].parent in f
    && (f[f[c].parent].isSub || f[f[c].parent].hasSub)
  }

  /** The invariant that justifies pruning the walk at flagged processes. */
  ghost predicate Closed(f: Forest) {
    forall c :: Owed(f, c) ==> f[c].hasSub
  }

  ghost predicate Inv(f: Forest) {
    WellFounded(f) && Closed(f)
  }

  /** `d` lies below `top`, and no namespace reaper stands on the way (`d` included). */
  ghost predicate Under(f: Forest, top: Pid, d: Pid)
    requires WellFounded(f) && d in f
    decreases f[d].born
  {
    && !f[d].reaper && f[d].parent in f
    && (f[d].parent == top || Under(f, top, f[d].parent))
  }

  /** What a walk over all descendants, stopping only at namespace reapers, marks. */
  ghost function FullyMarked(f: Forest, top: Pid): (g: Forest)
    requires WellFounded(f)
  {
    map d | d in f :: if Under(f, top, d) then f[d].(hasSub := true) else f[d]
  }

  ghost function Prctl(f: Forest, me: Pid, on: bool): Forest
    requires WellFounded(f) && me in f
  {
    var f' := f[me := f[me].(isSub := on)];
    if on then FullyMarked(f', me) else f'
  }

  /** `g` differs from `f` only by flags set since. */
  ghost predicate OnlyFlagsSet(f: Forest, g: Forest) {
    && g.Keys == f.Keys
    && forall p :: p in f ==> g[p] == f[p].(hasSub := g[p].hasSub) && (f[p].hasSub ==> g[p].hasSub)
  }

  ghost predicate BelowTop(f: Forest, top: Pid, c: Pid)
    requires WellFounded(f)
  {
    c in f && f[c].parent in f && (f[c].parent == top || Under(f, top, f[c].parent))
  }

  /** Midway through the walk, what is still owed waits in `pending`. */
  ghost predicate Progress(f: Forest, g: Forest, top: Pid, pending: seq<Pid>)
    requires WellFounded(f)
  {
    && OnlyFlagsSet(f, g)
    && (forall p :: p in f && g[p].hasSub && !f[p].hasSub ==> Under(f, top, p))
    && (forall c :: c in pending ==> BelowTop(f, top, c))
    && (forall c :: Owed(g, c) && !g[c].hasSub ==> c in pending)
  }

  lemma ProgressStarts(f: Forest, top: Pid, kids: seq<Pid>)
    requires WellFounded(f)
    requires forall c :: Owed(f, c) && !f[c].hasSub ==> f[c].parent == top
    requires top in f && forall c :: c in kids <==> c in f && f[c].parent == top
    ensures Progress(f, f, top, kids)
  {
  }

  lemma SkipKeepsProgress(f: Forest, g: Forest, top: Pid, pending: seq<Pid>)
    requires WellFounded(f) && pending != [] && Progress(f, g, top, pending) && pending[0] in g
    requires g[pending[0]].reaper || g[pending[0]].hasSub
    ensures Progress(f, g, top, pending[1..])
  {
  }

  lemma MarkKeepsProgress(f: Forest, g: Forest, top: Pid, pending: seq<Pid>, kids: seq<Pid>)
    requires WellFounded(f) && pending != [] && Progress(f, g, top, pending) && pending[0] in g
    requires !g[pending[0]].reaper && !g[pending[0]].hasSub
    requires forall c :: c in kids <==> c in g && g[c].parent == pending[0]
    ensures var g' := g[pending[0] := g[pending[0]].(hasSub := true)];
            Progress(f, g', top, kids + pending[1..]) && Unmarked(g') < Unmarked(g)
  {
    var c0 := pending[0];
    var g' := g[c0 := g[c0].(hasSub := true)];
    assert Unmarked(g') == Unmarked(g) - {c0} && c0 in Unmarked(g);
    assert BelowTop(f, top, c0) && Under(f, top, c0);
    forall c | Owed(g', c) && !g'[c].hasSub
      ensures c in kids + pending[1..]
    {
      if g'[c].parent != c0 {
        assert Owed(g, c);
        assert c in pending && c != c0;
      }
    }
  }

  lemma ProgressEnds(f: Forest, g: Forest, top: Pid)
    requires WellFounded(f) && top in f && f[top].isSub && Progress(f, g, top, [])
    ensures Closed(g) && g == FullyMarked(f, top)
  {
    forall d | d in f && Under(f, top, d)
      ensures g[d].hasSub
    {
      UnderIsFlagged(f, g, top, d);
    }
  }

  ghost function Unmarked(f: Forest): set<Pid> {
    set p | p in f && !f[p].hasSub
  }

  /** The children of `p`, in whatever order the sibling list holds them. */
  method Children(f: Forest, p: Pid) returns (kids: seq<Pid>)
    ensures forall c :: c in kids <==> c in f && f[c].parent == p
  {
    kids := [];
    var rest := f.Keys;
    while rest != {}
      invariant rest <= f.Keys
      invariant forall c :: c in kids <==> c in f && c !in rest && f[c].parent == p
      decreases rest
    {
      var c :| c in rest;
      rest := rest - {c};
      if f[c].parent == p {
        kids := kids + [c];
      }
    }
  }

  class ProcessTree {
    var procs: Forest

    method PropagateHasChildSubreaper(p: Pid) returns (descend: bool)
      requires p in procs
      modifies this
      ensures descend <==> !old(procs[p]).hasSub && !old(procs[p]).reaper
      ensures procs == if descend then old(procs)[p := old(procs[p]).(hasSub := true)] else old(procs)
    {
      if procs[p].hasSub || procs[p].reaper {
        return false;
      }
      procs := procs[p := procs[p].(hasSub := true)];
      return true;
    }

    /** Preorder walk below `top`.  Closedness fails while the walk is under way: what is still
        owed is exactly what waits in `pending`. */
    method WalkProcessTree(top: Pid)
      requires WellFounded(procs) && top in procs && procs[top].isSub
      requires forall c :: Owed(procs, c) && !procs[c].hasSub ==> procs[c].parent == top
      modifies this
      ensures procs == FullyMarked(old(procs), top)
      ensures Closed(procs)
    {
      ghost var f := procs;
      var pending := Children(procs, top);
      ProgressStarts(f, top, pending);
      while pending != []
        invariant Progress(f, procs, top, pending)
        decreases Unmarked(procs), |pending|
      {
        var c := pending[0];
        ghost var before := procs;
        assert BelowTop(f, top, c);
        var descend := PropagateHasChildSubreaper(c);
        if descend {
          var kids := Children(procs, c);
          MarkKeepsProgress(f, before, top, pending, kids);
          pending := kids + pending[1..];
        } else {
          SkipKeepsProgress(f, procs, top, pending);
          pending := pending[1..];
        }
      }
      ProgressEnds(f, procs, top);
    }

    method SetChildSubreaper(me: Pid, arg: int)
      requires Inv(procs) && me in procs
      modifies this
      ensures procs == Prctl(old(procs), me, arg != 0)
      ensures Inv(procs)
      // In terms of the fields.
      ensures procs.Keys == old(procs.Keys) && procs[me].isSub == (arg != 0)
      ensures forall q :: q in procs && q != me ==> procs[q].isSub == old(procs[q]).isSub
      ensures forall q :: q in procs ==> procs[q] == old(procs[q]).(isSub := procs[q].isSub, hasSub := procs[q].hasSub)
      ensures arg == 0 ==> forall q :: q in procs ==> procs[q].hasSub == old(procs[q]).hasSub
      ensures arg != 0 ==>
                forall q :: q in procs ==> (procs[q].hasSub <==> old(procs[q]).hasSub || Under(old(procs), me, q))
    {
      PrctlInFields(procs, me, arg != 0);
      PrctlKeepsInv(procs, me, arg != 0);
      procs := procs[me := procs[me].(isSub := arg != 0)];
      if arg == 0 {
        return;
      }
      WalkProcessTree(me);
    }

    /** Any run, with fork and exit as they happen elsewhere. */
    method PerformAll(ops: seq<Op>)
      requires Inv(procs) && Runnable(procs, ops)
      modifies this
      ensures Inv(procs) && Reachable(old(procs), ops, procs)
      ensures forall q :: q in procs ==> procs[q].isSub == LastArgument(q in old(procs) && old(procs)[q].isSub, ops, q)
      decreases |ops|
    {
      if ops == [] {
        return;
      }
      ghost var start := procs;
      StepKeepsInv(procs, ops[0]);
      match ops[0] {
        case Fork(parent, child, born, reaper) =>
          procs := procs[child := Process(parent, born, false, procs[parent].hasSub || procs[parent].isSub, reaper)];
        case SetSubreaper(me, on) =>
          SetChildSubreaper(me, if on then 1 else 0);
        case Exit(process, heir) =>
          procs := map q | q in procs && q != process ::
            if procs[q].parent == process then procs[q].(parent := heir) else procs[q];
      }
      assert procs == Step(start, ops[0]);
      PerformAll(ops[1..]);
      forall q | q in procs
        ensures procs[q].isSub == LastArgument(q in start && start[q].isSub, ops, q)
      {
        SubreaperAsTold(start, ops, procs, q);
      }
    }
  }

  lemma PrctlInFields(f: Forest, me: Pid, on: bool)
    requires Inv(f) && me in f
    ensures var g := Prctl(f, me, on);
            && g.Keys == f.Keys && g[me].isSub == on
            && (forall q :: q in g && q != me ==> g[q].isSub == f[q].isSub)
            && (forall q :: q in g ==> g[q] == f[q].(isSub := g[q].isSub, hasSub := g[q].hasSub))
            && (!on ==> forall q :: q in g ==> g[q].hasSub == f[q].hasSub)
            && (on ==> forall q :: q in g ==> (g[q].hasSub <==> f[q].hasSub || Under(f, me, q)))
  {
    UnderIgnoresFlags(f, f[me := f[me].(isSub := on)], me);
  }

  /** A chain of parents from `d` up to `top`, through no namespace reaper. */
  ghost predicate ChainUp(f: Forest, top: Pid, d: Pid, path: seq<Pid>) {
    && |path| >= 2 && path[0] == d && path[|path| - 1] == top
    && (forall i :: 0 <= i < |path| ==> path[i] in f)
    && forall i :: 0 <= i < |path| - 1 ==> !f[path[i]].reaper && f[path[i]].parent == path[i + 1]
  }

  lemma {:induction false} ChainIsUnder(f: Forest, top: Pid, d: Pid, path: seq<Pid>)
    requires WellFounded(f) && d in f && ChainUp(f, top, d, path)
    ensures Under(f, top, d)
    decreases |path|
  {
    if |path| > 2 {
      assert f[path[0]].parent == path[1];
      ChainIsUnder(f, top, path[1], path[1..]);
    }
  }

  lemma {:induction false} UnderHasChain(f: Forest, top: Pid, d: Pid) returns (path: seq<Pid>)
    requires WellFounded(f) && top in f && d in f && Under(f, top, d)
    ensures ChainUp(f, top, d, path)
    decreases f[d].born
  {
    if f[d].parent == top {
      path := [d, top];
    } else {
      var rest := UnderHasChain(f, top, f[d].parent);
      path := [d] + rest;
      assert forall i :: 0 < i < |path| ==> path[i] == rest[i - 1];
    }
  }

  /** Being under a process depends on parents and namespaces only. */
  lemma UnderIgnoresFlags(f: Forest, g: Forest, top: Pid)
    requires WellFounded(f) && f.Keys == g.Keys
    requires forall q :: q in f ==> g[q].parent == f[q].parent && g[q].born == f[q].born && g[q].reaper == f[q].reaper
    ensures WellFounded(g) && forall d :: d in f ==> (Under(f, top, d) <==> Under(g, top, d))
  {
    assert forall q :: q in g && g[q].parent in g ==> q in f && f[q].parent in f;
    forall d | d in f
      ensures Under(f, top, d) <==> Under(g, top, d)
    {
      UnderIgnoresFlagsAt(f, g, top, d);
    }
  }

  lemma {:induction false} UnderIgnoresFlagsAt(f: Forest, g: Forest, top: Pid, d: Pid)
    requires WellFounded(f) && WellFounded(g) && f.Keys == g.Keys && d in f
    requires forall q :: q in f ==> g[q].parent == f[q].parent && g[q].born == f[q].born && g[q].reaper == f[q].reaper
    ensures Under(f, top, d) <==> Under(g, top, d)
    decreases f[d].born
  {
    if f[d].parent in f && f[d].parent != top {
      UnderIgnoresFlagsAt(f, g, top, f[d].parent);
    }
  }

  /** In a closed forest everything below a flagged process carries the flag. */
  lemma {:induction false} UnderIsFlagged(f: Forest, g: Forest, top: Pid, d: Pid)
    requires WellFounded(f) && OnlyFlagsSet(f, g) && Closed(g)
    requires top in f && (g[top].isSub || g[top].hasSub)
    requires d in f && Under(f, top, d)
    ensures g[d].hasSub
    decreases f[d].born
  {
    if f[d].parent != top {
      UnderIsFlagged(f, g, top, f[d].parent);
    }
    assert Owed(g, d);
  }

  // ----- whole runs

  datatype Op =
    | Fork(parent: Pid, child: Pid, born: nat, reaper: bool)
    | SetSubreaper(me: Pid, on: bool)
    | Exit(process: Pid, heir: Pid)

  /** Orphans go to an ancestor inside the namespace of the process that exits. */
  ghost predicate Enabled(f: Forest, op: Op)
    requires WellFounded(f)
  {
    match op
    case Fork(parent, child, born, _) =>
      && parent in f && f[parent].born < born
      && child !in f && forall q :: q in f ==> f[q].parent != child
    case SetSubreaper(me, _) => me in f
    case Exit(process, heir) => process in f && heir in f && Under(f, heir, process)
  }

  ghost function Step(f: Forest, op: Op): Forest
    requires WellFounded(f) && Enabled(f, op)
  {
    match op
    case Fork(parent, child, born, reaper) =>
      f[child := Process(parent, born, false, f[parent].hasSub || f[parent].isSub, reaper)]
    case SetSubreaper(me, on) => Prctl(f, me, on)
    case Exit(process, heir) =>
      map q | q in f && q != process :: if f[q].parent == process then f[q].(parent := heir) else f[q]
  }

  /** Marking everything below `me` is what restores closedness after `me` became a subreaper. */
  lemma PrctlKeepsInv(f: Forest, me: Pid, on: bool)
    requires Inv(f) && me in f
    ensures Inv(Prctl(f, me, on))
  {
    var f' := f[me := f[me].(isSub := on)];
    var g := Prctl(f, me, on);
    forall c | Owed(g, c)
      ensures g[c].hasSub
    {
      var p := f[c].parent;
      if p != me && !f[p].hasSub && on {
        assert f[p].isSub || Under(f', me, p);
        assert f[p].isSub ==> Owed(f, c);
      }
      assert Owed(f, c) ==> f[c].hasSub;
    }
  }

  /** Under a flagged ancestor of its own namespace, a process that exits carries the flag itself. */
  lemma ExitKeepsInv(f: Forest, process: Pid, heir: Pid)
    requires Inv(f) && process in f && heir in f && Under(f, heir, process)
    ensures Inv(Step(f, Exit(process, heir)))
  {
    var g := Step(f, Exit(process, heir));
    UnderIsYounger(f, heir, process);
    assert WellFounded(g);
    forall c | Owed(g, c)
      ensures g[c].hasSub
    {
      if f[c].parent == process {
        UnderIsFlagged(f, f, heir, process);
      }
      assert Owed(f, c);
    }
  }

  lemma {:induction false} UnderIsYounger(f: Forest, top: Pid, d: Pid)
    requires WellFounded(f) && top in f && d in f && Under(f, top, d)
    ensures f[top].born < f[d].born
    decreases f[d].born
  {
    if f[d].parent != top {
      UnderIsYounger(f, top, f[d].parent);
    }
  }

  lemma StepKeepsInv(f: Forest, op: Op)
    requires Inv(f) && Enabled(f, op)
    ensures Inv(Step(f, op))
  {
    match op
    case Fork(parent, child, _, _) =>
      var g := Step(f, op);
      forall c | Owed(g, c) && c != child
        ensures g[c].hasSub
      {
        assert Owed(f, c);
      }
    case SetSubreaper(me, on) => PrctlKeepsInv(f, me, on);
    case Exit(process, heir) => ExitKeepsInv(f, process, heir);
  }

  ghost predicate Runnable(f: Forest, ops: seq<Op>)
    decreases |ops|
  {
    ops == [] || (WellFounded(f) && Enabled(f, ops[0]) && Runnable(Step(f, ops[0]), ops[1..]))
  }

  ghost predicate Reachable(f: Forest, ops: seq<Op>, g: Forest)
    decreases |ops|
  {
    if ops == [] then f == g
    else WellFounded(f) && Enabled(f, ops[0]) && Reachable(Step(f, ops[0]), ops[1..], g)
  }

  /** Whether `q` is a subreaper as a run tells: the argument of its last prctl, and not if it made none since its
      fork. */
  function LastArgument(was: bool, ops: seq<Op>, q: Pid): bool
    decreases |ops|
  {
    if ops == [] then was
    else
      var now := match ops[0]
                 case Fork(_, child, _, _) => was && q != child
                 case SetSubreaper(me, on) => if q == me then on else was
                 case Exit(process, _) => was && q != process;
      LastArgument(now, ops[1..], q)
  }

  lemma {:induction false} SubreaperAsTold(f: Forest, ops: seq<Op>, g: Forest, q: Pid)
    requires Inv(f) && Reachable(f, ops, g) && q in g
    ensures g[q].isSub == LastArgument(q in f && f[q].isSub, ops, q)
    decreases |ops|
  {
    if ops != [] {
      var f' := Step(f, ops[0]);
      StepKeepsInv(f, ops[0]);
      StepOnFlag(f, ops[0], q);
      SubreaperAsTold(f', ops[1..], g, q);
    }
  }

  /** What one step does to the flag; a process that is gone does not come back without a fork. */
  lemma StepOnFlag(f: Forest, op: Op, q: Pid)
    requires Inv(f) && Enabled(f, op)
    ensures var f' := Step(f, op);
            && (op.Fork? ==> (q in f' && f'[q].isSub <==> q in f && f[q].isSub && q != op.child))
            && (op.SetSubreaper? ==>
                  f'.Keys == f.Keys && (q in f ==> f'[q].isSub == if q == op.me then op.on else f[q].isSub))
            && (op.Exit? ==>
                  (q in f' ==> q in f && f'[q].isSub == f[q].isSub) && (q in f && q !in f' ==> q == op.process))
  {
  }

  /** In every run the flag is where it has to be, although no step but the walk spreads it. */
  lemma {:induction false} RunKeepsInv(f: Forest, ops: seq<Op>, g: Forest)
    requires Inv(f) && Reachable(f, ops, g)
    ensures Inv(g)
    decreases |ops|
  {
    if ops != [] {
      StepKeepsInv(f, ops[0]);
      RunKeepsInv(Step(f, ops[0]), ops[1..], g);
    }
  }

  /** In every reachable forest, a process whose subtree a walk would skip has nothing unmarked
      below it: skipping it changes nothing. */
  lemma PruningLosesNothing(f: Forest, ops: seq<Op>, g: Forest, p: Pid, d: Pid)
    requires Inv(f) && Reachable(f, ops, g)
    requires WellFounded(g) && p in g && g[p].hasSub && d in g && Under(g, p, d)
    ensures g[d].hasSub
  {
    RunKeepsInv(f, ops, g);
    UnderIsFlagged(g, g, p, d);
  }
}
