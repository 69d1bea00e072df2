/** The argument and environment tables for init, filled from the boot command line (init/main.c). */
module BootArgs {
  import opened Machine
  import opened CStrings

  // ----- the environment as an insertion-ordered map

  /** An environment entry: a key without '=', then '=', then a value. */
  function Entry(key: string, val: string): string {
    key + "=" + val
  }

  /** strncmp over the key and the '=' behind it. */
  predicate HasKey(entry: string, key: string) {
    |key| < |entry| && entry[..|key|] == key && entry[|key|] == '='
  }

  predicate IsKey(key: string) {
    '=' !in key
  }

  function ValueOf(entry: string, key: string): string
    requires HasKey(entry, key)
  {
    entry[|key| + 1..]
  }

  /** Position of the first entry with this key, or the length. */
  function Find(env: seq<string>, key: string): (i: nat)
    ensures i <= |env|
    ensures i < |env| ==> HasKey(env[i], key)
    ensures forall j :: 0 <= j < i ==> !HasKey(env[j], key)
  {
    if env == [] || HasKey(env[0], key) then 0 else 1 + Find(env[1..], key)
  }

  /** Replace the entry where it stands, or append it. */
  function EnvSet(env: seq<string>, key: string, val: string): seq<string> {
    var i := Find(env, key);
    if i < |env| then env[i := Entry(key, val)] else env + [Entry(key, val)]
  }

  /** The entry gets a slot below `max`, or the slot `max` while that is still free. */
  predicate EnvFits(max: nat, env: seq<string>, key: string) {
    Find(env, key) < max || Find(env, key) == max == |env|
  }

  /** A panic for lack of room is spurious, because the entries still fit in the slots up to `max`, exactly if the key
      already has slot `max`: it is replaced there all the same. */
  lemma SpuriousEnvPanic(max: nat, env: seq<string>, key: string, val: string)
    requires |env| <= max + 1
    ensures !EnvFits(max, env, key) && |EnvSet(env, key, val)| <= max + 1 <==> Find(env, key) == max < |env|
  {
  }

  lemma FindIs(env: seq<string>, key: string, i: nat)
    requires i <= |env| && (i < |env| ==> HasKey(env[i], key))
    requires forall j :: 0 <= j < i ==> !HasKey(env[j], key)
    ensures Find(env, key) == i
  {
    var f := Find(env, key);
    assert f < |env| ==> HasKey(env[f], key);
  }

  function Lookup(env: seq<string>, key: string): Option<string> {
    var i := Find(env, key);
    if i < |env| then Some(ValueOf(env[i], key)) else None
  }

  ghost predicate UniqueKeys(env: seq<string>) {
    forall i, j, key :: 0 <= i < j < |env| && IsKey(key) && HasKey(env[i], key) ==> !HasKey(env[j], key)
  }

  // ----- the argument table

  /** Slots 0 .. max-1 are filled from the left; slot max is kept apart because init= does not clear it. */
  datatype Args = Args(front: seq<string>, last: Option<string>)

  predicate Full(max: nat, a: Args) {
    |a.front| == max && a.last.Some?
  }

  function Append(max: nat, a: Args, x: string): Args {
    if |a.front| < max then a.(front := a.front + [x]) else a.(last := Some(x))
  }

  /** What init=... leaves. */
  function Cleared(a: Args): Args
    requires |a.front| >= 1
  {
    a.(front := a.front[..1])
  }

  /** What init is given: everything up to the first NULL. */
  function Visible(max: nat, a: Args): seq<string> {
    if |a.front| == max && a.last.Some? then a.front + [a.last.value] else a.front
  }

  // ----- the tables as the source keeps them

  class BootTables {
    const max: nat
    const argv: array<Option<string>>
    const envp: array<Option<string>>
    var panicLater: Option<string>
    var panicParam: string
    var executeCommand: string
    var ramdiskCommand: string
    ghost var front: seq<string>
    ghost var env: seq<string>

    ghost predicate Shape()
      reads this
    {
      max >= 1 && argv != envp && argv.Length == max + 2 && envp.Length == max + 2
    }

    ghost predicate Valid()
      reads this, argv, envp
    {
      && Shape()
      && 1 <= |front| <= max
      && (forall i :: 0 <= i < |front| ==> argv[i] == Some(front[i]))
      && (forall i :: |front| <= i < max ==> argv[i].None?)
      && 2 <= |env| <= max + 2
      && (forall i :: 0 <= i < |env| ==> envp[i] == Some(env[i]))
      && (forall i :: |env| <= i < max + 2 ==> envp[i].None?)
      // The last slot of each table ends it, unless the overflow has been noticed.
      && (panicLater.None? ==> argv[max + 1].None? && envp[max + 1].None?)
    }

    ghost function ArgView(): Args
      requires Shape()
      reads this, argv
    {
      Args(front, argv[max])
    }

    constructor (limit: nat)
      requires limit >= 1
      ensures Valid() && max == limit && fresh(argv) && fresh(envp) && panicLater.None?
      ensures ArgView() == Args(["init"], None) && env == ["HOME=/", "TERM=linux"]
      ensures argv[0] == Some("init") && forall i :: 1 <= i < limit + 2 ==> argv[i].None?
      ensures envp[0] == Some("HOME=/") && envp[1] == Some("TERM=linux")
      ensures forall i :: 2 <= i < limit + 2 ==> envp[i].None?
    {
      max := limit;
      var a := new Option<string>[limit + 2](_ => None);
      var e := new Option<string>[limit + 2](_ => None);
      a[0] := Some("init");
      e[0], e[1] := Some("HOME=/"), Some("TERM=linux");
      argv, envp := a, e;
      front, env := ["init"], ["HOME=/", "TERM=linux"];
      panicLater, panicParam := None, "";
      executeCommand, ramdiskCommand := "", "/init";
    }

    /** Everything after "--". */
    method SetInitArg(param: string)
      requires Valid()
      modifies this, argv
      ensures Valid() && env == old(env)
      ensures executeCommand == old(executeCommand) && ramdiskCommand == old(ramdiskCommand)
      ensures var was := old(ArgView());
              if old(panicLater).Some? then ArgView() == was && panicLater == old(panicLater)
              else if Full(max, was) then ArgView() == was && panicLater == Some("init")
              else ArgView() == Append(max, was, param) && panicLater.None?
      // On the table: the first free slot, if there is one up to `max`.
      ensures old(panicLater).None? ==> (panicLater.Some? <==> forall j :: 0 <= j <= max ==> old(argv[j]).Some?)
      ensures panicLater.Some? ==> forall j :: 0 <= j < argv.Length ==> argv[j] == old(argv[j])
      ensures panicLater.None? ==> exists i :: && 0 <= i <= max && old(argv[i]).None? && argv[i] == Some(param)
                                               && (forall j :: 0 <= j < i ==> old(argv[j]).Some?)
                                               && forall j :: 0 <= j < argv.Length && j != i ==> argv[j] == old(argv[j])
    {
      if panicLater.Some? {
        return;
      }
      var i := 0;
      while argv[i].Some?
        modifies this`panicLater, this`panicParam
        invariant 0 <= i <= max && panicLater.None?
        invariant i <= |front| || |front| == max
        invariant forall j :: 0 <= j < i ==> argv[j].Some?
        decreases max + 2 - i
      {
        if i == max {
          panicLater, panicParam := Some("init"), param;
          return;
        }
        i := i + 1;
      }
      argv[i] := Some(param);
      if i < max {
        front := front + [param];
      }
    }

    /** Options nobody claimed.  `handled` is the answer of obsolete_checksetup. */
    method UnknownBootoption(key: string, val: Option<string>, handled: bool)
      requires Valid()
      modifies this, argv, envp
      ensures Valid() && executeCommand == old(executeCommand) && ramdiskCommand == old(ramdiskCommand)
      ensures handled || '.' in key || old(panicLater).Some? ==>
                ArgView() == old(ArgView()) && env == old(env) && panicLater == old(panicLater)
      ensures !handled && '.' !in key && old(panicLater).None? && val.Some? ==>
                && ArgView() == old(ArgView())
                && env == EnvSet(old(env), key, val.value)
                && panicLater == (if EnvFits(max, old(env), key) then None else Some("env"))
      ensures !handled && '.' !in key && old(panicLater).None? && val.None? ==>
                && env == old(env)
                && (if old(Full(max, ArgView())) then panicLater == Some("init") && ArgView() == old(ArgView())
                    else panicLater.None? && ArgView() == Append(max, old(ArgView()), key))
    {
      if handled || '.' in key || panicLater.Some? {
        return;
      }
      if val.Some? {
        ghost var slot := AddEnv(key, val.value);
      } else {
        ghost var slot := AddArg(key);
      }
    }

    method AddEnv(key: string, val: string) returns (ghost slot: nat)
      requires Valid() && panicLater.None?
      modifies this`env, this`panicLater, this`panicParam, envp
      ensures Valid() && env == EnvSet(old(env), key, val)
      ensures panicLater == if EnvFits(max, old(env), key) then None else Some("env")
      // On the table: the first slot that is free or has the key gets "key=val", and the panic is due if that is
      // neither one below `max` nor a free slot `max`.
      ensures slot < envp.Length && envp[slot] == Some(key + "=" + val)
      ensures forall j :: 0 <= j < envp.Length && j != slot ==> envp[j] == old(envp[j])
      ensures forall j :: 0 <= j < slot ==>
                && old(envp[j]).Some?
                && var e := old(envp[j]).value; !(|key| < |e| && e[..|key|] == key && e[|key|] == '=')
      ensures old(envp[slot]).Some? ==>
                var e := old(envp[slot]).value; |key| < |e| && e[..|key|] == key && e[|key|] == '='
      ensures panicLater.None? <==> slot < max || (slot == max && old(envp[slot]).None?)
    {
      var param := Entry(key, val);
      var i := 0;
      while envp[i].Some?
        modifies this`panicLater, this`panicParam
        invariant 0 <= i <= max + 1 && i <= |env|
        invariant forall j :: 0 <= j < i ==> !HasKey(env[j], key)
        invariant panicLater == if i <= max then None else Some("env")
        decreases max + 2 - i
      {
        if i == max {
          panicLater, panicParam := Some("env"), param;
        }
        if HasKey(envp[i].value, key) {
          break;
        }
        i := i + 1;
      }
      FindIs(env, key, i);
      slot := i;
      envp[i] := Some(param);
      env := EnvSet(env, key, val);
    }

    method AddArg(param: string) returns (ghost slot: nat)
      requires Valid() && panicLater.None?
      modifies this`front, this`panicLater, this`panicParam, argv
      ensures Valid()
      ensures if old(Full(max, ArgView())) then panicLater == Some("init") && ArgView() == old(ArgView())
              else panicLater.None? && ArgView() == Append(max, old(ArgView()), param)
      // On the table: the first free slot, and the panic is due if that lies behind `max`.
      ensures slot < argv.Length && argv[slot] == Some(param) && old(argv[slot]).None?
      ensures forall j :: 0 <= j < slot ==> old(argv[j]).Some?
      ensures forall j :: 0 <= j < argv.Length && j != slot ==> argv[j] == old(argv[j])
      ensures panicLater.None? <==> slot <= max
    {
      var i := 0;
      while argv[i].Some?
        modifies this`panicLater, this`panicParam
        invariant 0 <= i <= max + 1
        invariant i <= |front| || |front| == max
        invariant i == max + 1 ==> argv[max].Some?
        invariant panicLater == if i <= max then None else Some("init")
        invariant forall j :: 0 <= j < i ==> argv[j].Some?
        decreases max + 2 - i
      {
        if i == max {
          panicLater, panicParam := Some("init"), param;
        }
        i := i + 1;
      }
      slot := i;
      argv[i] := Some(param);
      if i < max {
        front := front + [param];
      }
    }

    method ClearArgs()
      requires Valid()
      modifies this`front, argv
      ensures Valid() && ArgView() == Cleared(old(ArgView()))
      ensures forall j :: 0 <= j < argv.Length ==> argv[j] == if 1 <= j < max then None else old(argv[j])
    {
      front := front[..1];
      var i := 1;
      while i < max
        modifies argv
        invariant 1 <= i <= max
        invariant argv[0] == old(argv[0]) && argv[max] == old(argv[max]) && argv[max + 1] == old(argv[max + 1])
        invariant forall j :: 1 <= j < i ==> argv[j].None?
      {
        argv[i] := None;
        i := i + 1;
      }
    }

    method InitSetup(str: string)
      requires Valid()
      modifies this, argv
      ensures Valid() && env == old(env) && panicLater == old(panicLater)
      ensures ArgView() == Cleared(old(ArgView())) && executeCommand == str && ramdiskCommand == old(ramdiskCommand)
    {
      executeCommand := str;
      ClearArgs();
    }

    method RdinitSetup(str: string)
      requires Valid()
      modifies this, argv
      ensures Valid() && env == old(env) && panicLater == old(panicLater)
      ensures ArgView() == Cleared(old(ArgView())) && ramdiskCommand == str && executeCommand == old(executeCommand)
    {
      ramdiskCommand := str;
      ClearArgs();
    }

    /** The list of options passed on to user space, printed into a buffer of exactly the size counted before. */
    method PrintUnknownBootoptions(allocOk: bool) returns (printed: Option<string>)
      requires Valid()
      ensures printed == if panicLater.Some? || (|Visible(max, ArgView())| == 1 && |env| == 2) || !allocOk then None
                         else Some(Listing(Visible(max, ArgView())[1..] + env[2..])[1..])
    {
      if panicLater.Some? || (argv[1].None? && envp[2].None?) {
        return None;
      }
      ghost var vis := Visible(max, ArgView());
      assert NullTerminated(argv[..], vis) && NullTerminated(envp[..], env);
      ghost var unused;
      printed, unused := PrintBoth(argv, vis, envp, env, allocOk);
    }

    method ParseOne(o: Opt)
      requires Valid()
      modifies this, argv, envp
      ensures Valid() && (old(panicLater).Some? ==> panicLater == old(panicLater))
      ensures old(panicLater).None? ==>
                && (panicLater.Some? <==> ArgOverruns(max, old(ArgView()), o) || EntryOverruns(max, old(env), o))
                && (panicLater.None? ==> ArgView() == ArgsStep(max, old(ArgView()), o) && env == EnvStep(old(env), o))
      ensures executeCommand == (if o.InitEq? then o.str else old(executeCommand))
      ensures ramdiskCommand == (if o.RdinitEq? then o.str else old(ramdiskCommand))
    {
      match o {
        case Unknown(key, val, handled) => UnknownBootoption(key, val, handled);
        case AfterDashes(param) => SetInitArg(param);
        case InitEq(str) => InitSetup(str);
        case RdinitEq(str) => RdinitSetup(str);
      }
    }

    /** What init is handed is what stands in the table up to the first free slot. */
    lemma HandedIsTable()
      requires Valid() && panicLater.None?
      ensures var xs := Visible(max, ArgView());
              && 1 <= |xs| <= max + 1 && argv[|xs|].None? && forall i :: 0 <= i < |xs| ==> argv[i] == Some(xs[i])
    {
    }

    /** A whole command line, option by option.  The panic is due exactly if some option found its table full. */
    method ParseAll(opts: seq<Opt>)
      requires Valid() && panicLater.None?
      modifies this, argv, envp
      ensures Valid()
      ensures panicLater.Some? <==> ArgsOverrun(max, old(ArgView()), opts) || EnvOverruns(max, old(env), opts)
      ensures panicLater.None? ==> env == EnvAfter(old(env), opts) && ArgView() == ArgsAfter(max, old(ArgView()), opts)
      ensures executeCommand == LastInit(old(executeCommand), opts)
      ensures ramdiskCommand == LastRdinit(old(ramdiskCommand), opts)
    {
      ghost var a0, env0 := ArgView(), env;
      var i := 0;
      while i < |opts|
        invariant 0 <= i <= |opts| && Valid()
        invariant panicLater.Some? <==> ArgsOverrun(max, a0, opts[..i]) || EnvOverruns(max, env0, opts[..i])
        invariant panicLater.None? ==> env == EnvAfter(env0, opts[..i]) && ArgView() == ArgsAfter(max, a0, opts[..i])
        invariant executeCommand == LastInit(old(executeCommand), opts[..i])
        invariant ramdiskCommand == LastRdinit(old(ramdiskCommand), opts[..i])
      {
        assert opts[..i + 1][..i] == opts[..i];
        ParseOne(opts[i]);
        i := i + 1;
      }
      assert opts[..i] == opts;
    }
  }

  // ----- the printed list

  /** Each option with a space in front. */
  function Listing(xs: seq<string>): string {
    if xs == [] then "" else " " + xs[0] + Listing(xs[1..])
  }

  lemma ListingSplit(xs: seq<string>, i: nat)
    requires i < |xs|
    ensures |Listing(xs[i..])| == 1 + |xs[i]| + |Listing(xs[i + 1..])|
  {
    assert xs[i..][1..] == xs[i + 1..];
  }

  lemma {:induction false} ListingSnoc(xs: seq<string>, x: string)
    ensures Listing(xs + [x]) == Listing(xs) + " " + x
  {
    if xs == [] {
      assert xs + [x] == [x] && [x][1..] == [];
    } else {
      assert (xs + [x])[1..] == xs[1..] + [x];
      ListingSnoc(xs[1..], x);
      assert " " + xs[0] + (Listing(xs[1..]) + " " + x) == " " + xs[0] + Listing(xs[1..]) + " " + x;
    }
  }

  /** Two lists in a row are listed in a row, and one option with a space in front. */
  lemma {:induction false} ListingConcat(xs: seq<string>, ys: seq<string>, x: string)
    ensures Listing(xs + ys) == Listing(xs) + Listing(ys) && Listing([x]) == " " + x
  {
    assert [x][1..] == [];
    assert Listing([x]) == " " + x + "";
    if ys == [] {
      assert xs + ys == xs;
    } else {
      var n := |ys| - 1;
      ListingConcat(xs, ys[..n], x);
      assert xs + ys == xs + ys[..n] + [ys[n]] && ys == ys[..n] + [ys[n]];
      ListingSnoc(xs + ys[..n], ys[n]);
      ListingSnoc(ys[..n], ys[n]);
    }
  }

  /** The options `xs` have been printed, and `end` is where the next one goes. */
  ghost predicate Printed(b: seq<char>, xs: seq<string>, end: nat) {
    end == |Listing(xs)| && end <= |b| && b[..end] == Listing(xs)
  }

  /** sprintf(end, " %s", x). */
  method PrintOne(buf: array<char>, ghost xs: seq<string>, end0: nat, x: string) returns (end: nat)
    requires Printed(buf[..], xs, end0) && end0 + 1 + |x| < buf.Length
    modifies buf
    ensures Printed(buf[..], xs + [x], end) && end == end0 + 1 + |x| && buf[end] == NUL
  {
    var text := " " + x;
    StrCpy(buf, end0, text);
    end := end0 + |text|;
    ListingSnoc(xs, x);
    assert buf[..end] == buf[..end0] + buf[end0..end];
    assert buf[end0..end] == text;
    assert buf[..end0] == Listing(xs);
    assert Listing(xs) + " " + x == Listing(xs) + text;
  }

  /** A pointer table that ends with a NULL behind `xs`. */
  ghost predicate NullTerminated(a: seq<Option<string>>, xs: seq<string>) {
    |xs| < |a| && a[|xs|].None? && forall i :: 0 <= i < |xs| ==> a[i] == Some(xs[i])
  }

  /** The counting pass over one table: one for the space and the length of the text. */
  method CountFrom(a: array<Option<string>>, from: nat, ghost xs: seq<string>, len0: nat) returns (len: nat)
    requires NullTerminated(a[..], xs) && from <= |xs|
    ensures len == len0 + |Listing(xs[from..])|
  {
    len := len0;
    var p := from;
    while a[p].Some?
      invariant from <= p <= |xs|
      invariant len + |Listing(xs[p..])| == len0 + |Listing(xs[from..])|
      decreases |xs| - p
    {
      ListingSplit(xs, p);
      len := len + 1;
      len := len + |a[p].value|;
      p := p + 1;
    }
    assert xs[p..] == [];
  }

  /** The printing pass over one table. */
  method PrintFrom(a: array<Option<string>>, from: nat, ghost xs: seq<string>,
                   buf: array<char>, ghost done: seq<string>, end0: nat)
    returns (end: nat)
    requires NullTerminated(a[..], xs) && from <= |xs|
    requires Printed(buf[..], done, end0) && end0 + |Listing(xs[from..])| < buf.Length
    modifies buf
    ensures Printed(buf[..], done + xs[from..], end) && end == end0 + |Listing(xs[from..])|
  {
    end := end0;
    var p := from;
    assert done + xs[from..p] == done;
    while a[p].Some?
      invariant from <= p <= |xs| && NullTerminated(a[..], xs)
      invariant Printed(buf[..], done + xs[from..p], end)
      invariant end + |Listing(xs[p..])| == end0 + |Listing(xs[from..])|
      decreases |xs| - p
    {
      ListingSplit(xs, p);
      end := PrintOne(buf, done + xs[from..p], end, a[p].value);
      assert done + xs[from..p] + [xs[p]] == done + xs[from..p + 1];
      p := p + 1;
    }
    assert xs[p..] == [] && xs[from..p] == xs[from..];
  }

  /** Both passes over both tables: the buffer is filled to its last character.  Without a buffer nothing is printed. */
  method PrintBoth(a: array<Option<string>>, ghost xs: seq<string>, b: array<Option<string>>, ghost ys: seq<string>,
                   allocOk: bool)
    returns (text: Option<string>, ghost unused: int)
    requires NullTerminated(a[..], xs) && NullTerminated(b[..], ys) && 1 <= |xs| && 2 <= |ys| && 3 < |xs| + |ys|
    ensures |Listing(xs[1..] + ys[2..])| >= 1
    ensures text == (if allocOk then Some(Listing(xs[1..] + ys[2..])[1..]) else None) && unused == 0
  {
    var len := 1;
    len := CountFrom(a, 1, xs, len);
    len := CountFrom(b, 2, ys, len);
    assert |xs[1..] + ys[2..]| > 0;
    if !allocOk {
      return None, 0;
    }
    var buf := new char[len];
    var end := PrintFrom(a, 1, xs, buf, [], 0);
    assert [] + xs[1..] == xs[1..];
    end := PrintFrom(b, 2, ys, buf, xs[1..], end);
    unused := buf.Length - (end + 1);
    text := Some(buf[1..end]);
    assert text.value == buf[..end][1..];
  }

  // ----- what a command line means

  /** One option, as it reaches the handlers: unclaimed, after "--", or for one of the two setup functions. */
  datatype Opt =
    | Unknown(key: string, val: Option<string>, handled: bool)
    | AfterDashes(param: string)
    | InitEq(str: string)
    | RdinitEq(str: string)

  predicate SetsEnv(o: Opt) {
    o.Unknown? && o.val.Some? && !o.handled && '.' !in o.key
  }

  predicate AddsArg(o: Opt) {
    o.AfterDashes? || (o.Unknown? && o.val.None? && !o.handled && '.' !in o.key)
  }

  function ArgText(o: Opt): string
    requires AddsArg(o)
  {
    if o.AfterDashes? then o.param else o.key
  }

  predicate Clears(o: Opt) {
    o.InitEq? || o.RdinitEq?
  }

  function EnvStep(env: seq<string>, o: Opt): seq<string> {
    if SetsEnv(o) then EnvSet(env, o.key, o.val.value) else env
  }

  function ArgsStep(max: nat, a: Args, o: Opt): (r: Args)
    requires |a.front| >= 1
    ensures |r.front| >= 1
  {
    if Clears(o) then Cleared(a) else if AddsArg(o) then Append(max, a, ArgText(o)) else a
  }

  /** The option finds no free slot for its argument. */
  predicate ArgOverruns(max: nat, a: Args, o: Opt) {
    AddsArg(o) && Full(max, a)
  }

  /** The option finds no slot for its entry. */
  predicate EntryOverruns(max: nat, env: seq<string>, o: Opt) {
    SetsEnv(o) && !EnvFits(max, env, o.key)
  }

  function EnvAfter(env: seq<string>, opts: seq<Opt>): seq<string> {
    if opts == [] then env else EnvStep(EnvAfter(env, opts[..|opts| - 1]), opts[|opts| - 1])
  }

  function ArgsAfter(max: nat, a: Args, opts: seq<Opt>): (r: Args)
    requires |a.front| >= 1
    ensures |r.front| >= 1
  {
    if opts == [] then a else ArgsStep(max, ArgsAfter(max, a, opts[..|opts| - 1]), opts[|opts| - 1])
  }

  /** What one option does to the tables, kind by kind. */
  lemma OptionInWords(max: nat, env: seq<string>, a: Args, o: Opt)
    requires |a.front| >= 1
    ensures var b := ArgsStep(max, a, o);
            && (o.InitEq? || o.RdinitEq? ==> b.front == [a.front[0]] && b.last == a.last)
            && (o.AfterDashes? || (o.Unknown? && !o.handled && '.' !in o.key && o.val.None?) ==>
                  var x := if o.AfterDashes? then o.param else o.key;
                  && (|a.front| < max ==> b == Args(a.front + [x], a.last))
                  && (|a.front| >= max ==> b == Args(a.front, Some(x)))
                  && (ArgOverruns(max, a, o) <==> |a.front| == max && a.last.Some?))
            && (o.Unknown? && (o.handled || '.' in o.key || o.val.Some?) ==> b == a && !ArgOverruns(max, a, o))
    ensures o.Unknown? && !o.handled && '.' !in o.key && o.val.Some? ==>
              EnvStep(env, o) == EnvSet(env, o.key, o.val.value)
    ensures !o.Unknown? || o.handled || '.' in o.key || o.val.None? ==>
              EnvStep(env, o) == env && !EntryOverruns(max, env, o)
  {
  }

  /** Some option of the line finds no free slot for its argument. */
  predicate ArgsOverrun(max: nat, a: Args, opts: seq<Opt>)
    requires |a.front| >= 1
  {
    opts != [] &&
    var rest := opts[..|opts| - 1];
    ArgsOverrun(max, a, rest) || ArgOverruns(max, ArgsAfter(max, a, rest), opts[|opts| - 1])
  }

  /** Some option of the line finds no slot for its entry. */
  predicate EnvOverruns(max: nat, env: seq<string>, opts: seq<Opt>) {
    opts != [] &&
    var rest := opts[..|opts| - 1];
    EnvOverruns(max, env, rest) || EntryOverruns(max, EnvAfter(env, rest), opts[|opts| - 1])
  }

  /** If an option overruns in the state that the options in front of it leave, the line overruns ... */
  lemma {:induction false} OverrunCounts(max: nat, env: seq<string>, a: Args, opts: seq<Opt>, k: nat)
    requires |a.front| >= 1 && k < |opts|
    ensures ArgOverruns(max, ArgsAfter(max, a, opts[..k]), opts[k]) ==> ArgsOverrun(max, a, opts)
    ensures EntryOverruns(max, EnvAfter(env, opts[..k]), opts[k]) ==> EnvOverruns(max, env, opts)
  {
    if k < |opts| - 1 {
      var rest := opts[..|opts| - 1];
      OverrunCounts(max, env, a, rest, k);
      assert opts[..k] == rest[..k];
    }
  }

  /** ... and only then. */
  lemma {:induction false} OverrunHappens(max: nat, env: seq<string>, a: Args, opts: seq<Opt>) returns (k: nat)
    requires |a.front| >= 1 && (ArgsOverrun(max, a, opts) || EnvOverruns(max, env, opts))
    ensures k < |opts|
    ensures || ArgOverruns(max, ArgsAfter(max, a, opts[..k]), opts[k])
            || EntryOverruns(max, EnvAfter(env, opts[..k]), opts[k])
  {
    var rest := opts[..|opts| - 1];
    if ArgsOverrun(max, a, rest) || EnvOverruns(max, env, rest) {
      k := OverrunHappens(max, env, a, rest);
      assert opts[..k] == rest[..k];
    } else {
      k := |rest|;
    }
  }

  function LastInit(command: string, opts: seq<Opt>): string {
    if opts == [] then command
    else
      var o := opts[|opts| - 1];
      if o.InitEq? then o.str else LastInit(command, opts[..|opts| - 1])
  }

  function LastRdinit(command: string, opts: seq<Opt>): string {
    if opts == [] then command
    else
      var o := opts[|opts| - 1];
      if o.RdinitEq? then o.str else LastRdinit(command, opts[..|opts| - 1])
  }

  /** The value of the last option that sets `key`. */
  function LastValue(opts: seq<Opt>, key: string): Option<string> {
    if opts == [] then None
    else
      var o := opts[|opts| - 1];
      if SetsEnv(o) && o.key == key then o.val else LastValue(opts[..|opts| - 1], key)
  }

  /** An entry has one key. */
  lemma OneKey(entry: string, k1: string, k2: string)
    requires IsKey(k1) && IsKey(k2) && HasKey(entry, k1) && HasKey(entry, k2)
    ensures k1 == k2
  {
    assert forall i :: 0 <= i < |k1| ==> entry[i] == k1[i] && k1[i] in k1;
    assert forall i :: 0 <= i < |k2| ==> entry[i] == k2[i] && k2[i] in k2;
  }

  lemma EntryHasKey(key: string, val: string)
    ensures HasKey(Entry(key, val), key) && ValueOf(Entry(key, val), key) == val
  {
  }

  /** Setting one key changes the value of that key and of no other. */
  lemma SetThenLookup(env: seq<string>, key: string, val: string, k: string)
    requires IsKey(key) && IsKey(k)
    ensures Lookup(EnvSet(env, key, val), k) == if k == key then Some(val) else Lookup(env, k)
  {
    var i, env' := Find(env, key), EnvSet(env, key, val);
    EntryHasKey(key, val);
    if k == key {
      FindIs(env', key, i);
    } else {
      forall j | 0 <= j < |env'|
        ensures HasKey(env'[j], k) <==> j < |env| && HasKey(env[j], k)
      {
        if j == i {
          if HasKey(env'[i], k) {
            OneKey(env'[i], key, k);
          }
          if i < |env| && HasKey(env[i], k) {
            OneKey(env[i], key, k);
          }
        }
      }
      var f := Find(env, k);
      if f < |env| {
        FindIs(env', k, f);
      } else {
        FindIs(env', k, |env'|);
      }
    }
  }

  lemma SetKeepsUnique(env: seq<string>, key: string, val: string)
    requires UniqueKeys(env) && IsKey(key)
    ensures UniqueKeys(EnvSet(env, key, val))
  {
    var f, env' := Find(env, key), EnvSet(env, key, val);
    EntryHasKey(key, val);
    forall i, j, k | 0 <= i < j < |env'| && IsKey(k) && HasKey(env'[i], k)
      ensures !HasKey(env'[j], k)
    {
      if i == f {
        OneKey(env'[i], key, k);
        assert env'[j] == env[j];
      } else {
        assert env'[i] == env[i];
        if j == f && HasKey(env'[j], k) {
          OneKey(env'[j], key, k);
        }
      }
    }
  }

  ghost predicate KeysOk(opts: seq<Opt>) {
    forall i :: 0 <= i < |opts| && opts[i].Unknown? ==> IsKey(opts[i].key)
  }

  /** As long as nothing overflows, the environment is a map in which the last value of a key wins. */
  lemma {:induction false} LastValueWins(env: seq<string>, opts: seq<Opt>, k: string)
    requires IsKey(k) && KeysOk(opts)
    ensures Lookup(EnvAfter(env, opts), k) == if LastValue(opts, k).Some? then LastValue(opts, k) else Lookup(env, k)
  {
    if opts != [] {
      var rest, o := opts[..|opts| - 1], opts[|opts| - 1];
      LastValueWins(env, rest, k);
      if SetsEnv(o) {
        SetThenLookup(EnvAfter(env, rest), o.key, o.val.value, k);
      }
    }
  }

  lemma {:induction false} KeysStayUnique(env: seq<string>, opts: seq<Opt>)
    requires UniqueKeys(env) && KeysOk(opts)
    ensures UniqueKeys(EnvAfter(env, opts))
  {
    if opts != [] {
      var rest, o := opts[..|opts| - 1], opts[|opts| - 1];
      KeysStayUnique(env, rest);
      if SetsEnv(o) {
        SetKeepsUnique(EnvAfter(env, rest), o.key, o.val.value);
      }
    }
  }

  /** From the table the kernel starts with, no run of options ever stores a key twice. */
  lemma BootEnvironmentIsAMap(opts: seq<Opt>)
    requires KeysOk(opts)
    ensures UniqueKeys(EnvAfter(["HOME=/", "TERM=linux"], opts))
  {
    var env := ["HOME=/", "TERM=linux"];
    forall i, j, k | 0 <= i < j < |env| && IsKey(k) && HasKey(env[i], k)
      ensures !HasKey(env[j], k)
    {
      assert "HOME=/"[..4] == "HOME";
      OneKey(env[0], "HOME", k);
      assert env[1][..4][0] == 'T' && k[0] == 'H';
    }
    KeysStayUnique(env, opts);
  }

  /** The keys that are not in `env`, in the order in which the options first set them. */
  function NewKeys(env: seq<string>, opts: seq<Opt>): seq<string> {
    if opts == [] then []
    else
      var before, o := NewKeys(env, opts[..|opts| - 1]), opts[|opts| - 1];
      if SetsEnv(o) && Lookup(env, o.key).None? && o.key !in before then before + [o.key] else before
  }

  ghost predicate SameKey(e1: string, e2: string) {
    forall k :: IsKey(k) ==> (HasKey(e1, k) <==> HasKey(e2, k))
  }

  /** The table `now` has the keys of `env`, each where it was, and then `news`. */
  ghost predicate KeysInOrder(env: seq<string>, news: seq<string>, now: seq<string>) {
    && |now| == |env| + |news|
    && (forall i :: 0 <= i < |env| ==> SameKey(now[i], env[i]))
    && (forall j :: 0 <= j < |news| ==> IsKey(news[j]) && HasKey(now[|env| + j], news[j]))
  }

  lemma OneKeySame(e1: string, e2: string, key: string)
    requires IsKey(key) && HasKey(e1, key) && HasKey(e2, key)
    ensures SameKey(e1, e2)
  {
    forall k | IsKey(k) && (HasKey(e1, k) || HasKey(e2, k))
      ensures k == key
    {
      OneKey(if HasKey(e1, k) then e1 else e2, key, k);
    }
  }

  lemma ReplaceInOrder(env: seq<string>, news: seq<string>, now: seq<string>, f: nat, key: string, e: string)
    requires KeysInOrder(env, news, now) && IsKey(key) && f < |now| && HasKey(now[f], key) && HasKey(e, key)
    ensures KeysInOrder(env, news, now[f := e])
    ensures Lookup(env, key).Some? || key in news
  {
    if f < |env| {
      assert SameKey(now[f], env[f]);
      OneKeySame(e, env[f], key);
      assert Find(env, key) <= f;
    } else {
      var j := f - |env|;
      OneKey(now[|env| + j], key, news[j]);
    }
  }

  lemma AppendInOrder(env: seq<string>, news: seq<string>, now: seq<string>, key: string, e: string)
    requires KeysInOrder(env, news, now) && IsKey(key) && HasKey(e, key)
    requires forall i :: 0 <= i < |now| ==> !HasKey(now[i], key)
    ensures KeysInOrder(env, news + [key], now + [e])
    ensures Lookup(env, key).None? && key !in news
  {
    forall i | 0 <= i < |env|
      ensures !HasKey(env[i], key)
    {
      assert SameKey(now[i], env[i]) && !HasKey(now[i], key);
    }
    forall j | 0 <= j < |news|
      ensures news[j] != key
    {
      assert HasKey(now[|env| + j], news[j]);
    }
  }

  lemma SetInOrder(env: seq<string>, news: seq<string>, now: seq<string>, key: string, val: string)
    requires KeysInOrder(env, news, now) && IsKey(key)
    ensures var news' := if Lookup(env, key).None? && key !in news then news + [key] else news;
            KeysInOrder(env, news', EnvSet(now, key, val))
  {
    EntryHasKey(key, val);
    if Find(now, key) < |now| {
      ReplaceInOrder(env, news, now, Find(now, key), key, Entry(key, val));
    } else {
      AppendInOrder(env, news, now, key, Entry(key, val));
    }
  }

  /** Over a whole command line the entries keep their places and new keys follow in the order of their first option. */
  lemma {:induction false} EntriesKeepTheirOrder(env: seq<string>, opts: seq<Opt>)
    requires KeysOk(opts)
    ensures KeysInOrder(env, NewKeys(env, opts), EnvAfter(env, opts))
  {
    if opts != [] {
      var rest, o := opts[..|opts| - 1], opts[|opts| - 1];
      EntriesKeepTheirOrder(env, rest);
      if SetsEnv(o) {
        SetInOrder(env, NewKeys(env, rest), EnvAfter(env, rest), o.key, o.val.value);
      }
    }
  }

  /** With a limit of two, "a=1 a=2" panics although there is room for every entry. */
  lemma RepeatedKeyPanics()
    ensures var env, a1 := ["HOME=/", "TERM=linux"], Unknown("a", Some("1"), false);
            var opts := [a1, Unknown("a", Some("2"), false)];
            && !EnvOverruns(2, env, [a1]) && EnvOverruns(2, env, opts)
            && EnvAfter(env, opts) == ["HOME=/", "TERM=linux", "a=2"]
  {
    var env, a1, a2 := ["HOME=/", "TERM=linux"], Unknown("a", Some("1"), false), Unknown("a", Some("2"), false);
    var opts := [a1, a2];
    var env1 := ["HOME=/", "TERM=linux", "a=1"];
    assert opts[..1] == [a1] && [a1][..0] == [];
    assert Entry("a", "1") == "a=1" && Entry("a", "2") == "a=2";
    assert "a=1"[..1] == "a" && HasKey("a=1", "a") && "HOME=/"[0] == 'H' && "TERM=linux"[0] == 'T';
    assert "HOME=/"[..1][0] == 'H' && "TERM=linux"[..1][0] == 'T';
    FindIs(env, "a", 2);
    FindIs(env1, "a", 2);
    assert EnvAfter(env, [a1]) == EnvStep(env, a1) == env1;
    assert EnvAfter(env, opts) == EnvStep(env1, a2);
  }

  // ----- arguments before init=

  /** Appending one argument after the other; None once an argument finds the table full. */
  function Given(max: nat, a: Args, xs: seq<string>): Option<Args> {
    if xs == [] then Some(a)
    else
      var before := Given(max, a, xs[..|xs| - 1]);
      if before.None? || Full(max, before.value) then None else Some(Append(max, before.value, xs[|xs| - 1]))
  }

  lemma {:induction false} GivenIs(max: nat, a: Args, xs: seq<string>)
    requires |a.front| <= max
    ensures var n := |a.front| + |xs|;
            Given(max, a, xs) ==
            if n <= max then Some(Args(a.front + xs, a.last))
            else if n == max + 1 && a.last.None? then Some(Args(a.front + xs[..|xs| - 1], Some(xs[|xs| - 1])))
            else None
  {
    if xs != [] {
      var rest, x := xs[..|xs| - 1], xs[|xs| - 1];
      GivenIs(max, a, rest);
      assert a.front + rest + [x] == a.front + xs;
      if |a.front| + |rest| == max + 1 && a.last.None? {
        assert |rest| > 0;
      }
    } else {
      assert a.front + xs == a.front;
    }
  }

  /** What init is handed: its arguments, or None when the kernel panics instead. */
  function Handed(max: nat, a: Option<Args>): Option<seq<string>> {
    if a.None? then None else Some(Visible(max, a.value))
  }

  /** That arguments in front of init= do not count holds exactly when slot `max` was free at that point, when fewer
      arguments than the cleared slots follow, or when more follow than fit in any case: the loop that clears the table
      stops short of that slot, so a full one is handed on or counts as one argument too many. */
  lemma ArgumentsBeforeInitIgnored(max: nat, a: Args, xs: seq<string>)
    requires 1 <= |a.front| <= max
    ensures Handed(max, Given(max, Cleared(a), xs)) == Handed(max, Given(max, Args(a.front[..1], None), xs))
            <==> a.last.None? || |xs| < max - 1 || |xs| > max
  {
    var clean := Args(a.front[..1], None);
    GivenIs(max, Cleared(a), xs);
    GivenIs(max, clean, xs);
    if a.last.Some? && |xs| == max - 1 {
      assert |Handed(max, Given(max, Cleared(a), xs)).value| == max + 1;
      assert |Handed(max, Given(max, clean, xs)).value| == max;
    }
  }

  /** The texts of the options that add an argument. */
  function ArgTexts(opts: seq<Opt>): seq<string> {
    if opts == [] then []
    else
      var before, o := ArgTexts(opts[..|opts| - 1]), opts[|opts| - 1];
      if AddsArg(o) then before + [ArgText(o)] else before
  }

  /** Between two clearings the options append their texts. */
  lemma {:induction false} OptionsAppend(max: nat, a: Args, opts: seq<Opt>)
    requires |a.front| >= 1 && forall i :: 0 <= i < |opts| ==> !Clears(opts[i])
    ensures Given(max, a, ArgTexts(opts)) == if ArgsOverrun(max, a, opts) then None else Some(ArgsAfter(max, a, opts))
  {
    if opts != [] {
      var rest, o := opts[..|opts| - 1], opts[|opts| - 1];
      OptionsAppend(max, a, rest);
      if AddsArg(o) {
        assert ArgTexts(opts)[..|ArgTexts(rest)|] == ArgTexts(rest);
      }
    }
  }

  /** The options behind init= start from what it leaves. */
  lemma {:induction false} InitThenOptions(max: nat, env: seq<string>, a: Args, path: string, opts: seq<Opt>)
    requires |a.front| >= 1
    ensures ArgsAfter(max, a, [InitEq(path)] + opts) == ArgsAfter(max, Cleared(a), opts)
    ensures EnvAfter(env, [InitEq(path)] + opts) == EnvAfter(env, opts)
    ensures ArgsOverrun(max, a, [InitEq(path)] + opts) <==> ArgsOverrun(max, Cleared(a), opts)
    ensures EnvOverruns(max, env, [InitEq(path)] + opts) <==> EnvOverruns(max, env, opts)
  {
    var all := [InitEq(path)] + opts;
    if opts == [] {
      assert all == [InitEq(path)] && all[..0] == [];
    } else {
      var rest := opts[..|opts| - 1];
      InitThenOptions(max, env, a, path, rest);
      assert all[..|all| - 1] == [InitEq(path)] + rest;
    }
  }

  /** What init is handed by a whole run of options. */
  function HandedBy(max: nat, env: seq<string>, a: Args, opts: seq<Opt>): Option<seq<string>>
    requires |a.front| >= 1
  {
    if ArgsOverrun(max, a, opts) || EnvOverruns(max, env, opts) then None
    else Some(Visible(max, ArgsAfter(max, a, opts)))
  }

  /** The same for a command line "... init=path ..." with any options but another init= behind it: a full environment
      panics with or without the earlier arguments. */
  lemma InitIgnoresEarlierExactly(max: nat, env: seq<string>, a: Args, path: string, opts: seq<Opt>)
    requires 1 <= |a.front| <= max && forall i :: 0 <= i < |opts| ==> !Clears(opts[i])
    ensures var n, all := |ArgTexts(opts)|, [InitEq(path)] + opts;
            HandedBy(max, env, a, all) == HandedBy(max, env, Args(a.front[..1], None), all)
            <==> a.last.None? || n < max - 1 || n > max || EnvOverruns(max, env, opts)
  {
    var start := Args(a.front[..1], None);
    assert Cleared(start) == start;
    InitThenOptions(max, env, a, path, opts);
    InitThenOptions(max, env, start, path, opts);
    OptionsAppend(max, Cleared(a), opts);
    OptionsAppend(max, start, opts);
    ArgumentsBeforeInitIgnored(max, a, ArgTexts(opts));
  }

  /** With a limit of two, "a b" leaves a full table behind. */
  lemma TwoArguments()
    ensures Given(2, Args(["init"], None), ["a", "b"]) == Some(Args(["init", "a"], Some("b")))
  {
    GivenIs(2, Args(["init"], None), ["a", "b"]);
    assert ["a", "b"][..1] == ["a"] && ["init"] + ["a"] == ["init", "a"];
  }

  /** "a b init=/bin/sh c" then hands init the argument b from before init=. */
  lemma StaleArgument()
    ensures Given(2, Args(["init"], None), ["a", "b"]) == Some(Args(["init", "a"], Some("b")))
    ensures Handed(2, Given(2, Cleared(Args(["init", "a"], Some("b"))), ["c"])) == Some(["init", "c", "b"])
  {
    TwoArguments();
    var a := Cleared(Args(["init", "a"], Some("b")));
    assert a == Args(["init"], Some("b"));
    GivenIs(2, a, ["c"]);
    assert ["init"] + ["c"] + ["b"] == ["init", "c", "b"];
  }

  /** "a b init=/bin/sh c d" panics, although "init=/bin/sh c d" does not. */
  lemma StalePanic()
    ensures Given(2, Args(["init"], None), ["a", "b"]) == Some(Args(["init", "a"], Some("b")))
    ensures Handed(2, Given(2, Cleared(Args(["init", "a"], Some("b"))), ["c", "d"])) == None
    ensures Handed(2, Given(2, Cleared(Args(["init"], None)), ["c", "d"])) == Some(["init", "c", "d"])
  {
    TwoArguments();
    assert Cleared(Args(["init", "a"], Some("b"))) == Args(["init"], Some("b"));
    assert Cleared(Args(["init"], None)) == Args(["init"], None);
    GivenIs(2, Args(["init"], Some("b")), ["c", "d"]);
    GivenIs(2, Args(["init"], None), ["c", "d"]);
    assert ["c", "d"][..1] == ["c"] && ["init"] + ["c"] + ["d"] == ["init", "c", "d"];
  }
}
