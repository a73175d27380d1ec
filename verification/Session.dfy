/** Whole sessions of the router: hook the table, then any run of binding steps and hooked calls,
    then unhook.  Which calls reach the kernel's own code, with which binding and through which entry. */
module Session {
  import opened Wrappers
  import opened CString
  import opened Registry
  import opened Bindings
  import opened Calls
  import opened Handlers
  import opened SyscallTable
  import Blacklist
  import Lines
  import Signatures

  // ----- one call

  datatype Outcome = Reached(target: Target) | Refused(code: int)

  /** A wrapper other than `new_exit_group`: without a binding go on to the saved original; with one,
      first check the call's bit, then ask the module. */
  ghost function Wrap(h: Hook, b: Option<Binding>, c: SysCall, env: Env, original: Target): Outcome
    requires h != HExitGroup
  {
    match b
    case None => Reached(original)
    case Some(v) =>
      if !OpAllowed(TypeOf(h), v.sv) then Refused(-EOPNOTSUPP)
      else
        var ret := Answer(v.addr.kind, c, env);
        if ret < 0 then Refused(ret) else Reached(original)
  }

  /** The call reaches the original: unbound, or its own bit is set and the module does not object. */
  ghost predicate Permitted(b: Option<Binding>, c: SysCall, env: Env) {
    b.Some? ==> OpAllowed(TypeOf(HookOf(c)), b.value.sv) && Answer(b.value.addr.kind, c, env) >= 0
  }

  // ----- runs with calls

  /** A call that ran in the kernel: who made it, with which binding, and the entry it went to. */
  datatype Entry = Entry(pid: int, call: SysCall, env: Env, bound: Option<Binding>, target: Target)

  datatype World = World(state: State, table: seq<Target>, saved: map<Hook, Target>, log: seq<Entry>)

  datatype Action = Bind(e: Event) | Call(pid: int, c: SysCall, env: Env)

  ghost predicate Ready(w: World) {
    |w.table| >= TABLE_SIZE && forall h :: h in w.saved
  }

  ghost predicate CanAct(w: World, a: Action) {
    CanDo(w.state, a)
  }

  /** What entry `i` of the table does with a call. */
  ghost function Invoke(w: World, i: nat, b: Option<Binding>, c: SysCall, env: Env): Outcome
    requires Ready(w) && i < |w.table|
  {
    match w.table[i]
    case Kernel(_) => Reached(w.table[i])
    case Wrapper(h) => if h == HExitGroup then Refused(0) else Wrap(h, b, c, env, w.saved[h])
  }

  /** A binding step or a call.  exit_group gives the binding back only when the table sends it to its wrapper. */
  ghost function Act(w: World, a: Action): World
    requires Ready(w) && CanAct(w, a)
  {
    match a
    case Bind(e) =>
      if e.Exit? && w.table[Nr(HExitGroup)] != Wrapper(HExitGroup) then w.(state := Remove(w.state, e.pid))
      else w.(state := Step(w.state, e))
    case Call(pid, c, env) =>
      NrInjective(HookOf(c), HookOf(c));
      var b := w.state.tasks[pid];
      match Invoke(w, Nr(HookOf(c)), b, c, env)
      case Reached(target) => w.(log := w.log + [Entry(pid, c, env, b, target)])
      case Refused(_) => w
  }

  ghost predicate Runs(w: World, acts: seq<Action>)
    decreases |acts|
  {
    Ready(w) && (acts == [] || (CanAct(w, acts[0]) && Runs(Act(w, acts[0]), acts[1..])))
  }

  ghost function Final(w: World, acts: seq<Action>): World
    requires Runs(w, acts)
    decreases |acts|
  {
    if acts == [] then w else Final(Act(w, acts[0]), acts[1..])
  }

  // ----- what a session is meant to do, without table, wrappers or saved entries

  ghost predicate CanDo(s: State, a: Action) {
    match a
    case Bind(e) => Enabled(s, e)
    case Call(pid, _, _) => pid in s.tasks
  }

  ghost function StateAfter(s: State, a: Action): State
    requires CanDo(s, a)
  {
    if a.Bind? then Step(s, a.e) else s
  }

  ghost predicate Possible(s: State, acts: seq<Action>)
    decreases |acts|
  {
    acts != [] ==> CanDo(s, acts[0]) && Possible(StateAfter(s, acts[0]), acts[1..])
  }

  /** The calls that should reach the kernel: the permitted ones, each at its own entry of `t`. */
  ghost function Expected(s: State, acts: seq<Action>, t: seq<Target>): seq<Entry>
    requires Possible(s, acts) && |t| >= TABLE_SIZE
    decreases |acts|
  {
    if acts == [] then []
    else
      var rest := Expected(StateAfter(s, acts[0]), acts[1..], t);
      match acts[0]
      case Bind(_) => rest
      case Call(pid, c, env) =>
        NrInjective(HookOf(c), HookOf(c));
        var b := s.tasks[pid];
        if Permitted(b, c, env) then [Entry(pid, c, env, b, t[Nr(HookOf(c))])] + rest else rest
  }

  ghost function StateFinal(s: State, acts: seq<Action>): State
    requires Possible(s, acts)
    decreases |acts|
  {
    if acts == [] then s else StateFinal(StateAfter(s, acts[0]), acts[1..])
  }

  // ----- the hooked world does just that

  /** The table was `t` before it was hooked. */
  ghost predicate HookedFrom(w: World, t: seq<Target>) {
    Hooked(t, w.table) && Saved(t, w.saved)
  }

  lemma HookedAct(w: World, t: seq<Target>, b: Option<Binding>, c: SysCall, env: Env)
    requires HookedFrom(w, t)
    ensures var nr := Nr(HookOf(c));
            && nr < |w.table| == |t| && Invoke(w, nr, b, c, env) == Wrap(HookOf(c), b, c, env, t[nr])
            && (if Permitted(b, c, env) then Invoke(w, nr, b, c, env) == Reached(t[nr]) else Invoke(w, nr, b, c, env).Refused?)
  {
    var h := HookOf(c);
    NrInjective(h, h);
    assert w.table[Nr(h)] == Wrapper(h) && w.saved[h] == t[Nr(h)];
  }

  /** What a hooked call comes to, call by call: `nr` is its entry and `mask` its bit.  Unbound, it goes on to
      the entry that was saved; without its bit it is refused with -EOPNOTSUPP; if the module objects it is
      refused with the module's answer. */
  lemma HookedCall(w: World, t: seq<Target>, b: Option<Binding>, c: SysCall, env: Env, nr: nat, mask: bv32)
    requires HookedFrom(w, t)
    requires match c
      case Open(_, _, _) => nr == 2 && mask == 0x1
      case Close(_) => nr == 3 && mask == 0x2
      case Write(_, _, _) => nr == 1 && mask == 0x8
      case Rename(_, _) => nr == 82 && mask == 0x10
      case Rmdir(_) => nr == 84 && mask == 0x20
      case Mkdir(_, _) => nr == 83 && mask == 0x40
      case Link(_, _) => nr == 86 && mask == 0x80
      case Symlink(_, _) => nr == 88 && mask == 0x100
      case Unlink(_) => nr == 87 && mask == 0x200
    ensures nr < |w.table| == |t|
    ensures Invoke(w, nr, b, c, env) ==
            match b
            case None => Reached(t[nr])
            case Some(v) =>
              if v.sv & mask == 0 then Refused(-95)
              else
                var answer := Answer(v.addr.kind, c, env);
                if answer < 0 then Refused(answer) else Reached(t[nr])
    ensures Nr(HookOf(c)) == nr && (Permitted(b, c, env) <==> Invoke(w, nr, b, c, env) == Reached(t[nr]))
  {
    EntryOf(c);
    HookedAct(w, t, b, c, env);
    if b.Some? {
      OwnBit(c, b.value.sv);
    }
  }

  /** The effect of such a call by a task: logged with the old entry, or nothing. */
  lemma CallOutcome(w: World, t: seq<Target>, pid: int, c: SysCall, env: Env, nr: nat, mask: bv32)
    requires HookedFrom(w, t) && pid in w.state.tasks
    requires match c
      case Open(_, _, _) => nr == 2 && mask == 0x1
      case Close(_) => nr == 3 && mask == 0x2
      case Write(_, _, _) => nr == 1 && mask == 0x8
      case Rename(_, _) => nr == 82 && mask == 0x10
      case Rmdir(_) => nr == 84 && mask == 0x20
      case Mkdir(_, _) => nr == 83 && mask == 0x40
      case Link(_, _) => nr == 86 && mask == 0x80
      case Symlink(_, _) => nr == 88 && mask == 0x100
      case Unlink(_) => nr == 87 && mask == 0x200
    ensures nr < |t|
    ensures var b := w.state.tasks[pid];
            Act(w, Call(pid, c, env)) ==
            if b.None? || (b.value.sv & mask != 0 && Answer(b.value.addr.kind, c, env) >= 0)
            then w.(log := w.log + [Entry(pid, c, env, b, t[nr])]) else w
  {
    HookedCall(w, t, w.state.tasks[pid], c, env, nr, mask);
  }

  lemma ActInStep(w: World, t: seq<Target>, a: Action)
    requires HookedFrom(w, t) && CanAct(w, a)
    ensures var n := Act(w, a);
            && HookedFrom(n, t) && n.state == StateAfter(w.state, a)
            && n.log == w.log + Expected(w.state, [a], t)
  {
    assert Expected(StateAfter(w.state, a), [a][1..], t) == [];
    match a
    case Bind(e) => assert w.table[Nr(HExitGroup)] == Wrapper(HExitGroup);
    case Call(pid, c, env) => HookedAct(w, t, w.state.tasks[pid], c, env);
  }

  lemma ExpectedHead(s: State, acts: seq<Action>, t: seq<Target>)
    requires acts != [] && Possible(s, acts) && |t| >= TABLE_SIZE
    ensures Expected(s, acts, t) == Expected(s, [acts[0]], t) + Expected(StateAfter(s, acts[0]), acts[1..], t)
  {
    assert [acts[0]][1..] == [];
  }

  lemma RunStep(w: World, acts: seq<Action>)
    requires Runs(w, acts) && acts != []
    ensures CanAct(w, acts[0]) && Runs(Act(w, acts[0]), acts[1..])
    ensures Final(w, acts) == Final(Act(w, acts[0]), acts[1..])
  {
  }

  /** In every session the calls that reach the kernel are exactly the permitted ones, in order, each
      through the entry its number had before hooking, and the bindings are those of the transition
      system. */
  lemma {:induction false} SessionExact(w: World, t: seq<Target>, acts: seq<Action>)
    requires HookedFrom(w, t) && Runs(w, acts)
    ensures Possible(w.state, acts)
    ensures var n := Final(w, acts);
            && n.log == w.log + Expected(w.state, acts, t)
            && n.state == StateFinal(w.state, acts) && HookedFrom(n, t)
    decreases |acts|
  {
    if acts != [] {
      RunStep(w, acts);
      ActInStep(w, t, acts[0]);
      var n, rest := Act(w, acts[0]), acts[1..];
      SessionExact(n, t, rest);
      ExpectedHead(w.state, acts, t);
      var first, later := Expected(w.state, [acts[0]], t), Expected(n.state, rest, t);
      assert w.log + first + later == w.log + (first + later);
    }
  }

  /** Hook, run anything, unhook: the table is what it was, entries never hooked included. */
  lemma SessionRestores(w: World, t: seq<Target>, acts: seq<Action>, u: seq<Target>)
    requires HookedFrom(w, t) && Runs(w, acts)
    requires Restored(Final(w, acts).table, Final(w, acts).saved, u)
    ensures u == t
  {
    SessionExact(w, t, acts);
    HookThenUnhook(t, Final(w, acts).table, Final(w, acts).saved, u);
  }

  /** What the callers may do: binding steps that are enabled, and calls by live tasks. */
  lemma PossibleStep(s: State, a: Action, acts: seq<Action>)
    ensures Possible(s, [])
    ensures Possible(s, [a] + acts) <==>
            (if a.Bind? then Enabled(s, a.e) else a.pid in s.tasks) && Possible(StateAfter(s, a), acts)
  {
    assert ([a] + acts)[1..] == acts;
  }

  /** A session can start wherever the table has been hooked, and go on with whatever the callers may do. */
  lemma {:induction false} EverySessionRuns(w: World, t: seq<Target>, acts: seq<Action>)
    requires Hooked(t, w.table) && Saved(t, w.saved) && Possible(w.state, acts)
    ensures HookedFrom(w, t) && Runs(w, acts)
    decreases |acts|
  {
    if acts != [] {
      ActInStep(w, t, acts[0]);
      EverySessionRuns(Act(w, acts[0]), t, acts[1..]);
    }
  }

  // ----- safety of the log

  ghost predicate AllPermitted(log: seq<Entry>) {
    forall i :: 0 <= i < |log| ==> Permitted(log[i].bound, log[i].call, log[i].env)
  }

  lemma {:induction false} ExpectedPermitted(s: State, acts: seq<Action>, t: seq<Target>)
    requires Possible(s, acts) && |t| >= TABLE_SIZE
    ensures AllPermitted(Expected(s, acts, t))
    decreases |acts|
  {
    if acts != [] {
      ExpectedPermitted(StateAfter(s, acts[0]), acts[1..], t);
    }
  }

  /** What the protect module lets through: of the guarded calls the first path alone decides, and for a
      write its data; it answers -EPERM or 0. */
  lemma ProtectExact(b: Binding, c: SysCall, env: Env)
    requires b.addr.kind == 2
    ensures Permitted(Some(b), c, env) <==>
            && OpAllowed(TypeOf(HookOf(c)), b.sv)
            && match c
               case Open(path, _, _) => !Occurs(path, ".protected")
               case Unlink(path) => !Occurs(path, ".protected")
               case Rmdir(path) => !Occurs(path, ".protected")
               case Rename(oldname, _) => !Occurs(oldname, ".protected")
               case Link(oldname, _) => !Occurs(oldname, ".protected")
               case Symlink(oldname, _) => !Occurs(oldname, ".protected")
               case Write(_, data, _) => !Occurs(CStr(data), ".protected")
               case Close(_) => true
               case Mkdir(_, _) => true
    ensures Answer(2, c, env) == 0 || Answer(2, c, env) == -1
  {
  }

  /** No session lets a task bound to the protect module reach the original open, unlink, rmdir,
      rename, link or symlink with a protected first path, or write the mark. */
  lemma ProtectedNeverReached(w: World, t: seq<Target>, acts: seq<Action>)
    requires HookedFrom(w, t) && Runs(w, acts) && w.log == []
    ensures forall i :: 0 <= i < |Final(w, acts).log| ==>
              var x := Final(w, acts).log[i];
              x.bound.Some? && x.bound.value.addr.kind == 2 ==>
                match x.call
                case Open(path, _, _) => !Occurs(path, ".protected")
                case Unlink(path) => !Occurs(path, ".protected")
                case Rmdir(path) => !Occurs(path, ".protected")
                case Rename(oldname, _) => !Occurs(oldname, ".protected")
                case Link(oldname, _) => !Occurs(oldname, ".protected")
                case Symlink(oldname, _) => !Occurs(oldname, ".protected")
                case Write(_, data, _) => !Occurs(CStr(data), ".protected")
                case _ => true
  {
    SessionExact(w, t, acts);
    ExpectedPermitted(w.state, acts, t);
    var log := Final(w, acts).log;
    assert AllPermitted(log);
    forall i | 0 <= i < |log| && log[i].bound.Some? && log[i].bound.value.addr.kind == 2
      ensures Protect(log[i].call) >= 0
    {
      assert Permitted(log[i].bound, log[i].call, log[i].env);
    }
  }

  /** So a file can be renamed onto a protected path. */
  lemma SecondPathUnguarded(b: Binding, env: Env)
    requires b.addr.kind == 2 && b.sv & 0x10 != 0
    ensures Occurs("dir/.protected", ".protected") && Permitted(Some(b), Rename("file", "dir/.protected"), env)
  {
    assert OccursAt("dir/.protected", ".protected", 4);
    OwnBit(Rename("file", "dir/.protected"), b.sv);
    ProtectExact(b, Rename("file", "dir/.protected"), env);
  }

  /** No session lets a task bound to the antivirus module reach the original open of a scanned file
      on which the scanner's verdict is positive. */
  lemma InfectedNeverOpened(w: World, t: seq<Target>, acts: seq<Action>)
    requires HookedFrom(w, t) && Runs(w, acts) && w.log == []
    ensures forall i :: 0 <= i < |Final(w, acts).log| ==>
              var x := Final(w, acts).log[i];
              !(x.bound.Some? && x.bound.value.addr.kind == 3 && x.call.Open? && CheckForVirus(x.call.flags, x.env) < 0)
  {
    SessionExact(w, t, acts);
    ExpectedPermitted(w.state, acts, t);
    var log := Final(w, acts).log;
    assert AllPermitted(log);
  }

  /** What the antivirus module lets through: every call on its bit alone, unless it is an open, both files can
      be opened, and the file is not a device; then the scanner's verdict on the file decides, which is empty
      by then when O_TRUNC is among the flags.  It answers -1 or 0. */
  lemma AntivirusExact(b: Binding, c: SysCall, env: Env)
    requires b.addr.kind == 3
    ensures Permitted(Some(b), c, env) <==>
            && OpAllowed(TypeOf(HookOf(c)), b.sv)
            && (c.Open? && env.blacklist.Some? && env.input.Some? && !env.input.value.device ==>
                  var data := if c.flags & 0x200 != 0 then "" else env.input.value.data;
                  !Blacklist.Infected(env.blacklist.value, data, 4096))
    ensures Answer(3, c, env) == 0 || Answer(3, c, env) == -1
  {
  }

  /** With a blacklist of signatures: an open goes through exactly when its bit is set and the file, unless it
      cannot be opened or is a device, is truncated, or empty, or shows no signature. */
  lemma AntivirusOpens(b: Binding, c: SysCall, env: Env, signatures: seq<Signatures.Signature>)
    requires b.addr.kind == 3 && Signatures.GoodSignatures(signatures, 4096)
    requires env.blacklist == Some(Lines.Unlines(Signatures.LinesOf(signatures, 4096)))
    ensures Permitted(Some(b), c, env) <==>
            && OpAllowed(TypeOf(HookOf(c)), b.sv)
            && (c.Open? && env.input.Some? && !env.input.value.device ==>
                  || c.flags & 0x200 != 0 || env.input.value.data == ""
                  || forall i :: 0 <= i < |signatures| ==> !Signatures.Shown(env.input.value.data, signatures[i], 4096))
  {
    AntivirusExact(b, c, env);
    if c.Open? && env.input.Some? {
      var data := if c.flags & 0x200 != 0 then "" else env.input.value.data;
      Signatures.SignatureScan(signatures, data, 4096);
    }
  }

  /** The trace module lets every call through on its bit alone. */
  lemma TraceExact(b: Binding, c: SysCall, env: Env)
    requires b.addr.kind == 1
    ensures Permitted(Some(b), c, env) <==> OpAllowed(TypeOf(HookOf(c)), b.sv)
    ensures Answer(1, c, env) == 0
  {
  }

  /** The open of a regular file that shows one of the signatures, without O_TRUNC, while the blacklist is
      the one written for the signatures. */
  ghost predicate OpensInfected(c: SysCall, env: Env, signatures: seq<Signatures.Signature>)
    requires Signatures.GoodSignatures(signatures, PAGE_SIZE)
  {
    && c.Open? && c.flags & 0x200 == 0
    && env.blacklist == Some(Lines.Unlines(Signatures.LinesOf(signatures, PAGE_SIZE)))
    && env.input.Some? && !env.input.value.device && env.input.value.data != ""
    && exists i :: 0 <= i < |signatures| && Signatures.Shown(env.input.value.data, signatures[i], PAGE_SIZE)
  }

  lemma InfectedIsRefused(c: SysCall, env: Env, signatures: seq<Signatures.Signature>)
    requires Signatures.GoodSignatures(signatures, PAGE_SIZE) && OpensInfected(c, env, signatures)
    ensures CheckForVirus(c.flags, env) < 0
  {
    VirusVerdict(signatures, env.input.value.data, c.flags, env.foreign);
    assert env == Env(env.blacklist, Some(Input(env.input.value.data, false)), env.foreign);
  }

  /** No session lets a task bound to the antivirus module open a regular file that shows one of the
      signatures of the blacklist, unless the open truncates it. */
  lemma SignaturesNeverOpened(w: World, t: seq<Target>, acts: seq<Action>, signatures: seq<Signatures.Signature>)
    requires HookedFrom(w, t) && Runs(w, acts) && w.log == [] && Signatures.GoodSignatures(signatures, PAGE_SIZE)
    ensures forall i :: 0 <= i < |Final(w, acts).log| ==>
              var x := Final(w, acts).log[i];
              !(x.bound.Some? && x.bound.value.addr.kind == 3 && OpensInfected(x.call, x.env, signatures))
  {
    InfectedNeverOpened(w, t, acts);
    var log := Final(w, acts).log;
    forall i | 0 <= i < |log| && OpensInfected(log[i].call, log[i].env, signatures)
      ensures CheckForVirus(log[i].call.flags, log[i].env) < 0
    {
      InfectedIsRefused(log[i].call, log[i].env, signatures);
    }
  }

  // ----- one task over a whole session

  predicate Disturbs(a: Action, pid: int) {
    a.Bind? && Touches(a.e, pid)
  }

  /** The entries of one task. */
  ghost function EntriesOf(log: seq<Entry>, pid: int): seq<Entry> {
    if log == [] then []
    else if log[0].pid == pid then [log[0]] + EntriesOf(log[1..], pid)
    else EntriesOf(log[1..], pid)
  }

  lemma EntriesOne(x: Entry, pid: int)
    ensures EntriesOf([x], pid) == if x.pid == pid then [x] else []
  {
    assert [x][1..] == [];
  }

  /** What one more call in a log adds to the entries of a task. */
  lemma {:induction false} EntriesSnoc(log: seq<Entry>, x: Entry, pid: int)
    ensures EntriesOf([], pid) == []
    ensures EntriesOf(log + [x], pid) == EntriesOf(log, pid) + if x.pid == pid then [x] else []
    decreases |log|
  {
    if log == [] {
      assert log + [x] == [x];
      EntriesOne(x, pid);
    } else {
      EntriesSnoc(log[1..], x, pid);
      assert (log + [x])[1..] == log[1..] + [x];
    }
  }

  /** The calls of one task that a fixed binding permits. */
  ghost function CallsUnder(acts: seq<Action>, pid: int, b: Option<Binding>, t: seq<Target>): seq<Entry>
    requires |t| >= TABLE_SIZE
  {
    if acts == [] then []
    else
      var rest := CallsUnder(acts[1..], pid, b, t);
      if acts[0].Call? && acts[0].pid == pid && Permitted(b, acts[0].c, acts[0].env) then
        NrInjective(HookOf(acts[0].c), HookOf(acts[0].c));
        [Entry(pid, acts[0].c, acts[0].env, b, t[Nr(HookOf(acts[0].c))])] + rest
      else rest
  }

  /** Whatever other tasks, modules and binding steps do in between, a task nobody disturbs has
      exactly those of its calls carried out that the binding it started with permits. */
  lemma {:induction false} UndisturbedTask(s: State, acts: seq<Action>, t: seq<Target>, pid: int)
    requires Possible(s, acts) && |t| >= TABLE_SIZE && pid in s.tasks
    requires forall i :: 0 <= i < |acts| ==> !Disturbs(acts[i], pid)
    ensures EntriesOf(Expected(s, acts, t), pid) == CallsUnder(acts, pid, s.tasks[pid], t)
    decreases |acts|
  {
    if acts != [] {
      var a, rest := acts[0], acts[1..];
      if a.Bind? {
        assert !Disturbs(a, pid);
        StepLeaves(s, a.e, pid);
      }
      UndisturbedTask(StateAfter(s, a), rest, t, pid);
      var tail := Expected(StateAfter(s, a), rest, t);
      if a.Call? && Expected(s, acts, t) != tail {
        assert Expected(s, acts, t)[1..] == tail;
      }
    }
  }

  /** The same for the log of a hooked world. */
  lemma UndisturbedEntries(w: World, t: seq<Target>, acts: seq<Action>, pid: int)
    requires HookedFrom(w, t) && Runs(w, acts) && w.log == [] && pid in w.state.tasks
    requires forall i :: 0 <= i < |acts| && acts[i].Bind? ==> !Touches(acts[i].e, pid)
    ensures EntriesOf(Final(w, acts).log, pid) == CallsUnder(acts, pid, w.state.tasks[pid], t)
  {
    SessionExact(w, t, acts);
    assert forall i :: 0 <= i < |acts| ==> !Disturbs(acts[i], pid);
    UndisturbedTask(w.state, acts, t, pid);
    assert [] + Expected(w.state, acts, t) == Expected(w.state, acts, t);
  }

  lemma {:induction false} SessionKeeps(s: State, acts: seq<Action>)
    requires Inv(s) && Possible(s, acts)
    ensures Inv(StateFinal(s, acts))
    decreases |acts|
  {
    if acts != [] {
      if acts[0].Bind? {
        StepKeeps(s, acts[0].e);
      }
      SessionKeeps(StateAfter(s, acts[0]), acts[1..]);
    }
  }

  /** From the state the driver is loaded in, calls and binding steps together keep the counts exact and
      every bound module registered, in every hooked world. */
  lemma SessionInv(w: World, t: seq<Target>, acts: seq<Action>)
    requires Init(w.state) && HookedFrom(w, t) && Runs(w, acts)
    ensures Inv(Final(w, acts).state)
  {
    InitInv(w.state);
    SessionExact(w, t, acts);
    SessionKeeps(w.state, acts);
  }
}
