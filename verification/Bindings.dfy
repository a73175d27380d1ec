/** The binding of tasks to modules as a transition system: registering, unregistering, setting,
    switching and clearing a binding, exit, fork and clone2.  Each step is one call of the code. */
module Bindings {
  import opened Wrappers
  import opened Registry

  /** `new_sys_vector`: the module a task is bound to and its bit map of allowed calls. */
  datatype Binding = Binding(addr: ModuleReg, sv: bv32)

  type Tasks = map<int, Option<Binding>>

  /** The registry in list order, the reference count of each module in it, and the binding of every task. */
  datatype State = State(mods: seq<ModuleReg>, refs: map<ModuleReg, nat>, tasks: Tasks)

  // ----- the steps

  function Count(s: State, m: ModuleReg): nat {
    if m in s.refs then s.refs[m] else 0
  }

  /** `increment_module_rc`: only a module in the registry is counted. */
  function Increment(s: State, m: ModuleReg): State {
    if m in s.mods then s.(refs := s.refs[m := Count(s, m) + 1]) else s
  }

  /** `decrement_module_rc`: guarded by a positive count. */
  function Decrement(s: State, m: ModuleReg): State {
    if m in s.mods && Count(s, m) > 0 then s.(refs := s.refs[m := Count(s, m) - 1]) else s
  }

  function Assign(s: State, pid: int, b: Option<Binding>): State {
    s.(tasks := s.tasks[pid := b])
  }

  /** `get_ioctl_helper`: vector 0 clears the binding, any other vector binds to the module of a kind. */
  function SetVector(s: State, pid: int, vector: bv32, kind: int): State {
    if vector == 0 then
      if pid !in s.tasks || s.tasks[pid].None? then s
      else Assign(Decrement(s, s.tasks[pid].value.addr), pid, None)
    else
      var addr := Lookup(s.mods, kind);
      if addr == null || pid !in s.tasks then s
      else
        var counted := match s.tasks[pid]
          case None => Increment(s, addr)
          case Some(b) => if b.addr != addr then Increment(Decrement(s, b.addr), addr) else s;
        Assign(counted, pid, Some(Binding(addr, vector)))
  }

  /** `new_exit_group` up to the original call: give the binding back. */
  function Release(s: State, pid: int): State {
    if pid in s.tasks && s.tasks[pid].Some? then Assign(Decrement(s, s.tasks[pid].value.addr), pid, None) else s
  }

  function Remove(s: State, pid: int): State {
    s.(tasks := s.tasks - {pid})
  }

  /** The stated effect of fork: the child has its own copy of the parent's binding, counted, or
      none when it is to start with the default vector. */
  function Inherit(s: State, parent: int, child: int, default: bool): State
    requires parent in s.tasks
  {
    if default || s.tasks[parent].None? then Assign(s, child, None)
    else Assign(Increment(s, s.tasks[parent].value.addr), child, s.tasks[parent])
  }

  /** `sys_clone2`: fork, then set the binding of whatever process the returned number names. */
  function CloneThenSet(s: State, parent: int, child: int, forked: bool, default: bool, vector: bv32, kind: int): State
    requires parent in s.tasks
  {
    SetVector(if forked then Inherit(s, parent, child, default) else s, child, vector, kind)
  }

  function Register(s: State, m: ModuleReg): State {
    s.(mods := s.mods + [m], refs := s.refs[m := 0])
  }

  /** `module_deregister`: `remove_module` takes out the first module of the kind. */
  function Deregister(s: State, m: ModuleReg): State {
    var mods := Without(s.mods, m.kind);
    s.(mods := mods, refs := map x | x in s.refs && x in mods :: s.refs[x])
  }

  // ----- events and runs

  datatype Event =
    | Load(m: ModuleReg)
    | Unload(m: ModuleReg)
    | Set(pid: int, vector: bv32, kind: int)
    | Exit(pid: int)
    | Fork(parent: int, child: int, default: bool)
    | Clone2(parent: int, child: int, forked: bool, default: bool, vector: bv32, kind: int)

  /** What the kernel guarantees before a step: a loaded module is new and of a new kind, only a
      module with count 0 is unloaded, callers are live, and children have new numbers. */
  ghost predicate Enabled(s: State, e: Event) {
    match e
    case Load(m) => m !in s.mods && forall x <- s.mods :: x.kind != m.kind
    case Unload(m) => m in s.mods && Count(s, m) == 0
    case Set(_, _, _) => true
    case Exit(pid) => pid in s.tasks
    case Fork(parent, child, _) => parent in s.tasks && child !in s.tasks
    case Clone2(parent, child, _, _, _, _) => parent in s.tasks && child !in s.tasks
  }

  function Step(s: State, e: Event): State
    requires e.Fork? || e.Clone2? ==> e.parent in s.tasks
  {
    match e
    case Load(m) => Register(s, m)
    case Unload(m) => Deregister(s, m)
    case Set(pid, vector, kind) => SetVector(s, pid, vector, kind)
    case Exit(pid) => Remove(Release(s, pid), pid)
    case Fork(parent, child, default) => Inherit(s, parent, child, default)
    case Clone2(parent, child, forked, default, vector, kind) =>
      CloneThenSet(s, parent, child, forked, default, vector, kind)
  }

  ghost predicate Runs(s: State, es: seq<Event>)
    decreases |es|
  {
    es == [] || (Enabled(s, es[0]) && Runs(Step(s, es[0]), es[1..]))
  }

  ghost function Final(s: State, es: seq<Event>): State
    requires Runs(s, es)
    decreases |es|
  {
    if es == [] then s else Final(Step(s, es[0]), es[1..])
  }

  lemma RunFrom(s: State, e: Event, es: seq<Event>)
    requires Enabled(s, e) && Runs(Step(s, e), es)
    ensures Runs(s, [e] + es) && Final(s, [e] + es) == Final(Step(s, e), es)
  {
    assert ([e] + es)[1..] == es;
  }

  // ----- the invariant

  ghost predicate BoundTo(tasks: Tasks, pid: int, m: ModuleReg) {
    pid in tasks && tasks[pid].Some? && tasks[pid].value.addr == m
  }

  /** The tasks bound to a module. */
  ghost function Bound(tasks: Tasks, m: ModuleReg): set<int> {
    set pid | pid in tasks && BoundTo(tasks, pid, m)
  }

  /** Kinds are unique, exactly the registered modules are counted, every count is at least the number of
      bound tasks, and every bound task has a registered module and a non-zero vector. */
  ghost predicate Sound(s: State) {
    && UniqueKinds(s.mods)
    && (forall m <- s.refs :: m in s.mods) && (forall m <- s.mods :: m in s.refs)
    && (forall m <- s.mods :: Count(s, m) >= |Bound(s.tasks, m)|)
    && (forall pid <- s.tasks :: s.tasks[pid].Some? ==> s.tasks[pid].value.addr in s.mods && s.tasks[pid].value.sv != 0)
  }

  /** The invariant: every count is exactly the number of bound tasks. */
  ghost predicate Inv(s: State) {
    Sound(s) && forall m <- s.mods :: Count(s, m) == |Bound(s.tasks, m)|
  }

  /** By how much the count of a module exceeds the number of tasks bound to it. */
  ghost function Excess(s: State, m: ModuleReg): int {
    if m in s.mods then Count(s, m) - |Bound(s.tasks, m)| else 0
  }

  ghost predicate KeepsExcess(s: State, t: State) {
    forall m <- s.mods + t.mods :: Excess(t, m) == Excess(s, m)
  }

  /** Nothing registered, nothing bound, any tasks. */
  ghost predicate Init(s: State) {
    s.mods == [] && s.refs == map[] && forall pid <- s.tasks :: s.tasks[pid].None?
  }

  /** One task's binding changes one module's set by one task. */
  lemma BoundAfterAssign(tasks: Tasks, pid: int, b: Option<Binding>, m: ModuleReg)
    ensures var before, after := Bound(tasks, m), Bound(tasks[pid := b], m);
            after == if b.Some? && b.value.addr == m then before + {pid} else before - {pid}
  {
  }

  lemma BoundAfterRemove(tasks: Tasks, pid: int, m: ModuleReg)
    ensures Bound(tasks - {pid}, m) == Bound(tasks, m) - {pid}
  {
  }

  /** In front of every decrement the count is positive: the guard never suppresses one. */
  lemma CountPositive(s: State, pid: int)
    requires Sound(s) && pid in s.tasks && s.tasks[pid].Some?
    ensures Count(s, s.tasks[pid].value.addr) > 0
  {
    var m := s.tasks[pid].value.addr;
    assert pid in Bound(s.tasks, m);
  }

  lemma ReleaseKeeps(s: State, pid: int)
    requires Sound(s)
    ensures var t := Release(s, pid); Sound(t) && KeepsExcess(s, t) && t.mods == s.mods && t.tasks.Keys == s.tasks.Keys
    ensures pid in s.tasks ==> Release(s, pid).tasks[pid] == None
  {
    if pid in s.tasks && s.tasks[pid].Some? {
      CountPositive(s, pid);
      var t := Release(s, pid);
      forall m <- t.mods ensures Excess(t, m) == Excess(s, m) {
        BoundAfterAssign(s.tasks, pid, None, m);
      }
    }
  }

  /** Giving an unbound or new task a binding to a registered module, counted. */
  lemma BindKeeps(s: State, pid: int, m: ModuleReg, sv: bv32)
    requires Sound(s) && m in s.mods && sv != 0
    requires pid in s.tasks ==> s.tasks[pid].None?
    ensures var t := Assign(Increment(s, m), pid, Some(Binding(m, sv))); Sound(t) && KeepsExcess(s, t) && t.mods == s.mods
  {
    var t := Assign(Increment(s, m), pid, Some(Binding(m, sv)));
    forall x <- t.mods ensures Excess(t, x) == Excess(s, x) {
      BoundAfterAssign(s.tasks, pid, Some(Binding(m, sv)), x);
    }
  }

  lemma UnboundKeeps(s: State, pid: int)
    requires Sound(s) && (pid in s.tasks ==> s.tasks[pid].None?)
    ensures var t := Assign(s, pid, None); Sound(t) && KeepsExcess(s, t) && t.mods == s.mods
  {
    var t := Assign(s, pid, None);
    forall x <- t.mods ensures Excess(t, x) == Excess(s, x) {
      BoundAfterAssign(s.tasks, pid, None, x);
    }
  }

  /** Switching is giving back and binding anew. */
  lemma SetIsReleaseThenBind(s: State, pid: int, vector: bv32, kind: int)
    requires Sound(s) && pid in s.tasks && vector != 0 && Lookup(s.mods, kind) != null
    ensures var m := Lookup(s.mods, kind);
            SetVector(s, pid, vector, kind) == Assign(Increment(Release(s, pid), m), pid, Some(Binding(m, vector)))
  {
    var m := Lookup(s.mods, kind);
    var r := Release(s, pid);
    if s.tasks[pid].Some? {
      CountPositive(s, pid);
      if s.tasks[pid].value.addr == m {
        assert Increment(r, m).refs == s.refs;
      }
    }
    assert Increment(r, m).tasks[pid := Some(Binding(m, vector))] == s.tasks[pid := Some(Binding(m, vector))];
  }

  lemma SetKeeps(s: State, pid: int, vector: bv32, kind: int)
    requires Sound(s)
    ensures var t := SetVector(s, pid, vector, kind); Sound(t) && KeepsExcess(s, t) && t.mods == s.mods
  {
    ReleaseKeeps(s, pid);
    if vector != 0 && pid in s.tasks && Lookup(s.mods, kind) != null {
      SetIsReleaseThenBind(s, pid, vector, kind);
      BindKeeps(Release(s, pid), pid, Lookup(s.mods, kind), vector);
    }
  }

  lemma InheritKeeps(s: State, parent: int, child: int, default: bool)
    requires Sound(s) && parent in s.tasks && child !in s.tasks
    ensures var t := Inherit(s, parent, child, default); Sound(t) && KeepsExcess(s, t) && t.mods == s.mods
  {
    if default || s.tasks[parent].None? {
      UnboundKeeps(s, child);
    } else {
      var b := s.tasks[parent].value;
      BindKeeps(s, child, b.addr, b.sv);
    }
  }

  /** A task goes: without its binding given back, one count of its module has no task any more. */
  lemma RemoveKeeps(s: State, pid: int)
    requires Sound(s) && pid in s.tasks
    ensures var t := Remove(s, pid);
            && Sound(t) && t.mods == s.mods
            && forall m <- t.mods :: Excess(t, m) == Excess(s, m) + (if BoundTo(s.tasks, pid, m) then 1 else 0)
  {
    var t := Remove(s, pid);
    forall m <- t.mods ensures Excess(t, m) == Excess(s, m) + (if BoundTo(s.tasks, pid, m) then 1 else 0) {
      BoundAfterRemove(s.tasks, pid, m);
      assert pid in Bound(s.tasks, m) <==> BoundTo(s.tasks, pid, m);
    }
  }

  lemma LoadKeeps(s: State, m: ModuleReg)
    requires Sound(s) && Enabled(s, Load(m))
    ensures var t := Register(s, m); Sound(t) && KeepsExcess(s, t)
  {
    var t := Register(s, m);
    assert Bound(s.tasks, m) == {} by {
      assert forall pid <- s.tasks :: !BoundTo(s.tasks, pid, m);
    }
  }

  lemma UnloadKeeps(s: State, m: ModuleReg)
    requires Sound(s) && Enabled(s, Unload(m))
    ensures var t := Deregister(s, m); Sound(t) && KeepsExcess(s, t)
  {
    WithoutIs(s.mods, m);
    var t := Deregister(s, m);
    forall pid <- t.tasks | t.tasks[pid].Some? ensures t.tasks[pid].value.addr in t.mods {
      CountPositive(s, pid);
    }
  }

  /** Every step of the system keeps counts, modules and bindings sound, and the excess of every count. */
  lemma StepKeepsSound(s: State, e: Event)
    requires Sound(s) && Enabled(s, e)
    ensures Sound(Step(s, e)) && KeepsExcess(s, Step(s, e))
  {
    match e
    case Load(m) => LoadKeeps(s, m);
    case Unload(m) => UnloadKeeps(s, m);
    case Set(pid, vector, kind) => SetKeeps(s, pid, vector, kind);
    case Exit(pid) =>
      ReleaseKeeps(s, pid);
      RemoveKeeps(Release(s, pid), pid);
    case Fork(parent, child, default) => InheritKeeps(s, parent, child, default);
    case Clone2(parent, child, forked, default, vector, kind) =>
      if forked {
        InheritKeeps(s, parent, child, default);
      }
      SetKeeps(if forked then Inherit(s, parent, child, default) else s, child, vector, kind);
  }

  /** Every step of the system keeps the invariant. */
  lemma StepKeeps(s: State, e: Event)
    requires Inv(s) && Enabled(s, e)
    ensures Inv(Step(s, e))
  {
    StepKeepsSound(s, e);
    var t := Step(s, e);
    forall m <- t.mods ensures Count(t, m) == |Bound(t.tasks, m)| {
      assert Excess(t, m) == Excess(s, m) == 0;
    }
  }

  lemma {:induction false} RunKeeps(s: State, es: seq<Event>)
    requires Inv(s) && Runs(s, es)
    ensures Inv(Final(s, es))
    decreases |es|
  {
    if es != [] {
      StepKeeps(s, es[0]);
      RunKeeps(Step(s, es[0]), es[1..]);
    }
  }

  /** The state the driver is loaded in meets the invariant. */
  lemma InitInv(s: State)
    requires Init(s)
    ensures Inv(s)
  {
  }

  /** In every reachable state each registered module's count is the number of tasks bound to it,
      and every bound task's module is still registered. */
  lemma ReachableInv(s: State, es: seq<Event>)
    requires Init(s) && Runs(s, es)
    ensures var t := Final(s, es);
            && Inv(t)
            && (forall i, j :: 0 <= i < j < |t.mods| ==> t.mods[i].kind != t.mods[j].kind)
            && (forall m <- t.mods ::
                  m in t.refs && t.refs[m] == |set pid | pid in t.tasks && t.tasks[pid].Some? && t.tasks[pid].value.addr == m|)
            && (forall pid <- t.tasks :: t.tasks[pid].Some? ==> t.tasks[pid].value.addr in t.mods && t.tasks[pid].value.sv != 0)
  {
    InitInv(s);
    RunKeeps(s, es);
    var t := Final(s, es);
    forall m <- t.mods ensures t.refs[m] == |set pid | pid in t.tasks && t.tasks[pid].Some? && t.tasks[pid].value.addr == m| {
      assert (set pid | pid in t.tasks && t.tasks[pid].Some? && t.tasks[pid].value.addr == m) == Bound(t.tasks, m);
      assert Count(t, m) == t.refs[m];
    }
  }

  // ----- what runs promise about one task

  /** The step sets, ends or creates this task. */
  predicate Touches(e: Event, pid: int) {
    match e
    case Set(p, _, _) => p == pid
    case Exit(p) => p == pid
    case Fork(_, child, _) => child == pid
    case Clone2(_, child, _, _, _, _) => child == pid
    case _ => false
  }

  lemma StepLeaves(s: State, e: Event, pid: int)
    requires Enabled(s, e) && !Touches(e, pid) && pid in s.tasks
    ensures pid in Step(s, e).tasks && Step(s, e).tasks[pid] == s.tasks[pid]
  {
    match e
    case Set(p, vector, kind) => SetLeaves(s, p, vector, kind, pid);
    case Clone2(parent, child, forked, default, vector, kind) =>
      SetLeaves(if forked then Inherit(s, parent, child, default) else s, child, vector, kind, pid);
    case _ =>
  }

  lemma SetLeaves(s: State, p: int, vector: bv32, kind: int, pid: int)
    requires p != pid && pid in s.tasks
    ensures var t := SetVector(s, p, vector, kind); pid in t.tasks && t.tasks[pid] == s.tasks[pid]
  {
  }

  /** Whatever other tasks and modules do, a task nobody touches keeps its binding, and the module
      it is bound to stays registered with a positive count. */
  lemma {:induction false} BindingPersists(s: State, es: seq<Event>, pid: int)
    requires Inv(s) && Runs(s, es) && pid in s.tasks
    requires forall i :: 0 <= i < |es| ==>
               match es[i]
               case Set(p, _, _) => p != pid
               case Exit(p) => p != pid
               case Fork(_, child, _) => child != pid
               case Clone2(_, child, _, _, _, _) => child != pid
               case Load(_) => true
               case Unload(_) => true
    ensures var t := Final(s, es);
            && pid in t.tasks && t.tasks[pid] == s.tasks[pid]
            && (t.tasks[pid].Some? ==> t.tasks[pid].value.addr in t.mods && Count(t, t.tasks[pid].value.addr) > 0)
    decreases |es|
  {
    if es == [] {
      if s.tasks[pid].Some? {
        CountPositive(s, pid);
      }
    } else {
      StepLeaves(s, es[0], pid);
      StepKeeps(s, es[0]);
      var next := Step(s, es[0]);
      BindingPersists(next, es[1..], pid);
    }
  }

  /** Two states that meet the invariant and differ in one task differ in the counts of that task's modules. */
  lemma CountsFollow(s: State, t: State, pid: int, b: Option<Binding>)
    requires Inv(s) && Inv(t) && t.mods == s.mods && t.tasks == s.tasks[pid := b]
    ensures forall m <- t.mods ::
              && m in s.refs && m in t.refs
              && t.refs[m] + (if BoundTo(s.tasks, pid, m) then 1 else 0) == s.refs[m] + (if b.Some? && b.value.addr == m then 1 else 0)
  {
    forall m <- t.mods
      ensures Count(t, m) + (if BoundTo(s.tasks, pid, m) then 1 else 0) == Count(s, m) + (if b.Some? && b.value.addr == m then 1 else 0)
    {
      BoundAfterAssign(s.tasks, pid, b, m);
      assert pid in Bound(s.tasks, m) <==> BoundTo(s.tasks, pid, m);
    }
  }

  /** What a set does, with `i` the index of the first module of the kind: vector 0 clears the binding, any
      other binds to that module, and without one, or for an unknown task, nothing changes. */
  lemma SetTasks(s: State, pid: int, vector: bv32, kind: int, i: nat)
    requires i <= |s.mods| && (i < |s.mods| ==> s.mods[i].kind == kind) && forall j :: 0 <= j < i ==> s.mods[j].kind != kind
    ensures var t := SetVector(s, pid, vector, kind);
            if pid !in s.tasks || (vector != 0 && i == |s.mods|) then t == s
            else t.mods == s.mods && t.tasks == s.tasks[pid := if vector == 0 then None else Some(Binding(s.mods[i], vector))]
  {
    FirstAt(s.mods, kind, i);
    if pid in s.tasks {
      assert s.tasks[pid := s.tasks[pid]] == s.tasks;
    }
  }

  /** The same with the counts: the module the task leaves has one less, the one it is bound to has one more,
      and no other count changes. */
  lemma SetOutcome(s: State, pid: int, vector: bv32, kind: int, i: nat)
    requires i <= |s.mods| && (i < |s.mods| ==> s.mods[i].kind == kind) && forall j :: 0 <= j < i ==> s.mods[j].kind != kind
    ensures var t := SetVector(s, pid, vector, kind);
            if pid !in s.tasks || (vector != 0 && i == |s.mods|) then t == s
            else
              var b := if vector == 0 then None else Some(Binding(s.mods[i], vector));
              && t.mods == s.mods && t.tasks == s.tasks[pid := b]
              && (Inv(s) ==> forall m <- t.mods ::
                    && m in s.refs && m in t.refs
                    && t.refs[m] + (if s.tasks[pid].Some? && s.tasks[pid].value.addr == m then 1 else 0)
                       == s.refs[m] + (if b.Some? && b.value.addr == m then 1 else 0))
  {
    SetTasks(s, pid, vector, kind, i);
    if Inv(s) && pid in s.tasks && (vector != 0 ==> i < |s.mods|) {
      StepKeeps(s, Set(pid, vector, kind));
      CountsFollow(s, SetVector(s, pid, vector, kind), pid, if vector == 0 then None else Some(Binding(s.mods[i], vector)));
    }
  }

  /** A clone whose fork fails changes nothing. */
  lemma FailedCloneChangesNothing(s: State, parent: int, child: int, default: bool, vector: bv32, kind: int)
    requires parent in s.tasks && child !in s.tasks
    ensures CloneThenSet(s, parent, child, false, default, vector, kind) == s
  {
  }

  lemma CloneTasks(s: State, parent: int, child: int, default: bool, vector: bv32, kind: int, i: nat)
    requires parent in s.tasks && child !in s.tasks
    requires i <= |s.mods| && (i < |s.mods| ==> s.mods[i].kind == kind) && forall j :: 0 <= j < i ==> s.mods[j].kind != kind
    ensures var t := CloneThenSet(s, parent, child, true, default, vector, kind);
            var b := if vector == 0 then None
                     else if i < |s.mods| then Some(Binding(s.mods[i], vector))
                     else if default then None else s.tasks[parent];
            t.tasks == s.tasks[child := b] && t.mods == s.mods
  {
    var f := Inherit(s, parent, child, default);
    var inherited := if default then None else s.tasks[parent];
    assert f.tasks == s.tasks[child := inherited] && f.mods == s.mods;
    SetTasks(f, child, vector, kind, i);
    var b := SetVector(f, child, vector, kind).tasks[child];
    assert f.tasks[child := b] == s.tasks[child := b];
  }

  /** clone2 ends with the requested binding, with none for vector 0, and with the inherited one when no module
      is of the kind; no other task changes, and only the module the child ends up with gains a count.  When the
      fork fails, the set that follows it changes nothing. */
  lemma Clone2Outcome(s: State, parent: int, child: int, forked: bool, default: bool, vector: bv32, kind: int, i: nat)
    requires Inv(s) && parent in s.tasks && child !in s.tasks
    requires i <= |s.mods| && (i < |s.mods| ==> s.mods[i].kind == kind) && forall j :: 0 <= j < i ==> s.mods[j].kind != kind
    ensures var t := CloneThenSet(s, parent, child, forked, default, vector, kind);
            if !forked then t == s
            else
              var b := if vector == 0 then None
                       else if i < |s.mods| then Some(Binding(s.mods[i], vector))
                       else if default then None else s.tasks[parent];
              && t.tasks == s.tasks[child := b] && t.mods == s.mods
              && forall m <- t.mods ::
                   m in s.refs && m in t.refs && t.refs[m] == s.refs[m] + (if b.Some? && b.value.addr == m then 1 else 0)
  {
    if forked {
      var t := CloneThenSet(s, parent, child, true, default, vector, kind);
      CloneTasks(s, parent, child, default, vector, kind, i);
      StepKeeps(s, Clone2(parent, child, true, default, vector, kind));
      CountsFollow(s, t, child, t.tasks[child]);
    } else {
      FailedCloneChangesNothing(s, parent, child, default, vector, kind);
    }
  }

  // ----- what the assumptions are needed for

  /** A task that ends other than through exit_group never gives its binding back: the counts stay
      exact exactly when it had none. */
  lemma EndWithoutExitGroup(s: State, pid: int)
    requires Inv(s) && pid in s.tasks
    ensures Inv(Remove(s, pid)) <==> s.tasks[pid].None?
  {
    RemoveKeeps(s, pid);
    if s.tasks[pid].Some? {
      var m := s.tasks[pid].value.addr;
      assert BoundTo(s.tasks, pid, m) && Excess(Remove(s, pid), m) == 1;
    }
  }

  /** What happens when tasks can also end without exit_group, by a signal or a plain exit. */
  datatype Happening = Ordinary(e: Event) | End(pid: int)

  ghost predicate CanHappen(s: State, h: Happening) {
    match h
    case Ordinary(e) => Enabled(s, e)
    case End(pid) => pid in s.tasks
  }

  ghost function Happen(s: State, h: Happening): State
    requires CanHappen(s, h)
  {
    match h
    case Ordinary(e) => Step(s, e)
    case End(pid) => Remove(s, pid)
  }

  ghost predicate CanGo(s: State, hs: seq<Happening>)
    decreases |hs|
  {
    hs == [] || (CanHappen(s, hs[0]) && CanGo(Happen(s, hs[0]), hs[1..]))
  }

  ghost function Outcome(s: State, hs: seq<Happening>): State
    requires CanGo(s, hs)
    decreases |hs|
  {
    if hs == [] then s else Outcome(Happen(s, hs[0]), hs[1..])
  }

  /** How many tasks bound to a module end without exit_group in a run. */
  ghost function Leaks(s: State, hs: seq<Happening>, m: ModuleReg): nat
    requires CanGo(s, hs)
    decreases |hs|
  {
    if hs == [] then 0
    else (if hs[0].End? && BoundTo(s.tasks, hs[0].pid, m) then 1 else 0) + Leaks(Happen(s, hs[0]), hs[1..], m)
  }

  lemma HappenKeeps(s: State, h: Happening, m: ModuleReg)
    requires Sound(s) && CanHappen(s, h)
    ensures Sound(Happen(s, h))
    ensures Excess(Happen(s, h), m) == Excess(s, m) + (if h.End? && BoundTo(s.tasks, h.pid, m) then 1 else 0)
  {
    var t := Happen(s, h);
    match h
    case Ordinary(e) =>
      StepKeepsSound(s, e);
      assert m in s.mods || m in t.mods ==> m in s.mods + t.mods;
    case End(pid) =>
      RemoveKeeps(s, pid);
  }

  /** Over every run, tasks that end without exit_group included, each count exceeds the number of bound
      tasks by exactly the number of its tasks that ended so, and every bound task's module is registered. */
  lemma {:induction false} LeakExact(s: State, hs: seq<Happening>, m: ModuleReg)
    requires Sound(s) && CanGo(s, hs)
    ensures Sound(Outcome(s, hs))
    ensures Excess(Outcome(s, hs), m) == Excess(s, m) + Leaks(s, hs, m)
    decreases |hs|
  {
    if hs != [] {
      HappenKeeps(s, hs[0], m);
      LeakExact(Happen(s, hs[0]), hs[1..], m);
    }
  }

  /** So from the state the driver is loaded in a count is never too small, and a module with one such task
      can never be unloaded again. */
  lemma LeakedStaysLoaded(s: State, hs: seq<Happening>, m: ModuleReg)
    requires Init(s) && CanGo(s, hs)
    ensures var t := Outcome(s, hs);
            && Sound(t) && (m in t.mods ==> Count(t, m) == |Bound(t.tasks, m)| + Leaks(s, hs, m))
            && (Leaks(s, hs, m) > 0 ==> m in t.mods && !Enabled(t, Unload(m)))
  {
    InitInv(s);
    LeakExact(s, hs, m);
  }

  lemma GoFrom(s: State, h: Happening, hs: seq<Happening>, m: ModuleReg)
    requires CanHappen(s, h) && CanGo(Happen(s, h), hs)
    ensures CanGo(s, [h] + hs) && Outcome(s, [h] + hs) == Outcome(Happen(s, h), hs)
    ensures Leaks(s, [h] + hs, m) == (if h.End? && BoundTo(s.tasks, h.pid, m) then 1 else 0) + Leaks(Happen(s, h), hs, m)
  {
    assert ([h] + hs)[1..] == hs;
  }

  /** A run in which that happens: a module is loaded, task 1 is bound to it and ends by a signal. */
  lemma LeakHappens(s: State, m: ModuleReg) returns (hs: seq<Happening>)
    requires s == State([], map[], map[1 := None])
    ensures Init(s) && CanGo(s, hs) && Leaks(s, hs, m) == 1
    ensures Outcome(s, hs) == State([m], map[m := 1], map[])
  {
    var loaded, bound := Register(s, m), SetVector(Register(s, m), 1, 1, m.kind);
    FirstOfKindIs([m], m.kind, 0);
    assert loaded == State([m], map[m := 0], map[1 := None]);
    assert bound == State([m], map[m := 1], map[1 := Some(Binding(m, 1))]);
    var ended := Remove(bound, 1);
    assert ended == State([m], map[m := 1], map[]);
    GoFrom(bound, End(1), [], m);
    GoFrom(loaded, Ordinary(Set(1, 1, m.kind)), [End(1)] + [], m);
    GoFrom(s, Ordinary(Load(m)), [Ordinary(Set(1, 1, m.kind))] + ([End(1)] + []), m);
    hs := [Ordinary(Load(m))] + ([Ordinary(Set(1, 1, m.kind))] + ([End(1)] + []));
  }

  ghost predicate AllBoundRegistered(s: State) {
    forall pid <- s.tasks :: s.tasks[pid].Some? ==> s.tasks[pid].value.addr in s.mods
  }

  /** Unloading a module nobody is bound to, kinds unique or not: it leaves every bound task with a
      registered module exactly when nobody is bound to the first module of its kind, the one that
      removal by kind really takes out. */
  lemma UnloadSafeIff(s: State, m: ModuleReg)
    requires m in s.mods && AllBoundRegistered(s)
    requires forall i, j :: 0 <= i < j < |s.mods| ==> s.mods[i] != s.mods[j]
    ensures AllBoundRegistered(Deregister(s, m)) <==> Bound(s.tasks, Lookup(s.mods, m.kind)) == {}
  {
    var i := FirstOfKind(s.mods, m.kind);
    assert i < |s.mods| by {
      var j :| 0 <= j < |s.mods| && s.mods[j] == m;
    }
    var first, rest := s.mods[i], Without(s.mods, m.kind);
    assert first !in rest;
    forall pid <- s.tasks | s.tasks[pid].Some?
      ensures s.tasks[pid].value.addr in rest <==> s.tasks[pid].value.addr != first
    {
      var j :| 0 <= j < |s.mods| && s.mods[j] == s.tasks[pid].value.addr;
      assert j != i ==> s.mods[j] == rest[if j < i then j else j - 1];
    }
    forall pid <- s.tasks ensures pid in Bound(s.tasks, first) <==> BoundTo(s.tasks, pid, first) {
    }
  }

  /** With two modules of one kind, unloading the unused one leaves a task bound to a module that is gone. */
  lemma DuplicateKindDangles(a: ModuleReg, b: ModuleReg)
    requires a != b && a.kind == b.kind
    ensures var s := State([a, b], map[a := 1, b := 0], map[1 := Some(Binding(a, 1))]);
            && AllBoundRegistered(s) && Bound(s.tasks, b) == {} && Count(s, b) == 0
            && !AllBoundRegistered(Deregister(s, b))
  {
    var s := State([a, b], map[a := 1, b := 0], map[1 := Some(Binding(a, 1))]);
    assert FirstOfKind(s.mods, b.kind) == 0;
    assert Deregister(s, b).mods == [b];
    assert 1 in s.tasks;
  }
}
