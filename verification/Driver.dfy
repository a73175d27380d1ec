/** The code that changes bindings on the heap (`ioctl_device.c`, `new_exit_group`, `sys_clone2`),
    proved against the steps of the transition system. */
module Driver {
  import opened Wrappers
  import opened Registry
  import opened Bindings

  /** `new_sys_vector`, allocated for a bound task and owned by it. */
  class SysVector {
    var moduleAddr: ModuleReg
    var sv: bv32
    ghost const owner: Task

    constructor (addr: ModuleReg, sv: bv32, ghost owner: Task)
      ensures moduleAddr == addr && this.sv == sv && this.owner == owner
    {
      moduleAddr := addr;
      this.sv := sv;
      this.owner := owner;
    }
  }

  class Task {
    const pid: int
    var sysVector: SysVector?

    constructor (pid: int)
      ensures this.pid == pid && sysVector == null
    {
      this.pid := pid;
      sysVector := null;
    }

    /** The task's binding, if it has one, is its own. */
    ghost predicate Owns()
      reads this
    {
      sysVector != null ==> sysVector.owner == this
    }
  }

  ghost function BindingOf(task: Task): Option<Binding>
    reads task, task.sysVector
  {
    if task.sysVector == null then None else Some(Binding(task.sysVector.moduleAddr, task.sysVector.sv))
  }

  class System {
    const registry: List
    var tasks: map<int, Task>

    /** The list is well formed, tasks stand under their own numbers and own their bindings. */
    ghost predicate Valid()
      reads this, registry, registry.nodes, tasks.Values
    {
      registry.Valid() && forall pid <- tasks :: tasks[pid].pid == pid && tasks[pid].Owns()
    }

    /** The objects that bindings live in. */
    ghost function Vectors(): set<SysVector>
      reads this, tasks.Values
    {
      set pid | pid in tasks && tasks[pid].sysVector != null :: tasks[pid].sysVector
    }

    ghost predicate ModelsCounts(s: State)
      reads registry, registry.Modules()
    {
      && registry.Modules() == s.mods
      && (forall m <- s.refs :: m in s.mods)
      && (forall m <- s.mods :: m in s.refs && m.refs == s.refs[m])
    }

    ghost predicate ModelsTasks(s: State)
      reads this, tasks.Values, Vectors()
    {
      && (forall pid <- s.tasks :: pid in tasks)
      && (forall pid <- tasks :: pid in s.tasks && BindingOf(tasks[pid]) == s.tasks[pid])
    }

    /** The heap stands for the state `s` of the transition system. */
    ghost predicate Models(s: State)
      reads this, registry, registry.nodes, registry.Modules(), tasks.Values, Vectors()
    {
      Valid() && ModelsCounts(s) && ModelsTasks(s)
    }

    /** Every valid heap stands for one state. */
    ghost function Abs(): (s: State)
      requires Valid()
      reads this, registry, registry.nodes, registry.Modules(), tasks.Values, Vectors()
      ensures Models(s)
    {
      State(registry.Modules(), map m | m in registry.Modules() :: m.refs, map pid | pid in tasks :: BindingOf(tasks[pid]))
    }

    constructor (registry: List, tasks: map<int, Task>)
      requires registry.Valid()
      requires forall pid <- tasks :: tasks[pid].pid == pid && tasks[pid].Owns()
      ensures Valid() && this.registry == registry && this.tasks == tasks
    {
      this.registry := registry;
      this.tasks := tasks;
    }

    /** A heap with no module and no binding stands for an initial state of the transition system. */
    lemma StartsInit()
      requires Valid() && registry.Modules() == []
      requires forall pid <- tasks :: tasks[pid].sysVector == null
      ensures Models(Abs()) && Init(Abs())
    {
    }

    /** Count one binding more of a module. */
    method Increment(m: ModuleReg, ghost s: State)
      requires Models(s)
      modifies registry.Modules()
      ensures Models(Bindings.Increment(s, m))
    {
      registry.IncrementRc(m);
    }

    /** Count one binding less of a module. */
    method Decrement(m: ModuleReg, ghost s: State)
      requires Models(s)
      modifies registry.Modules()
      ensures Models(Bindings.Decrement(s, m))
    {
      assert m in s.mods ==> m.refs == Count(s, m);
      registry.DecrementRc(m);
    }

    /** Free a task's binding. */
    method Clear(pid: int, ghost s: State)
      requires Models(s) && pid in tasks
      modifies tasks[pid]
      ensures Models(Assign(s, pid, None))
    {
      tasks[pid].sysVector := null;
    }

    /** Allocate a binding for a task that has none. */
    method Allocate(pid: int, addr: ModuleReg, sv: bv32, ghost s: State)
      requires Models(s) && pid in tasks && tasks[pid].sysVector == null
      modifies tasks[pid]
      ensures Models(Assign(s, pid, Some(Binding(addr, sv))))
    {
      var v := new SysVector(addr, sv, tasks[pid]);
      tasks[pid].sysVector := v;
    }

    /** Overwrite a task's binding in place. */
    method Overwrite(pid: int, addr: ModuleReg, sv: bv32, ghost s: State)
      requires Models(s) && pid in tasks && tasks[pid].sysVector != null
      modifies tasks[pid].sysVector
      ensures Models(Assign(s, pid, Some(Binding(addr, sv))))
    {
      tasks[pid].sysVector.moduleAddr := addr;
      tasks[pid].sysVector.sv := sv;
    }

    /** Count a bound task's binding out and free it. */
    method GiveBack(pid: int, ghost s: State)
      requires Models(s) && pid in tasks && tasks[pid].sysVector != null
      modifies registry.Modules(), tasks[pid]
      ensures Models(Assign(Bindings.Decrement(s, s.tasks[pid].value.addr), pid, None))
    {
      ghost var counted := Bindings.Decrement(s, s.tasks[pid].value.addr);
      Decrement(tasks[pid].sysVector.moduleAddr, s);
      Clear(pid, counted);
    }

    /** Bind a task that has no binding. */
    method BindNew(pid: int, addr: ModuleReg, vector: bv32, ghost s: State)
      requires Models(s) && pid in tasks && tasks[pid].sysVector == null
      modifies registry.Modules(), tasks[pid]
      ensures Models(Assign(Bindings.Increment(s, addr), pid, Some(Binding(addr, vector))))
    {
      ghost var bound := Assign(s, pid, Some(Binding(addr, vector)));
      Allocate(pid, addr, vector, s);
      Increment(addr, bound);
    }

    /** Move a bound task to another module. */
    method Switch(pid: int, addr: ModuleReg, vector: bv32, ghost s: State)
      requires Models(s) && pid in tasks && tasks[pid].sysVector != null
      modifies registry.Modules(), tasks[pid].sysVector
      ensures Models(Assign(Bindings.Increment(Bindings.Decrement(s, s.tasks[pid].value.addr), addr), pid, Some(Binding(addr, vector))))
    {
      ghost var released := Bindings.Decrement(s, s.tasks[pid].value.addr);
      Decrement(tasks[pid].sysVector.moduleAddr, s);
      Increment(addr, released);
      Overwrite(pid, addr, vector, Bindings.Increment(released, addr));
    }

    /** Its branches for a module that is there. */
    method SetModule(pid: int, addr: ModuleReg, vector: bv32, ghost kind: int, ghost s: State)
      requires Models(s) && pid in tasks && vector != 0 && addr == Lookup(s.mods, kind)
      modifies registry.Modules(), tasks[pid], tasks[pid].sysVector
      ensures Models(SetVector(s, pid, vector, kind))
    {
      if tasks[pid].sysVector == null {
        BindNew(pid, addr, vector, s);
      } else if tasks[pid].sysVector.moduleAddr != addr {
        Switch(pid, addr, vector, s);
      } else {
        Overwrite(pid, addr, vector, s);
      }
    }

    /** `get_ioctl_helper`: clear, set or switch the binding of one task. */
    method GetIoctlHelper(pid: int, vector: bv32, kind: int, ghost s: State)
      requires Models(s)
      modifies registry.Modules(), tasks.Values, Vectors()
      ensures Models(SetVector(s, pid, vector, kind))
    {
      if vector == 0 {
        if pid !in tasks || tasks[pid].sysVector == null {
          return;
        }
        GiveBack(pid, s);
        return;
      }
      var addr := registry.GetModule(kind);
      if addr != null {
        if pid !in tasks {
          return;
        }
        SetModule(pid, addr, vector, kind, s);
      }
    }

    /** `new_exit_group` up to the original call. */
    method NewExitGroup(current: int, ghost s: State)
      requires Models(s) && current in tasks
      modifies registry.Modules(), tasks.Values
      ensures Models(Release(s, current))
    {
      if tasks[current].sysVector != null {
        GiveBack(current, s);
      }
    }

    /** Enter a new task in the table. */
    method AddTask(pid: int, task: Task, ghost s: State)
      requires Models(s) && pid !in tasks && task.pid == pid && task.Owns()
      modifies this
      ensures Models(Assign(s, pid, BindingOf(task))) && tasks == old(tasks)[pid := task]
    {
      tasks := tasks[pid := task];
    }

    /** A new task with its own copy of another task's binding, or with none. */
    static method CopyTask(parent: Task, child: int, default: bool) returns (task: Task)
      ensures fresh(task) && (task.sysVector != null ==> fresh(task.sysVector))
      ensures task.pid == child && task.Owns()
      ensures BindingOf(task) == if default then None else BindingOf(parent)
    {
      task := new Task(child);
      if !default && parent.sysVector != null {
        var copy := new SysVector(parent.sysVector.moduleAddr, parent.sysVector.sv, task);
        task.sysVector := copy;
      }
    }

    /** Enter a new task, and count the binding it comes with. */
    method Enroll(pid: int, task: Task, ghost s: State)
      requires Models(s) && pid !in tasks && task.pid == pid && task.Owns()
      modifies this, registry.Modules()
      ensures var b := BindingOf(task);
              Models(Assign(if b.Some? then Bindings.Increment(s, b.value.addr) else s, pid, b))
      ensures tasks == old(tasks)[pid := task] && BindingOf(task) == old(BindingOf(task))
    {
      ghost var counted := s;
      if task.sysVector != null {
        counted := Bindings.Increment(s, task.sysVector.moduleAddr);
        Increment(task.sysVector.moduleAddr, s);
      }
      AddTask(pid, task, counted);
    }

    /** The stated effect of the kernel's fork: a new task with its own copy of the binding, counted. */
    method DoFork(parent: int, child: int, default: bool, ghost s: State)
      requires Models(s) && parent in tasks && child !in tasks
      modifies this, registry.Modules()
      ensures Models(Inherit(s, parent, child, default))
      ensures child in tasks && tasks == old(tasks)[child := tasks[child]]
      ensures fresh(tasks[child]) && (tasks[child].sysVector != null ==> fresh(tasks[child].sysVector))
    {
      var task := CopyTask(tasks[parent], child, default);
      Enroll(child, task, s);
    }

    /** `sys_clone2`: fork, then set the binding of the process that the returned number names. */
    method SysClone2(parent: int, child: int, forked: bool, default: bool, vector: bv32, kind: int, ghost s: State)
      requires Models(s) && parent in tasks && child !in tasks
      modifies this, registry.Modules(), tasks.Values, Vectors()
      ensures Models(CloneThenSet(s, parent, child, forked, default, vector, kind))
    {
      if forked {
        DoFork(parent, child, default, s);
        GetIoctlHelper(child, vector, kind, Inherit(s, parent, child, default));
      } else {
        GetIoctlHelper(child, vector, kind, s);
      }
    }

    /** The registry's part of registering, and of unregistering. */
    method AddCounted(m: ModuleReg, ghost s: State)
      requires registry.Valid() && ModelsCounts(s) && m !in s.mods && m.refs == 0
      modifies registry, registry.nodes
      ensures registry.Valid() && ModelsCounts(Register(s, m))
    {
      registry.AddModule(m);
      assert forall x <- registry.Modules() :: x in s.mods || x == m;
    }

    method RemoveCounted(m: ModuleReg, ghost s: State)
      requires registry.Valid() && ModelsCounts(s)
      modifies registry, registry.nodes
      ensures registry.Valid() && ModelsCounts(Deregister(s, m))
    {
      registry.RemoveModule(m.kind);
    }

    /** `module_register`. */
    method ModuleRegister(m: ModuleReg, ghost s: State)
      requires Models(s) && m !in s.mods && m.refs == 0
      modifies registry, registry.nodes
      ensures Models(Register(s, m))
    {
      AddCounted(m, s);
    }

    /** `module_deregister`. */
    method ModuleDeregister(m: ModuleReg, ghost s: State)
      requires Models(s)
      modifies registry, registry.nodes
      ensures Models(Deregister(s, m))
    {
      RemoveCounted(m, s);
    }
  }
}
