/** The report of the GET command (`get_vector`): every module, its count, and the tasks bound to it. */
module Report {
  import opened Wrappers
  import opened Registry
  import opened Bindings
  import opened Driver
  import Format

  // ----- the report as data

  datatype Line = Line(pid: int, sv: bv32)

  datatype Section = Section(kind: int, refs: nat, lines: seq<Line>)

  /** `order` names live tasks only. */
  predicate Listed(order: seq<int>, tasks: Tasks) {
    forall i :: 0 <= i < |order| ==> order[i] in tasks
  }

  predicate IsBoundTo(b: Option<Binding>, kind: int) {
    b.Some? && b.value.addr.kind == kind
  }

  /** The lines of one section for the first `n` tasks of `order`: those bound to a module of a kind. */
  function Lines(tasks: Tasks, order: seq<int>, n: nat, kind: int): seq<Line>
    requires Listed(order, tasks) && n <= |order|
  {
    if n == 0 then []
    else
      var before, pid := Lines(tasks, order, n - 1, kind), order[n - 1];
      if IsBoundTo(tasks[pid], kind) then before + [Line(pid, tasks[pid].value.sv)] else before
  }

  function SectionOf(s: State, order: seq<int>, m: ModuleReg): Section
    requires Listed(order, s.tasks)
  {
    Section(m.kind, Count(s, m), Lines(s.tasks, order, |order|, m.kind))
  }

  // ----- its text

  /** The `%d` of a vector, which the code holds in an int. */
  function Signed(sv: bv32): int {
    if sv as int < 0x8000_0000 then sv as int else sv as int - 0x1_0000_0000
  }

  function LineText(l: Line): string {
    "PID:" + Format.Decimal(l.pid) + "," + "Vector:" + Format.Decimal(Signed(l.sv)) + "\n"
  }

  function LinesText(lines: seq<Line>): string {
    if lines == [] then "" else LinesText(lines[..|lines| - 1]) + LineText(lines[|lines| - 1])
  }

  function HeadText(kind: int, refs: nat): string {
    "Module:" + Format.Decimal(kind) + "\n" + "RC_Count:" + Format.Decimal(refs) + "\n"
  }

  function SectionText(x: Section): string {
    HeadText(x.kind, x.refs) + LinesText(x.lines)
  }

  /** The text of the sections of the first `n` modules of the registry. */
  function Text(s: State, order: seq<int>, n: nat): string
    requires Listed(order, s.tasks) && n <= |s.mods|
  {
    if n == 0 then "" else Text(s, order, n - 1) + SectionText(SectionOf(s, order, s.mods[n - 1]))
  }

  lemma LineAppended(lines: seq<Line>, l: Line)
    ensures LinesText(lines + [l]) == LinesText(lines) + LineText(l)
  {
    assert (lines + [l])[..|lines|] == lines;
  }

  lemma Associate(a: string, b: string, c: string)
    ensures a + b + c == a + (b + c) && a + b + "" == a + b
  {
  }

  // ----- the walk

  /** The body of the inner loop: append the line of one task if it is bound to a module of the kind. */
  method ReportTask(before: string, task: Task, pid: int, kind: int, ghost head: string, ghost lines: seq<Line>)
    returns (after: string, ghost more: seq<Line>)
    requires before == head + LinesText(lines)
    ensures var b := BindingOf(task); more == if IsBoundTo(b, kind) then lines + [Line(pid, b.value.sv)] else lines
    ensures after == head + LinesText(more)
  {
    after, more := before, lines;
    if task.sysVector != null {
      if task.sysVector.moduleAddr.kind == kind {
        ghost var l := Line(pid, task.sysVector.sv);
        LineAppended(lines, l);
        Associate(head, LinesText(lines), LineText(l));
        after, more := before + LineText(Line(pid, task.sysVector.sv)), lines + [l];
      }
    }
  }

  /** The inner loop: append one line for every listed task bound to a module of the kind. */
  method ReportTasks(before: string, tasks: map<int, Task>, order: seq<int>, kind: int, ghost bound: Tasks, ghost head: string)
    returns (report: string)
    requires forall pid <- bound :: pid in tasks && BindingOf(tasks[pid]) == bound[pid]
    requires Listed(order, bound) && before == head + LinesText([])
    ensures report == head + LinesText(Lines(bound, order, |order|, kind))
  {
    report := before;
    ghost var lines: seq<Line> := [];
    for i := 0 to |order|
      invariant report == head + LinesText(lines) && lines == Lines(bound, order, i, kind)
    {
      var pid := order[i];
      assert pid in bound;
      report, lines := ReportTask(report, tasks[pid], pid, kind, head, lines);
    }
  }

  /** One turn of the outer loop: append the section of one module. */
  method ReportModule(before: string, sys: System, node: Node, order: seq<int>, ghost s: State) returns (report: string)
    requires sys.Models(s) && Listed(order, s.tasks) && node.reg in s.mods
    ensures report == before + SectionText(SectionOf(s, order, node.reg))
  {
    var headed := before + HeadText(node.reg.kind, node.reg.refs);
    Associate(before, HeadText(node.reg.kind, node.reg.refs), "");
    report := ReportTasks(headed, sys.tasks, order, node.reg.kind, s.tasks, headed);
    Associate(before, HeadText(node.reg.kind, node.reg.refs), LinesText(Lines(s.tasks, order, |order|, node.reg.kind)));
  }

  /** `get_vector` into an empty buffer; `order` is the order of `for_each_process`. */
  method GetVector(sys: System, order: seq<int>, ghost s: State) returns (report: string)
    requires sys.Models(s) && Listed(order, s.tasks)
    ensures report == Text(s, order, |s.mods|)
  {
    report := "";
    var it := sys.registry.head;
    ghost var i: nat, nodes := 0, sys.registry.nodes;
    assert |s.mods| == |nodes| && forall k :: 0 <= k < |nodes| ==> s.mods[k] == nodes[k].reg;
    while it != null
      invariant i <= |nodes| && it == if i < |nodes| then nodes[i] else null
      invariant report == Text(s, order, i)
      decreases |nodes| - i
    {
      assert s.mods[i] == it.reg;
      report := ReportModule(report, sys, it, order, s);
      it := it.next;
      i := i + 1;
    }
  }

  // ----- what the report says in reachable states

  ghost predicate Distinct(order: seq<int>) {
    forall i, j :: 0 <= i < j < |order| ==> order[i] != order[j]
  }

  /** The walk lists live tasks, each at most once.  It need not list them all: `for_each_process` goes
      through the leaders of thread groups only, and a thread has a binding of its own. */
  ghost predicate Walks(order: seq<int>, tasks: Tasks) {
    Listed(order, tasks) && Distinct(order)
  }

  ghost predicate Reports(lines: seq<Line>, pid: int) {
    exists i :: 0 <= i < |lines| && lines[i].pid == pid
  }

  ghost predicate DistinctPids(lines: seq<Line>) {
    forall i, j :: 0 <= i < j < |lines| ==> lines[i].pid != lines[j].pid
  }

  ghost predicate LineOf(tasks: Tasks, kind: int, l: Line) {
    l.pid in tasks && IsBoundTo(tasks[l.pid], kind) && tasks[l.pid].value.sv == l.sv
  }

  /** The first `n` listed tasks that are bound to a module of a kind: each has a line, with its own
      vector, and no line repeats a task. */
  lemma {:induction false} LinesAre(tasks: Tasks, order: seq<int>, n: nat, kind: int)
    requires Listed(order, tasks) && Distinct(order) && n <= |order|
    ensures var lines := Lines(tasks, order, n, kind);
            && DistinctPids(lines)
            && (forall i :: 0 <= i < |lines| ==> lines[i].pid in order[..n] && LineOf(tasks, kind, lines[i]))
            && (forall k :: 0 <= k < n && IsBoundTo(tasks[order[k]], kind) ==> Reports(lines, order[k]))
    decreases n
  {
    if n > 0 {
      LinesAre(tasks, order, n - 1, kind);
      var before, lines, pid := Lines(tasks, order, n - 1, kind), Lines(tasks, order, n, kind), order[n - 1];
      assert order[..n] == order[..n - 1] + [pid] && pid !in order[..n - 1];
      forall k | 0 <= k < n && IsBoundTo(tasks[order[k]], kind) ensures Reports(lines, order[k]) {
        if k < n - 1 {
          assert Reports(before, order[k]);
          var i :| 0 <= i < |before| && before[i].pid == order[k];
          assert lines[i].pid == order[k];
        } else {
          assert lines[|before|].pid == order[k];
        }
      }
    }
  }

  /** The lines stand in the order of the walk. */
  lemma {:induction false} LinesInOrder(tasks: Tasks, order: seq<int>, n: nat, kind: int)
    requires Listed(order, tasks) && Distinct(order) && n <= |order|
    ensures var lines := Lines(tasks, order, n, kind);
            forall i, j, a, b | 0 <= i < j < |lines| && 0 <= a < |order| && 0 <= b < |order| ::
              order[a] == lines[i].pid && order[b] == lines[j].pid ==> a < b
    decreases n
  {
    if n > 0 {
      LinesInOrder(tasks, order, n - 1, kind);
      LinesAre(tasks, order, n - 1, kind);
      var before, lines := Lines(tasks, order, n - 1, kind), Lines(tasks, order, n, kind);
      forall i, a | 0 <= i < |before| && 0 <= a < |order| && order[a] == before[i].pid ensures a < n - 1 {
        var k :| 0 <= k < n - 1 && order[k] == before[i].pid;
      }
    }
  }

  /** Distinct lines that report exactly a set of tasks are as many as the set has members. */
  lemma {:induction false} LineCount(lines: seq<Line>, pids: set<int>)
    requires DistinctPids(lines) && forall pid :: pid in pids <==> Reports(lines, pid)
    ensures |lines| == |pids|
    decreases |lines|
  {
    if lines == [] {
      forall pid ensures pid !in pids {
        assert pid in pids ==> Reports(lines, pid);
      }
      assert pids == {};
    } else {
      var front, last := lines[..|lines| - 1], lines[|lines| - 1].pid;
      assert Reports(lines, last);
      forall pid ensures pid in pids - {last} <==> Reports(front, pid) {
        if Reports(front, pid) {
          var i :| 0 <= i < |front| && front[i].pid == pid;
          assert lines[i].pid == pid;
        }
        if pid in pids - {last} {
          var i :| 0 <= i < |lines| && lines[i].pid == pid;
          assert front[i].pid == pid;
        }
      }
      LineCount(front, pids - {last});
    }
  }

  /** With unique kinds, having a registered module's kind is being that module. */
  lemma KindIsModule(s: State, pid: int, m: ModuleReg)
    requires Inv(s) && pid in s.tasks && m in s.mods
    ensures IsBoundTo(s.tasks[pid], m.kind) <==> BoundTo(s.tasks, pid, m)
  {
    if s.tasks[pid].Some? {
      LookupFinds(s.mods, m);
      LookupFinds(s.mods, s.tasks[pid].value.addr);
    }
  }

  /** In every state that meets the invariant, the section of a module has exactly one line for each
      listed task bound to that module, with that task's vector, and no other line. */
  lemma SectionExact(s: State, order: seq<int>, m: ModuleReg)
    requires Inv(s) && Walks(order, s.tasks) && m in s.mods
    ensures var lines := SectionOf(s, order, m).lines;
            && DistinctPids(lines)
            && (forall pid :: Reports(lines, pid) <==> pid in order && pid in Bound(s.tasks, m))
            && (forall i :: 0 <= i < |lines| ==>
                  lines[i].pid in s.tasks && s.tasks[lines[i].pid] == Some(Binding(m, lines[i].sv)))
  {
    LinesAre(s.tasks, order, |order|, m.kind);
    assert order[..|order|] == order;
    var lines := SectionOf(s, order, m).lines;
    forall i | 0 <= i < |lines|
      ensures lines[i].pid in s.tasks && s.tasks[lines[i].pid] == Some(Binding(m, lines[i].sv))
    {
      assert LineOf(s.tasks, m.kind, lines[i]);
      KindIsModule(s, lines[i].pid, m);
    }
    forall pid | pid in order && BoundTo(s.tasks, pid, m) ensures Reports(lines, pid) {
      KindIsModule(s, pid, m);
      var k :| 0 <= k < |order| && order[k] == pid;
      assert Reports(lines, order[k]);
    }
  }

  lemma SubsetSize(a: set<int>, b: set<int>)
    requires a <= b
    ensures |a| <= |b| && (|a| == |b| <==> a == b)
  {
    assert |b| == |a| + |b - a| by {
      assert a + (b - a) == b;
    }
  }

  /** The count printed for a module is at least the number of PID lines printed below it, and it is that
      number exactly when the walk lists every task bound to the module. */
  lemma CountMatchesLines(s: State, order: seq<int>, m: ModuleReg)
    requires Inv(s) && Walks(order, s.tasks) && m in s.mods
    ensures var section := SectionOf(s, order, m);
            && |section.lines| <= section.refs
            && (section.refs == |section.lines| <==> forall pid <- Bound(s.tasks, m) :: pid in order)
  {
    var bound := Bound(s.tasks, m);
    var listed := set pid | pid in bound && pid in order;
    SectionExact(s, order, m);
    LineCount(SectionOf(s, order, m).lines, listed);
    SubsetSize(listed, bound);
  }

  /** Each listed task is reported in the section of its own module and in no other, a task without a
      binding in none. */
  lemma ReportedUnderOwnModule(s: State, order: seq<int>, pid: int, m: ModuleReg)
    requires Inv(s) && Walks(order, s.tasks) && pid in s.tasks && m in s.mods
    ensures Reports(SectionOf(s, order, m).lines, pid) <==>
            pid in order && s.tasks[pid].Some? && s.tasks[pid].value.addr == m
    ensures s.tasks[pid].Some? ==> s.tasks[pid].value.addr in s.mods
  {
    SectionExact(s, order, m);
    assert pid in Bound(s.tasks, m) <==> BoundTo(s.tasks, pid, m);
  }

  /** A reachable state in which they differ: a bound task forks a second thread of its group, which gets a
      counted binding of its own and is not listed. */
  lemma ThreadNotListed(s: State, m: ModuleReg) returns (es: seq<Event>, t: State)
    requires s == State([], map[], map[1 := None])
    ensures Init(s) && Runs(s, es) && t == Final(s, es) && m in t.mods
    ensures Walks([1], t.tasks) && SectionOf(t, [1], m).refs == 2 && |SectionOf(t, [1], m).lines| == 1
  {
    var loaded, bound := Register(s, m), SetVector(Register(s, m), 1, 1, m.kind);
    FirstOfKindIs([m], m.kind, 0);
    assert loaded == State([m], map[m := 0], map[1 := None]);
    assert bound == State([m], map[m := 1], map[1 := Some(Binding(m, 1))]);
    t := Inherit(bound, 1, 2, false);
    assert t == State([m], map[m := 2], map[1 := Some(Binding(m, 1)), 2 := Some(Binding(m, 1))]);
    var fork := [Fork(1, 2, false)] + [];
    RunFrom(bound, Fork(1, 2, false), []);
    RunFrom(loaded, Set(1, 1, m.kind), fork);
    RunFrom(s, Load(m), [Set(1, 1, m.kind)] + fork);
    es := [Load(m)] + ([Set(1, 1, m.kind)] + fork);
    assert Lines(t.tasks, [1], 0, m.kind) == [];
  }
}
