/** The report of the GET command, read back line by line: it says what the state is. */
module ReportReader {
  import opened Wrappers
  import opened CString
  import opened Registry
  import opened Bindings
  import opened Driver
  import opened Report
  import Format

  // ----- a reader that knows nothing of how the report is written

  /** One module of a report: its kind, its count, and the number and vector of each task below it. */
  datatype Entry = Entry(kind: int, count: int, tasks: seq<(int, int)>)

  /** What one more line adds to the entries read so far. */
  function Take(done: seq<Entry>, line: string): seq<Entry> {
    match Format.Behind(line, "Module:")
    case Some(number) => done + [Entry(Format.Value(number), 0, [])]
    case None =>
      if done == [] then done
      else
        var front, last := done[..|done| - 1], done[|done| - 1];
        match Format.Behind(line, "RC_Count:")
        case Some(number) => front + [last.(count := Format.Value(number))]
        case None => front + [TakeTask(last, line)]
  }

  function TakeTask(last: Entry, line: string): Entry {
    match Format.Behind(line, "PID:")
    case None => last
    case Some(t) =>
      var k := IndexOf(t, ',');
      match Format.Behind(t[k..], ",Vector:")
      case None => last
      case Some(u) => last.(tasks := last.tasks + [(Format.Value(t[..k]), Format.Value(u))])
  }

  /** Read the rest of a report behind the entries read so far. */
  function ReadFrom(text: string, done: seq<Entry>): seq<Entry>
    decreases |text|
  {
    var n := IndexOf(text, '\n');
    if n == |text| then done else ReadFrom(text[n + 1..], Take(done, text[..n]))
  }

  // ----- one line

  lemma {:induction false} ReadLine(line: string, tail: string, done: seq<Entry>)
    requires '\n' !in line
    ensures ReadFrom(line + ("\n" + tail), done) == ReadFrom(tail, Take(done, line))
  {
    Format.EndsAt(line, '\n', "\n" + tail);
    var t := line + ("\n" + tail);
    assert t[|line| + 1..] == t[|line|..][1..] == tail;
  }

  lemma TakeModule(done: seq<Entry>, kind: int)
    ensures Take(done, "Module:" + Format.Decimal(kind)) == done + [Entry(kind, 0, [])]
  {
    Format.BehindIs("Module:", Format.Decimal(kind));
    Format.ValueOfDecimal(kind);
  }

  lemma NotBehind(t: string, front: string)
    requires t != "" && front != "" && t[0] != front[0]
    ensures Format.Behind(t, front) == None
  {
    assert |front| <= |t| ==> t[..|front|][0] == t[0];
  }

  lemma TakeCount(done: seq<Entry>, kind: int, refs: int)
    ensures Take(done + [Entry(kind, 0, [])], "RC_Count:" + Format.Decimal(refs)) == done + [Entry(kind, refs, [])]
  {
    var line := "RC_Count:" + Format.Decimal(refs);
    NotBehind(line, "Module:");
    Format.BehindIs("RC_Count:", Format.Decimal(refs));
    Format.ValueOfDecimal(refs);
    assert (done + [Entry(kind, 0, [])])[..|done|] == done;
  }

  lemma TakePid(last: Entry, pid: int, v: int)
    ensures TakeTask(last, "PID:" + (Format.Decimal(pid) + (",Vector:" + Format.Decimal(v)))) == last.(tasks := last.tasks + [(pid, v)])
  {
    var rest := ",Vector:" + Format.Decimal(v);
    Format.BehindIs("PID:", Format.Decimal(pid) + rest);
    Format.EndsAt(Format.Decimal(pid), ',', rest);
    Format.BehindIs(",Vector:", Format.Decimal(v));
    Format.ValueOfDecimal(pid);
    Format.ValueOfDecimal(v);
  }

  lemma TakeLine(done: seq<Entry>, last: Entry, line: string)
    requires line != "" && line[0] == 'P'
    ensures Take(done + [last], line) == done + [TakeTask(last, line)]
  {
    NotBehind(line, "Module:");
    NotBehind(line, "RC_Count:");
    assert (done + [last])[..|done|] == done;
  }

  // ----- the report

  /** What is to be read in the lines of a section. */
  function Pairs(lines: seq<Line>): (tasks: seq<(int, int)>)
    ensures |tasks| == |lines| && forall i :: 0 <= i < |lines| ==> tasks[i] == (lines[i].pid, Signed(lines[i].sv))
  {
    seq(|lines|, i requires 0 <= i < |lines| => (lines[i].pid, Signed(lines[i].sv)))
  }

  lemma Regroup(a: string, b: string, c: string, d: string, e: string, tail: string)
    ensures a + b + c + d + e + tail == a + (b + (c + d)) + (e + tail)
  {
  }

  lemma ReadTask(done: seq<Entry>, last: Entry, l: Line, tail: string)
    ensures ReadFrom(LineText(l) + tail, done + [last]) ==
            ReadFrom(tail, done + [last.(tasks := last.tasks + [(l.pid, Signed(l.sv))])])
  {
    var pid, v := Format.Decimal(l.pid), Format.Decimal(Signed(l.sv));
    var line := "PID:" + (pid + (",Vector:" + v));
    Layout(l, tail, line);
    ReadLine(line, tail, done + [last]);
    TakeLine(done, last, line);
    TakePid(last, l.pid, Signed(l.sv));
  }

  lemma Layout(l: Line, tail: string, line: string)
    requires line == "PID:" + (Format.Decimal(l.pid) + (",Vector:" + Format.Decimal(Signed(l.sv))))
    ensures LineText(l) + tail == line + ("\n" + tail) && '\n' !in line && line != "" && line[0] == 'P'
  {
    var pid, v := Format.Decimal(l.pid), Format.Decimal(Signed(l.sv));
    assert "," + "Vector:" == ",Vector:";
    Regroup("PID:", pid, ",Vector:", v, "\n", tail);
    assert "PID:" + pid + "," + "Vector:" == "PID:" + pid + ",Vector:";
  }

  lemma PairsStep(last: Entry, front: seq<Line>, l: Line)
    ensures last.(tasks := last.tasks + Pairs(front + [l])) ==
            last.(tasks := last.tasks + Pairs(front)).(tasks := last.tasks + Pairs(front) + [(l.pid, Signed(l.sv))])
  {
    assert last.tasks + Pairs(front + [l]) == last.tasks + Pairs(front) + [(l.pid, Signed(l.sv))];
  }

  lemma SplitLast(lines: seq<Line>, front: seq<Line>, l: Line)
    requires lines != [] && front == lines[..|lines| - 1] && l == lines[|lines| - 1]
    ensures front + [l] == lines
  {
  }

  lemma {:induction false} ReadTasks(done: seq<Entry>, last: Entry, lines: seq<Line>, tail: string)
    ensures ReadFrom(LinesText(lines) + tail, done + [last]) ==
            ReadFrom(tail, done + [last.(tasks := last.tasks + Pairs(lines))])
    decreases |lines|
  {
    if lines == [] {
      assert LinesText(lines) + tail == tail;
      assert last.tasks + Pairs(lines) == last.tasks;
    } else {
      var front, l := lines[..|lines| - 1], lines[|lines| - 1];
      SplitLast(lines, front, l);
      var some := last.(tasks := last.tasks + Pairs(front));
      Associate(LinesText(front), LineText(l), tail);
      ReadTasks(done, last, front, LineText(l) + tail);
      ReadTask(done, some, l, tail);
      PairsStep(last, front, l);
    }
  }

  lemma HeadLayout(kind: int, refs: nat, first: string, second: string, tail: string)
    requires first == "Module:" + Format.Decimal(kind) && second == "RC_Count:" + Format.Decimal(refs)
    ensures HeadText(kind, refs) + tail == first + ("\n" + (second + ("\n" + tail)))
    ensures '\n' !in first && '\n' !in second
  {
    var rest := "\n" + tail;
    assert first + "\n" + "RC_Count:" + Format.Decimal(refs) == first + "\n" + second;
    assert first + "\n" + second + "\n" + tail == first + ("\n" + (second + rest));
  }

  lemma ReadHead(done: seq<Entry>, kind: int, refs: nat, tail: string)
    ensures ReadFrom(HeadText(kind, refs) + tail, done) == ReadFrom(tail, done + [Entry(kind, refs, [])])
  {
    var first, second := "Module:" + Format.Decimal(kind), "RC_Count:" + Format.Decimal(refs);
    HeadLayout(kind, refs, first, second, tail);
    ReadTwo(done, done + [Entry(kind, 0, [])], done + [Entry(kind, refs, [])], first, second, tail) by {
      TakeModule(done, kind);
      TakeCount(done, kind, refs);
    }
  }

  lemma ReadTwo(done: seq<Entry>, once: seq<Entry>, twice: seq<Entry>, first: string, second: string, tail: string)
    requires '\n' !in first && '\n' !in second && Take(done, first) == once && Take(once, second) == twice
    ensures ReadFrom(first + ("\n" + (second + ("\n" + tail))), done) == ReadFrom(tail, twice)
  {
    ReadLine(first, second + ("\n" + tail), done);
    ReadLine(second, tail, once);
  }

  lemma ReadSection(done: seq<Entry>, x: Section, tail: string)
    ensures ReadFrom(SectionText(x) + tail, done) == ReadFrom(tail, done + [Entry(x.kind, x.refs, Pairs(x.lines))])
  {
    Associate(HeadText(x.kind, x.refs), LinesText(x.lines), tail);
    ReadHead(done, x.kind, x.refs, LinesText(x.lines) + tail);
    ReadTasks(done, Entry(x.kind, x.refs, []), x.lines, tail);
    assert [] + Pairs(x.lines) == Pairs(x.lines);
  }

  /** What is to be read of the first `n` modules. */
  function Entries(s: State, order: seq<int>, n: nat): (es: seq<Entry>)
    requires Listed(order, s.tasks) && n <= |s.mods|
    ensures |es| == n
    ensures forall i :: 0 <= i < n ==>
              var x := SectionOf(s, order, s.mods[i]); es[i] == Entry(x.kind, x.refs, Pairs(x.lines))
  {
    if n == 0 then []
    else
      var x := SectionOf(s, order, s.mods[n - 1]);
      Entries(s, order, n - 1) + [Entry(x.kind, x.refs, Pairs(x.lines))]
  }

  lemma TextStep(s: State, order: seq<int>, n: nat, x: Section, tail: string)
    requires Listed(order, s.tasks) && n < |s.mods| && x == SectionOf(s, order, s.mods[n])
    ensures Text(s, order, n + 1) + tail == Text(s, order, n) + (SectionText(x) + tail)
    ensures Entries(s, order, n + 1) == Entries(s, order, n) + [Entry(x.kind, x.refs, Pairs(x.lines))]
  {
    Associate(Text(s, order, n), SectionText(x), tail);
  }

  lemma ReadMore(s: State, order: seq<int>, n: nat, x: Section, tail: string)
    requires Listed(order, s.tasks) && n < |s.mods| && x == SectionOf(s, order, s.mods[n])
    ensures ReadFrom(SectionText(x) + tail, Entries(s, order, n)) == ReadFrom(tail, Entries(s, order, n + 1))
  {
    ReadSection(Entries(s, order, n), x, tail);
    TextStep(s, order, n, x, tail);
  }

  lemma {:induction false} ReadText(s: State, order: seq<int>, n: nat, tail: string)
    requires Listed(order, s.tasks) && n <= |s.mods|
    ensures ReadFrom(Text(s, order, n) + tail, []) == ReadFrom(tail, Entries(s, order, n))
    decreases n
  {
    if n == 0 {
      assert Text(s, order, n) + tail == tail;
    } else {
      var m: nat := n - 1;
      var x := SectionOf(s, order, s.mods[m]);
      var rest := SectionText(x) + tail;
      ReadText(s, order, m, rest);
      ReadMore(s, order, m, x, tail);
      assert Text(s, order, n) + tail == Text(s, order, m) + rest by {
        TextStep(s, order, m, x, tail);
      }
    }
  }

  // ----- what is read

  lemma InRange(sv: bv32)
    ensures 0 <= sv as int < 0x1_0000_0000
  {
  }

  /** A vector printed with `%d` is the vector read as an int, and no other number is. */
  lemma SignedIs(sv: bv32, v: int)
    ensures v == Signed(sv) <==> -0x8000_0000 <= v < 0x8000_0000 && (if v < 0 then v + 0x1_0000_0000 else v) == sv as int
  {
    InRange(sv);
  }

  /** The tasks below one module: those that are listed and bound to it, each with its own vector. */
  lemma TasksSay(s: State, order: seq<int>, m: ModuleReg, pid: int, v: int)
    requires Inv(s) && Walks(order, s.tasks) && m in s.mods
    ensures (pid, v) in Pairs(SectionOf(s, order, m).lines) <==>
            && pid in order && s.tasks[pid].Some? && s.tasks[pid].value.addr == m
            && -0x8000_0000 <= v < 0x8000_0000 && (if v < 0 then v + 0x1_0000_0000 else v) == s.tasks[pid].value.sv as int
  {
    var lines := SectionOf(s, order, m).lines;
    SectionExact(s, order, m);
    if pid in order && BoundTo(s.tasks, pid, m) {
      assert pid in Bound(s.tasks, m);
      var i :| 0 <= i < |lines| && lines[i].pid == pid;
      assert Pairs(lines)[i] == (pid, Signed(s.tasks[pid].value.sv));
      SignedIs(s.tasks[pid].value.sv, v);
    }
    if (pid, v) in Pairs(lines) {
      var i :| 0 <= i < |lines| && Pairs(lines)[i] == (pid, v);
      assert Reports(lines, pid);
    }
  }

  lemma ReadReport(s: State, order: seq<int>)
    requires Listed(order, s.tasks)
    ensures ReadFrom(Text(s, order, |s.mods|), []) == Entries(s, order, |s.mods|)
  {
    ReadText(s, order, |s.mods|, "");
    Associate(Text(s, order, |s.mods|), "", "");
    assert Text(s, order, |s.mods|) + "" == Text(s, order, |s.mods|);
  }

  /** The whole report, read back: one entry for each module in list order, with its kind and its count; a task
      and a vector are read below it exactly when the task is listed and bound to it with that vector. */
  lemma ReportSays(s: State, order: seq<int>, i: nat, pid: int, v: int)
    requires Inv(s) && Walks(order, s.tasks) && i < |s.mods|
    ensures var es, m := ReadFrom(Text(s, order, |s.mods|), []), s.mods[i];
            && |es| == |s.mods|
            && es[i].kind == m.kind && m in s.refs && es[i].count == s.refs[m]
            && ((pid, v) in es[i].tasks <==>
                 && pid in order && s.tasks[pid].Some? && s.tasks[pid].value.addr == m
                 && -0x8000_0000 <= v < 0x8000_0000 && (if v < 0 then v + 0x1_0000_0000 else v) == s.tasks[pid].value.sv as int)
  {
    ReadReport(s, order);
    TasksSay(s, order, s.mods[i], pid, v);
  }

  /** Below each module the tasks are read in the order of the walk, each once. */
  lemma ReportOrder(s: State, order: seq<int>, i: nat, j: nat, k: nat)
    requires Inv(s) && Walks(order, s.tasks) && i < |s.mods|
    ensures var es := ReadFrom(Text(s, order, |s.mods|), []);
            i < |es| &&
            (j < k < |es[i].tasks| ==>
               exists a, b :: 0 <= a < b < |order| && order[a] == es[i].tasks[j].0 && order[b] == es[i].tasks[k].0)
  {
    ReadReport(s, order);
    var lines := SectionOf(s, order, s.mods[i]).lines;
    LinesAre(s.tasks, order, |order|, s.mods[i].kind);
    LinesInOrder(s.tasks, order, |order|, s.mods[i].kind);
    if j < k < |lines| {
      var a :| 0 <= a < |order| && order[a] == lines[j].pid;
      var b :| 0 <= b < |order| && order[b] == lines[k].pid;
    }
  }

  lemma LineExample()
    ensures LineText(Line(7, 3)) == "PID:7,Vector:3\n" && HeadText(1, 1) == "Module:1\nRC_Count:1\n"
  {
    assert Format.Decimal(1) == "1" && Format.Decimal(7) == "7" && Format.Decimal(3) == "3";
    assert Signed(3) == 3;
  }

  /** One report in full. */
  lemma ReportExample(m: ModuleReg)
    requires m.kind == 1
    ensures Text(State([m], map[m := 1], map[7 := Some(Binding(m, 3))]), [7], 1) == "Module:1\nRC_Count:1\nPID:7,Vector:3\n"
  {
    var s := State([m], map[m := 1], map[7 := Some(Binding(m, 3))]);
    var l := Line(7, 3);
    LineExample();
    assert Lines(s.tasks, [7], 0, 1) == [];
    assert SectionOf(s, [7], m) == Section(1, 1, [] + [l]);
    LineAppended([], l);
    assert LinesText([]) == "";
    assert Text(s, [7], 0) == "";
  }
}
