/** What the trace module logs in a session, and what its file holds after it. */
module Tracing {
  import opened Wrappers
  import opened Registry
  import Bindings
  import opened Calls
  import opened CString
  import opened Handlers
  import opened LogFiles
  import opened Session
  import opened SyscallTable
  import Format
  import TraceLog

  // ----- records and calls

  /** The call is handed to the trace module. */
  ghost predicate Traced(w: World, pid: int, c: SysCall)
    requires Ready(w) && pid in w.state.tasks && Nr(HookOf(c)) < |w.table|
  {
    match w.table[Nr(HookOf(c))]
    case Kernel(_) => false
    case Wrapper(h) =>
      h != HExitGroup &&
      match w.state.tasks[pid]
      case None => false
      case Some(b) => OpAllowed(TypeOf(h), b.sv) && b.addr.kind == TRACE_MODULE
  }

  /** The record that the trace module logs in one action, if it does. */
  ghost function RecordIn(w: World, a: Action): seq<string>
    requires Ready(w) && CanAct(w, a)
  {
    match a
    case Bind(_) => []
    case Call(pid, c, _) =>
      NrInjective(HookOf(c), HookOf(c));
      if Traced(w, pid, c) then [Record(pid, c)] else []
  }

  /** The records that the trace module logs in a run, in order. */
  ghost function Records(w: World, acts: seq<Action>): seq<string>
    requires Runs(w, acts)
    decreases |acts|
  {
    if acts == [] then [] else RecordIn(w, acts[0]) + Records(Act(w, acts[0]), acts[1..])
  }

  /** The records of the calls in a log that were made by tasks bound to the trace module. */
  ghost function TracedEntries(log: seq<Entry>): seq<string> {
    if log == [] then []
    else
      var front, x := TracedEntries(log[..|log| - 1]), log[|log| - 1];
      if x.bound.Some? && x.bound.value.addr.kind == TRACE_MODULE then front + [Record(x.pid, x.call)] else front
  }

  /** What one more call in a log adds: its record, if the task was bound to a module of kind 1. */
  lemma TracedSnoc(log: seq<Entry>, x: Entry)
    ensures TracedEntries([]) == []
    ensures TracedEntries(log + [x]) ==
            TracedEntries(log) + if x.bound.Some? && x.bound.value.addr.kind == 1 then [Record(x.pid, x.call)] else []
  {
    assert (log + [x])[..|log|] == log;
  }

  lemma TracedStep(w: World, t: seq<Target>, a: Action)
    requires HookedFrom(w, t) && CanAct(w, a)
    ensures TracedEntries(Act(w, a).log) == TracedEntries(w.log) + RecordIn(w, a)
  {
    var n := Act(w, a);
    if a.Call? {
      HookedAct(w, t, w.state.tasks[a.pid], a.c, a.env);
      assert w.table[Nr(HookOf(a.c))] == Wrapper(HookOf(a.c));
      if n.log != w.log {
        assert n.log[..|n.log| - 1] == w.log;
      }
    }
  }

  lemma {:induction false} RecordsStep(w: World, acts: seq<Action>)
    requires Runs(w, acts) && acts != []
    ensures Records(w, acts) == RecordIn(w, acts[0]) + Records(Act(w, acts[0]), acts[1..])
  {
  }

  lemma Associate(a: seq<string>, b: seq<string>, c: seq<string>)
    ensures a + b + c == a + (b + c) && a + [] == a
  {
  }

  /** The trace module logs exactly the calls of its tasks that the kernel carries out, in order. */
  lemma {:induction false} TraceMatchesLog(w: World, t: seq<Target>, acts: seq<Action>)
    requires HookedFrom(w, t) && Runs(w, acts)
    ensures TracedEntries(Final(w, acts).log) == TracedEntries(w.log) + Records(w, acts)
    decreases |acts|
  {
    if acts != [] {
      RunStep(w, acts);
      ActInStep(w, t, acts[0]);
      TracedStep(w, t, acts[0]);
      var n, rest := Act(w, acts[0]), acts[1..];
      TraceMatchesLog(n, t, rest);
      RecordsStep(w, acts);
      Associate(TracedEntries(w.log), RecordIn(w, acts[0]), Records(n, rest));
    } else {
      Associate(TracedEntries(w.log), [], []);
    }
  }

  // ----- lives of the module

  /** The trace module is unloaded, and its file with it. */
  predicate EndsLife(a: Action) {
    a.Bind? && a.e.Unload? && a.e.m.kind == TRACE_MODULE
  }

  /** The records of each life of the trace module, the last one being unloaded after the run; `current`
      are those of the life the run starts in. */
  ghost function Lives(w: World, acts: seq<Action>, current: seq<string>): seq<seq<string>>
    requires Runs(w, acts)
    decreases |acts|
  {
    if acts == [] then [current]
    else if EndsLife(acts[0]) then [current] + Lives(Act(w, acts[0]), acts[1..], [])
    else Lives(Act(w, acts[0]), acts[1..], current + RecordIn(w, acts[0]))
  }

  /** The records of all lives in order. */
  function Flatten(lives: seq<seq<string>>): seq<string> {
    if lives == [] then [] else lives[0] + Flatten(lives[1..])
  }

  lemma FlattenStep(current: seq<string>, lives: seq<seq<string>>)
    ensures Flatten([current] + lives) == current + Flatten(lives)
  {
    assert ([current] + lives)[1..] == lives;
  }

  /** An unload of the trace module ends a life; any other step goes on with it. */
  lemma {:induction false} LivesStep(w: World, acts: seq<Action>, current: seq<string>)
    requires Runs(w, acts) && acts != []
    ensures var later := Act(w, acts[0]);
            Lives(w, acts, current) ==
            if acts[0].Bind? && acts[0].e.Unload? && acts[0].e.m.kind == 1 then [current] + Lives(later, acts[1..], [])
            else Lives(later, acts[1..], current + RecordIn(w, acts[0]))
  {
  }

  /** A run that is over ends the life it is in. */
  lemma LivesEnd(w: World, current: seq<string>)
    requires Ready(w)
    ensures Runs(w, []) && Lives(w, [], current) == [current]
  {
  }

  /** No record is in two lives or in none. */
  lemma {:induction false} LivesAreRecords(w: World, acts: seq<Action>, current: seq<string>)
    requires Runs(w, acts)
    ensures Flatten(Lives(w, acts, current)) == current + Records(w, acts)
    decreases |acts|
  {
    if acts == [] {
      FlattenStep(current, []);
    } else {
      RunStep(w, acts);
      LivesStep(w, acts, current);
      RecordsStep(w, acts);
      var n, rest, r := Act(w, acts[0]), acts[1..], RecordIn(w, acts[0]);
      if EndsLife(acts[0]) {
        LivesAreRecords(n, rest, []);
        FlattenStep(current, Lives(n, rest, []));
        Associate([], [], Records(n, rest));
        assert [] + Records(n, rest) == Records(n, rest);
      } else {
        LivesAreRecords(n, rest, current + r);
        Associate(current, r, Records(n, rest));
      }
    }
  }

  lemma {:induction false} LivesGood(w: World, acts: seq<Action>, current: seq<string>, P: nat)
    requires Runs(w, acts)
    requires forall r <- current :: TraceLog.GoodRecord(r, P)
    requires forall r <- Records(w, acts) :: TraceLog.GoodRecord(r, P)
    ensures TraceLog.GoodLives(Lives(w, acts, current), P)
    decreases |acts|
  {
    if acts != [] {
      RunStep(w, acts);
      LivesStep(w, acts, current);
      RecordsStep(w, acts);
      var n, rest, r := Act(w, acts[0]), acts[1..], RecordIn(w, acts[0]);
      assert forall x :: x in r || x in Records(n, rest) ==> x in Records(w, acts);
      LivesGood(n, rest, if EndsLife(acts[0]) then [] else current + r, P);
    }
  }

  /** A call is handed to the trace module only while one is loaded, so a record always falls into a life. */
  lemma TracedWhileLoaded(w: World, pid: int, c: SysCall)
    requires Ready(w) && pid in w.state.tasks && Nr(HookOf(c)) < |w.table|
    requires Bindings.Inv(w.state) && Traced(w, pid, c)
    ensures exists m :: m in w.state.mods && m.kind == TRACE_MODULE
  {
    var m := w.state.tasks[pid].value.addr;
    assert m in w.state.mods;
  }

  lemma LivesOfSession(w: World, t: seq<Target>, acts: seq<Action>, P: nat)
    requires HookedFrom(w, t) && Runs(w, acts) && w.log == []
    requires forall r <- Records(w, acts) :: TraceLog.GoodRecord(r, P)
    ensures TraceLog.GoodLives(Lives(w, acts, []), P)
    ensures Flatten(Lives(w, acts, [])) == TracedEntries(Final(w, acts).log)
  {
    TraceMatchesLog(w, t, acts);
    LivesAreRecords(w, acts, []);
    LivesGood(w, acts, [], P);
    assert [] + Records(w, acts) == Records(w, acts);
  }

  /** After a session, whatever loads and unloads it contains, and a last unload: the lives hold exactly
      the records of the calls that the tasks of the trace module had carried out, in order; the used
      parts of what each life wrote are its records; and the file holds the texts of the lives one over
      the other, so that all of them are there if and only if at most one life has records. */
  lemma TraceFileOfSession(w: World, t: seq<Target>, acts: seq<Action>, P: nat)
    requires HookedFrom(w, t) && Runs(w, acts) && w.log == [] && 0 < P
    requires forall r <- Records(w, acts) :: TraceLog.GoodRecord(r, P)
    ensures TraceLog.GoodLives(Lives(w, acts, []), P)
    ensures var lives := Lives(w, acts, []);
            && Flatten(lives) == TracedEntries(Final(w, acts).log)
            && (forall i :: 0 <= i < |lives| ==>
                  TraceLog.UsefulOf(TraceLog.Finish(TraceLog.Logged(lives[i], P)).blocks) == Concat(lives[i]))
            && (Layered("", TraceLog.Texts(lives, P)) == Concat(TraceLog.Texts(lives, P)) <==>
                forall i, j :: 0 <= i < j < |lives| ==> lives[i] == [] || lives[j] == [])
  {
    LivesOfSession(w, t, acts, P);
    TraceLog.FileOfLives(Lives(w, acts, []), P);
  }

  // ----- two inputs, with records as the module writes them

  lemma RecordFree(pid: int, c: SysCall)
    requires c.Close? || (c.Open? && NUL !in c.path)
    ensures NUL !in Record(pid, c)
    ensures |Record(pid, c)| == |Format.Decimal(pid)| + if c.Close? then 30 else 41 + |c.path|
  {
    RecordNulFree(pid, c);
    RecordLength(pid, c);
  }

  /** An open of a path of 4030 characters and a close by task 1: the close does not fit behind the open,
      and the end of the open stands in the file a second time. */
  lemma OpenThenClose(path: string)
    requires |path| == 4030 && NUL !in path
    ensures var long, short := Record(1, Open(path, 0, 0)), Record(1, Close(3));
            && TraceLog.GoodRecord(long, PAGE_SIZE) && TraceLog.GoodRecord(short, PAGE_SIZE)
            && TraceLog.Written([long, short], PAGE_SIZE) == long + short + long[|short|..]
            && !TraceLog.NeverShrinks(TraceLog.Totals(Lengths([long, short]), PAGE_SIZE))
  {
    var long, short := Record(1, Open(path, 0, 0)), Record(1, Close(3));
    RecordFree(1, Open(path, 0, 0));
    RecordFree(1, Close(3));
    assert Format.Decimal(1) == "1";
    TraceLog.StaleCharactersAppear(long, short, PAGE_SIZE);
    TraceLog.ExactIff([long, short], PAGE_SIZE);
    assert |TraceLog.Written([long, short], PAGE_SIZE)| > |long + short|;
    Snoc("", [long, short], [long], short);
    Snoc("", [long], [], long);
  }

  /** A close before a reload of the module and an open after it, by any task: the record of the close is gone. */
  lemma ReloadLosesClose(pid: int, path: string)
    requires NUL !in path && |Record(pid, Open(path, 0, 0))| < PAGE_SIZE
    ensures var before, after := Record(pid, Close(3)), Record(pid, Open(path, 0, 0));
            && TraceLog.GoodLives([[before], [after]], PAGE_SIZE)
            && Layered("", TraceLog.Texts([[before], [after]], PAGE_SIZE)) == after
  {
    RecordFree(pid, Close(3));
    RecordFree(pid, Open(path, 0, 0));
    TraceLog.ReloadOverwrites(Record(pid, Close(3)), Record(pid, Open(path, 0, 0)), PAGE_SIZE);
  }
}
