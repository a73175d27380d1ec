/** The system calls that the router hooks, as values. */
module Calls {

  /** A hooked call other than exit_group, with the arguments that the modules look at. */
  datatype SysCall =
    | Open(path: string, flags: bv32, mode: int)
    | Close(fd: int)
    | Write(fd: int, data: string, size: nat)
    | Rename(oldname: string, newname: string)
    | Rmdir(path: string)
    | Mkdir(path: string, mode: int)
    | Link(oldname: string, newname: string)
    | Symlink(oldname: string, newname: string)
    | Unlink(path: string)

  /** The wrappers, and with them the kinds of call, `new_exit_group` included. */
  datatype Hook = HWrite | HOpen | HRmdir | HLink | HUnlink | HSymlink | HRename | HMkdir | HExitGroup | HClose

  function HookOf(c: SysCall): Hook {
    match c
    case Open(_, _, _) => HOpen
    case Close(_) => HClose
    case Write(_, _, _) => HWrite
    case Rename(_, _) => HRename
    case Rmdir(_) => HRmdir
    case Mkdir(_, _) => HMkdir
    case Link(_, _) => HLink
    case Symlink(_, _) => HSymlink
    case Unlink(_) => HUnlink
  }

  /** `system_call_type`: the bit that a call has in a vector. */
  function TypeOf(h: Hook): nat
    requires h != HExitGroup
  {
    match h
    case HOpen => 0
    case HClose => 1
    case HWrite => 3
    case HRename => 4
    case HRmdir => 5
    case HMkdir => 6
    case HLink => 7
    case HSymlink => 8
    case HUnlink => 9
  }

  /** `op_allowed`. */
  predicate OpAllowed(kind: nat, sv: bv32)
    requires kind < 32
  {
    sv & (1 << kind) != 0
  }

  /** A vector that allows the calls in a list, as the documentation of the SET command builds it. */
  function VectorOf(kinds: seq<nat>): bv32
    requires forall i :: 0 <= i < |kinds| ==> kinds[i] < 10
  {
    if kinds == [] then 0 else (1 << kinds[0]) | VectorOf(kinds[1..])
  }

  lemma BitsDiffer(i: nat, j: nat)
    requires i < 10 && j < 10
    ensures OpAllowed(i, 1 << j) <==> i == j
  {
    var bits: seq<bv32> := [0x1, 0x2, 0x4, 0x8, 0x10, 0x20, 0x40, 0x80, 0x100, 0x200];
    assert 1 << i == bits[i];
    assert 1 << j == bits[j];
  }

  lemma OrAllows(a: bv32, b: bv32, m: bv32)
    ensures (a | b) & m != 0 <==> a & m != 0 || b & m != 0
  {
  }

  /** A vector built from a list of bits allows exactly those bits. */
  lemma {:induction false} VectorAllows(kinds: seq<nat>, k: nat)
    requires k < 10 && forall i :: 0 <= i < |kinds| ==> kinds[i] < 10
    ensures OpAllowed(k, VectorOf(kinds)) <==> k in kinds
    decreases |kinds|
  {
    if kinds != [] {
      BitsDiffer(k, kinds[0]);
      OrAllows(1 << kinds[0], VectorOf(kinds[1..]), 1 << k);
      VectorAllows(kinds[1..], k);
    }
  }

  // ----- which bit is whose

  lemma MaskOf(c: SysCall)
    ensures (1 as bv32) << TypeOf(HookOf(c)) ==
            match c
            case Open(_, _, _) => 0x1
            case Close(_) => 0x2
            case Write(_, _, _) => 0x8
            case Rename(_, _) => 0x10
            case Rmdir(_) => 0x20
            case Mkdir(_, _) => 0x40
            case Link(_, _) => 0x80
            case Symlink(_, _) => 0x100
            case Unlink(_) => 0x200
  {
  }

  /** The bit of each call. */
  lemma OwnBit(c: SysCall, sv: bv32)
    ensures OpAllowed(TypeOf(HookOf(c)), sv) <==>
            match c
            case Open(_, _, _) => sv & 0x1 != 0
            case Close(_) => sv & 0x2 != 0
            case Write(_, _, _) => sv & 0x8 != 0
            case Rename(_, _) => sv & 0x10 != 0
            case Rmdir(_) => sv & 0x20 != 0
            case Mkdir(_, _) => sv & 0x40 != 0
            case Link(_, _) => sv & 0x80 != 0
            case Symlink(_, _) => sv & 0x100 != 0
            case Unlink(_) => sv & 0x200 != 0
  {
    MaskOf(c);
  }

  /** The vector that allows a list of calls. */
  function VectorFor(calls: seq<Hook>): bv32
    requires HExitGroup !in calls
  {
    VectorOf(seq(|calls|, i requires 0 <= i < |calls| => TypeOf(calls[i])))
  }

  lemma SameBit(g: Hook, h: Hook)
    requires g != HExitGroup && h != HExitGroup
    ensures TypeOf(g) == TypeOf(h) <==> g == h
  {
  }

  /** The vector built for a list of calls permits exactly the calls in it. */
  lemma VectorPermits(calls: seq<Hook>, c: SysCall)
    requires HExitGroup !in calls
    ensures OpAllowed(TypeOf(HookOf(c)), VectorFor(calls)) <==> HookOf(c) in calls
  {
    var kinds := seq(|calls|, i requires 0 <= i < |calls| => TypeOf(calls[i]));
    var h := HookOf(c);
    VectorAllows(kinds, TypeOf(h));
    forall i | 0 <= i < |calls| ensures kinds[i] == TypeOf(h) <==> calls[i] == h {
      SameBit(calls[i], h);
    }
    if h in calls {
      var i :| 0 <= i < |calls| && calls[i] == h;
      assert kinds[i] in kinds;
    }
  }

  /** The same bit by bit: `calls` in a vector are open 0x1, close 0x2, write 0x8, rename 0x10, rmdir 0x20,
      mkdir 0x40, link 0x80, symlink 0x100 and unlink 0x200. */
  lemma VectorBits(calls: seq<Hook>)
    requires HExitGroup !in calls
    ensures var v := VectorFor(calls);
            && (v & 0x1 != 0 <==> HOpen in calls) && (v & 0x2 != 0 <==> HClose in calls)
            && (v & 0x8 != 0 <==> HWrite in calls) && (v & 0x10 != 0 <==> HRename in calls)
            && (v & 0x20 != 0 <==> HRmdir in calls) && (v & 0x40 != 0 <==> HMkdir in calls)
            && (v & 0x80 != 0 <==> HLink in calls) && (v & 0x100 != 0 <==> HSymlink in calls)
            && (v & 0x200 != 0 <==> HUnlink in calls)
  {
    forall c: SysCall ensures OpAllowed(TypeOf(HookOf(c)), VectorFor(calls)) <==> HookOf(c) in calls {
      VectorPermits(calls, c);
    }
    var v := VectorFor(calls);
    OwnBit(Open("", 0, 0), v);
    OwnBit(Close(0), v);
    OwnBit(Write(0, "", 0), v);
    OwnBit(Rename("", ""), v);
    OwnBit(Rmdir(""), v);
    OwnBit(Mkdir("", 0), v);
    OwnBit(Link("", ""), v);
    OwnBit(Symlink("", ""), v);
    OwnBit(Unlink(""), v);
  }
}
