/** Hooking and unhooking the system-call table (`set_systems_calls`, `destory_new_system_calls`). */
module SyscallTable {
  import opened Calls

  /** What a table entry points to: one of the wrappers, or some kernel address. */
  datatype Target = Wrapper(h: Hook) | Kernel(addr: nat)

  /** The x86-64 number of each hooked call. */
  function Nr(h: Hook): nat {
    match h
    case HWrite => 1
    case HOpen => 2
    case HClose => 3
    case HRename => 82
    case HMkdir => 83
    case HRmdir => 84
    case HLink => 86
    case HUnlink => 87
    case HSymlink => 88
    case HExitGroup => 231
  }

  /** The entry that each call goes through. */
  lemma EntryOf(c: SysCall)
    ensures Nr(HookOf(c)) ==
            match c
            case Open(_, _, _) => 2
            case Close(_) => 3
            case Write(_, _, _) => 1
            case Rename(_, _) => 82
            case Rmdir(_) => 84
            case Mkdir(_, _) => 83
            case Link(_, _) => 86
            case Symlink(_, _) => 88
            case Unlink(_) => 87
  {
  }

  const TABLE_SIZE: nat := 232

  lemma NrInjective(g: Hook, h: Hook)
    ensures Nr(g) == Nr(h) <==> g == h
    ensures Nr(h) < TABLE_SIZE
  {
  }

  /** `t` is `s` with every hooked entry replaced by its wrapper and all other entries kept. */
  ghost predicate Hooked(s: seq<Target>, t: seq<Target>) {
    && |t| == |s| >= TABLE_SIZE
    && (forall h :: t[Nr(h)] == Wrapper(h))
    && (forall i :: 0 <= i < |s| && (forall h :: i != Nr(h)) ==> t[i] == s[i])
  }

  /** `saved` holds the entries of `s` under the calls they belong to. */
  ghost predicate Saved(s: seq<Target>, saved: map<Hook, Target>) {
    |s| >= TABLE_SIZE && forall h :: h in saved && saved[h] == s[Nr(h)]
  }

  /** `u` is `t` with every hooked entry put back from `saved`. */
  ghost predicate Restored(t: seq<Target>, saved: map<Hook, Target>, u: seq<Target>) {
    && |u| == |t| >= TABLE_SIZE
    && (forall h :: h in saved && u[Nr(h)] == saved[h])
    && (forall i :: 0 <= i < |t| && (forall h :: i != Nr(h)) ==> u[i] == t[i])
  }

  /** Hooking and then unhooking gives back the whole table, entry for entry. */
  lemma HookThenUnhook(s: seq<Target>, t: seq<Target>, saved: map<Hook, Target>, u: seq<Target>)
    requires Hooked(s, t) && Saved(s, saved) && Restored(t, saved, u)
    ensures u == s
  {
    forall i | 0 <= i < |s| ensures u[i] == s[i] {
      if h :| i == Nr(h) {
        assert u[Nr(h)] == saved[h];
      }
    }
  }

  /** Which entries are hooked, and by which wrapper, number by number. */
  lemma HookedEntries(s: seq<Target>, t: seq<Target>)
    requires Hooked(s, t)
    ensures |t| == |s| > 231
    ensures t[1] == Wrapper(HWrite) && t[2] == Wrapper(HOpen) && t[3] == Wrapper(HClose)
    ensures t[82] == Wrapper(HRename) && t[83] == Wrapper(HMkdir) && t[84] == Wrapper(HRmdir)
    ensures t[86] == Wrapper(HLink) && t[87] == Wrapper(HUnlink) && t[88] == Wrapper(HSymlink)
    ensures t[231] == Wrapper(HExitGroup)
    ensures forall i :: 0 <= i < |t| && i !in {1, 2, 3, 82, 83, 84, 86, 87, 88, 231} ==> t[i] == s[i]
  {
    assert t[Nr(HWrite)] == Wrapper(HWrite) && t[Nr(HOpen)] == Wrapper(HOpen) && t[Nr(HClose)] == Wrapper(HClose);
    assert t[Nr(HRename)] == Wrapper(HRename) && t[Nr(HMkdir)] == Wrapper(HMkdir) && t[Nr(HRmdir)] == Wrapper(HRmdir);
    assert t[Nr(HLink)] == Wrapper(HLink) && t[Nr(HUnlink)] == Wrapper(HUnlink) && t[Nr(HSymlink)] == Wrapper(HSymlink);
    assert t[Nr(HExitGroup)] == Wrapper(HExitGroup);
  }

  /** Which old entry is kept under which call. */
  lemma SavedEntries(s: seq<Target>, saved: map<Hook, Target>)
    requires Saved(s, saved)
    ensures |s| > 231 && forall h :: h in saved
    ensures saved[HWrite] == s[1] && saved[HOpen] == s[2] && saved[HClose] == s[3]
    ensures saved[HRename] == s[82] && saved[HMkdir] == s[83] && saved[HRmdir] == s[84]
    ensures saved[HLink] == s[86] && saved[HUnlink] == s[87] && saved[HSymlink] == s[88]
    ensures saved[HExitGroup] == s[231]
  {
  }

  /** The router's globals: the table it found and the saved originals. */
  class Router {
    const table: array<Target>
    var original: map<Hook, Target>

    constructor (table: array<Target>)
      ensures this.table == table && original == map[]
    {
      this.table := table;
      original := map[];
    }

    /** The first half of `set_systems_calls`: remember what the table holds. */
    method SaveOriginals()
      requires table.Length >= TABLE_SIZE
      modifies this
      ensures Saved(table[..], original)
    {
      original := map[
        HWrite := table[Nr(HWrite)],
        HOpen := table[Nr(HOpen)],
        HRmdir := table[Nr(HRmdir)],
        HLink := table[Nr(HLink)],
        HUnlink := table[Nr(HUnlink)],
        HSymlink := table[Nr(HSymlink)],
        HRename := table[Nr(HRename)],
        HMkdir := table[Nr(HMkdir)],
        HExitGroup := table[Nr(HExitGroup)],
        HClose := table[Nr(HClose)]
      ];
      forall h ensures h in original && original[h] == table[Nr(h)] {
        match h
        case HWrite => case HOpen => case HRmdir => case HLink => case HUnlink =>
        case HSymlink => case HRename => case HMkdir => case HExitGroup => case HClose =>
      }
    }

    /** The second half: put the wrappers in. */
    method InstallWrappers()
      requires table.Length >= TABLE_SIZE
      modifies table
      ensures Hooked(old(table[..]), table[..])
    {
      table[Nr(HOpen)] := Wrapper(HOpen);
      table[Nr(HWrite)] := Wrapper(HWrite);
      table[Nr(HRmdir)] := Wrapper(HRmdir);
      table[Nr(HLink)] := Wrapper(HLink);
      table[Nr(HUnlink)] := Wrapper(HUnlink);
      table[Nr(HSymlink)] := Wrapper(HSymlink);
      table[Nr(HRename)] := Wrapper(HRename);
      table[Nr(HMkdir)] := Wrapper(HMkdir);
      table[Nr(HExitGroup)] := Wrapper(HExitGroup);
      table[Nr(HClose)] := Wrapper(HClose);
    }

    method SetSystemCalls()
      requires table.Length >= TABLE_SIZE
      modifies this, table
      ensures Hooked(old(table[..]), table[..]) && Saved(old(table[..]), original)
    {
      SaveOriginals();
      InstallWrappers();
    }

    method DestroyNewSystemCalls()
      requires table.Length >= TABLE_SIZE && forall h :: h in original
      modifies table
      ensures Restored(old(table[..]), original, table[..])
    {
      table[Nr(HOpen)] := original[HOpen];
      table[Nr(HWrite)] := original[HWrite];
      table[Nr(HRmdir)] := original[HRmdir];
      table[Nr(HLink)] := original[HLink];
      table[Nr(HUnlink)] := original[HUnlink];
      table[Nr(HSymlink)] := original[HSymlink];
      table[Nr(HRename)] := original[HRename];
      table[Nr(HMkdir)] := original[HMkdir];
      table[Nr(HExitGroup)] := original[HExitGroup];
      table[Nr(HClose)] := original[HClose];
      forall h ensures table[Nr(h)] == original[h] {
        match h
        case HWrite => case HOpen => case HRmdir => case HLink => case HUnlink =>
        case HSymlink => case HRename => case HMkdir => case HExitGroup => case HClose =>
      }
    }
  }
}
