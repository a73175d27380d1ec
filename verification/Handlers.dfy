/** What each loadable module answers when the router hands it a call (`system_call_entry` of the
    protect, antivirus and trace modules).  A negative answer keeps the original call from running. */
module Handlers {
  import opened Wrappers
  import opened CString
  import opened Calls
  import Blacklist
  import Format
  import Lines
  import Signatures
  import FileModel

  const TRACE_MODULE: int := 1
  const PROTECT_MODULE: int := 2
  const ANTIVIRUS_MODULE: int := 3

  const EPERM: int := 1
  const EOPNOTSUPP: int := 95

  const PAGE_SIZE: nat := 4096

  // ----- protect

  predicate IsProtected(path: string) {
    Occurs(path, ".protected")
  }

  function RefuseProtected(path: string): int {
    if IsProtected(path) then -EPERM else 0
  }

  /** The protect module tests the first path only, and for a write the data up to its first NUL. */
  function Protect(c: SysCall): int {
    match c
    case Open(path, _, _) => RefuseProtected(path)
    case Write(_, data, _) => RefuseProtected(CStr(data))
    case Rmdir(path) => RefuseProtected(path)
    case Unlink(path) => RefuseProtected(path)
    case Symlink(oldname, _) => RefuseProtected(oldname)
    case Link(oldname, _) => RefuseProtected(oldname)
    case Rename(oldname, _) => RefuseProtected(oldname)
    case _ => 0
  }

  // ----- antivirus

  /** The file a call wants opened, as it is before; a device is not scanned. */
  datatype Input = Input(data: string, device: bool)

  /** What the outside contributes to one call: the blacklist and the input file, if they can be
      opened, and the answer of a module of any other kind. */
  datatype Env = Env(blacklist: Option<string>, input: Option<Input>, foreign: int)

  /** O_TRUNC is among the flags: opening empties the file before it is scanned. */
  predicate Truncates(flags: bv32) {
    flags & 0x200 != 0
  }

  /** The file's contents once it is opened with the caller's own flags. */
  function Opened(data: string, flags: bv32): string {
    if Truncates(flags) then "" else data
  }

  /** `check_for_virus`. */
  ghost function CheckForVirus(flags: bv32, env: Env): int {
    if env.blacklist.None? || env.input.None? || env.input.value.device then 0
    else if Blacklist.Infected(env.blacklist.value, Opened(env.input.value.data, flags), PAGE_SIZE) then -1
    else 0
  }

  /** What `check_for_virus` sees of its two files. */
  ghost function Seen(blacklist: FileModel.File?, input: FileModel.File?, device: bool, foreign: int): Env {
    Env(if blacklist == null then None else Some(blacklist.data),
        if input == null then None else Some(Input(input.data, device)), foreign)
  }

  /** `check_for_virus` itself, from its two opened files; null when opening failed.  Without O_RDONLY or O_RDWR a
      read fails, and the scan of a file that is not empty writes in front of its buffer. */
  method ScanOnOpen(blacklist: FileModel.File?, input: FileModel.File?, device: bool, ghost flags: bv32, ghost foreign: int)
    returns (ret: int)
    requires blacklist != null && input != null && !device ==>
               && input != blacklist && blacklist.pos == 0
               && input.data == Opened(input.data, flags) && (input.data != "" ==> flags & 0x3 == 0 || flags & 0x3 == 2)
               && |input.data| < 0x8000_0000 && |blacklist.data| < 0x8000_0000
               && Blacklist.RefillsOk(blacklist.data, input.data, 0, PAGE_SIZE)
               && Blacklist.TextsOk(blacklist.data, input.data, PAGE_SIZE)
    modifies blacklist, input
    ensures if blacklist == null || input == null || device then ret == 0
            else ret == if Blacklist.Infected(blacklist.data, input.data, PAGE_SIZE) then -1 else 0
    ensures ret == CheckForVirus(flags, Seen(blacklist, input, device, foreign))
  {
    if blacklist == null || input == null || device {
      return 0;
    }
    var isVirus, handed := Blacklist.CheckInBlacklist(input, blacklist, PAGE_SIZE);
    ret := if isVirus then -1 else 0;
  }

  ghost function Antivirus(c: SysCall, env: Env): int {
    if c.Open? then CheckForVirus(c.flags, env) else 0
  }

  lemma VerdictOf(blacklist: string, data: string, flags: bv32, foreign: int)
    ensures CheckForVirus(flags, Env(Some(blacklist), Some(Input(data, false)), foreign)) < 0 <==>
            Blacklist.Infected(blacklist, Opened(data, flags), PAGE_SIZE)
  {
  }

  /** On a regular file and a blacklist written from signatures, the open is refused exactly when it does
      not truncate the file and the file shows one of the signatures. */
  lemma VirusVerdict(signatures: seq<Signatures.Signature>, data: string, flags: bv32, foreign: int)
    requires Signatures.GoodSignatures(signatures, PAGE_SIZE)
    ensures var blacklist := Lines.Unlines(Signatures.LinesOf(signatures, PAGE_SIZE));
            CheckForVirus(flags, Env(Some(blacklist), Some(Input(data, false)), foreign)) < 0 <==>
            && flags & 0x200 == 0 && data != ""
            && exists i :: 0 <= i < |signatures| && Signatures.Shown(data, signatures[i], PAGE_SIZE)
  {
    VerdictOf(Lines.Unlines(Signatures.LinesOf(signatures, PAGE_SIZE)), data, flags, foreign);
    Signatures.SignatureScan(signatures, Opened(data, flags), PAGE_SIZE);
  }

  /** The same for a file without NUL characters and signatures without zero bytes. */
  lemma VirusVerdictNulFree(signatures: seq<Signatures.Signature>, data: string, flags: bv32, foreign: int)
    requires Signatures.GoodSignatures(signatures, PAGE_SIZE) && Signatures.ZeroFree(signatures) && NUL !in data
    ensures var blacklist := Lines.Unlines(Signatures.LinesOf(signatures, PAGE_SIZE));
            CheckForVirus(flags, Env(Some(blacklist), Some(Input(data, false)), foreign)) < 0 <==>
            && flags & 0x200 == 0 && data != ""
            && exists i :: 0 <= i < |signatures| && Occurs(data, signatures[i].bytes)
  {
    VerdictOf(Lines.Unlines(Signatures.LinesOf(signatures, PAGE_SIZE)), data, flags, foreign);
    Signatures.SignatureScanNulFree(signatures, Opened(data, flags), PAGE_SIZE);
  }

  // ----- trace

  function Operation(c: SysCall): string {
    match c
    case Open(_, _, _) => "OPEN"
    case Close(_) => "CLOSE"
    case Write(_, _, _) => "WRITE"
    case Rmdir(_) => "RMDIR"
    case Link(_, _) => "LINK"
    case Symlink(_, _) => "SYMLINK"
    case Unlink(_) => "UNLINK"
    case Rename(_, _) => "RENAME"
    case Mkdir(_, _) => "MKDIR"
  }

  function Arguments(c: SysCall): string {
    match c
    case Open(path, _, _) => ", FILE/DIR: " + path + "\n"
    case Close(_) => "\n"
    case Write(_, data, _) => ", FILE/DIR: " + CStr(data) + "\n"
    case Rmdir(path) => ", FILE/DIR: " + path + "\n"
    case Link(oldname, newname) => ", OLD FILE/DIR: " + oldname + ", NEW FILE/DIR: " + newname + "\n"
    case Symlink(oldname, newname) => ", OLD FILE/DIR: " + oldname + ", NEW FILE/DIR: " + newname + "\n"
    case Unlink(path) => ", FILE/DIR: " + path + "\n"
    case Rename(oldname, newname) => ", OLD FILE/DIR: " + oldname + ", NEW FILE/DIR: " + newname + "\n"
    case Mkdir(path, _) => ", OLD FILE/DIR: " + path + "\n"
  }

  /** The record that the trace module logs for a call. */
  function Record(pid: int, c: SysCall): string {
    "PID: " + (Format.Decimal(pid) + (", TRACE OPERATION: " + (Operation(c) + Arguments(c))))
  }

  /** What a record says: the number behind `PID: `, the capital letters behind `TRACE OPERATION: `, and the rest. */
  datatype Reading = Reading(pid: int, operation: string, rest: string)

  /** The first character at or after `i` that is no capital letter, or the end. */
  function LettersEnd(t: string, i: nat): (e: nat)
    requires i <= |t|
    ensures i <= e <= |t|
    decreases |t| - i
  {
    if i < |t| && 'A' <= t[i] <= 'Z' then LettersEnd(t, i + 1) else i
  }

  function ReadRecord(r: string): Option<Reading> {
    match Format.Behind(r, "PID: ")
    case None => None
    case Some(t) =>
      var k := IndexOf(t, ',');
      match Format.Behind(t[k..], ", TRACE OPERATION: ")
      case None => None
      case Some(u) =>
        var e := LettersEnd(u, 0);
        Some(Reading(Format.Value(t[..k]), u[..e], u[e..]))
  }

  lemma {:induction false} LettersEndIs(t: string, i: nat, e: nat)
    requires i <= e < |t| && (forall k :: i <= k < e ==> 'A' <= t[k] <= 'Z') && !('A' <= t[e] <= 'Z')
    ensures LettersEnd(t, i) == e
    decreases e - i
  {
    if i < e {
      LettersEndIs(t, i + 1, e);
    }
  }

  lemma LettersThen(word: string, rest: string)
    requires (forall i :: 0 <= i < |word| ==> 'A' <= word[i] <= 'Z') && rest != "" && !('A' <= rest[0] <= 'Z')
    ensures var t := word + rest; LettersEnd(t, 0) == |word| && t[..|word|] == word && t[|word|..] == rest
  {
    LettersEndIs(word + rest, 0, |word|);
  }

  lemma RecordParts(number: string, operation: string, rest: string)
    requires ',' !in number && rest != "" && !('A' <= rest[0] <= 'Z')
    requires forall i :: 0 <= i < |operation| ==> 'A' <= operation[i] <= 'Z'
    ensures ReadRecord("PID: " + (number + (", TRACE OPERATION: " + (operation + rest)))) ==
            Some(Reading(Format.Value(number), operation, rest))
  {
    var u := operation + rest;
    var v := ", TRACE OPERATION: " + u;
    Format.BehindIs("PID: ", number + v);
    Format.EndsAt(number, ',', v);
    Format.BehindIs(", TRACE OPERATION: ", u);
    LettersThen(operation, rest);
  }

  lemma OperationLetters(c: SysCall)
    ensures forall i :: 0 <= i < |Operation(c)| ==> 'A' <= Operation(c)[i] <= 'Z'
    ensures Arguments(c) != "" && !('A' <= Arguments(c)[0] <= 'Z')
  {
  }

  /** What is read in each record: who made the call, which call it was, and on what. */
  lemma RecordSays(pid: int, c: SysCall)
    ensures ReadRecord(Record(pid, c)) == Some(
              match c
              case Open(path, _, _) => Reading(pid, "OPEN", ", FILE/DIR: " + path + "\n")
              case Close(_) => Reading(pid, "CLOSE", "\n")
              case Write(_, data, _) => Reading(pid, "WRITE", ", FILE/DIR: " + CStr(data) + "\n")
              case Rename(oldname, newname) =>
                Reading(pid, "RENAME", ", OLD FILE/DIR: " + oldname + ", NEW FILE/DIR: " + newname + "\n")
              case Rmdir(path) => Reading(pid, "RMDIR", ", FILE/DIR: " + path + "\n")
              case Mkdir(path, _) => Reading(pid, "MKDIR", ", OLD FILE/DIR: " + path + "\n")
              case Link(oldname, newname) =>
                Reading(pid, "LINK", ", OLD FILE/DIR: " + oldname + ", NEW FILE/DIR: " + newname + "\n")
              case Symlink(oldname, newname) =>
                Reading(pid, "SYMLINK", ", OLD FILE/DIR: " + oldname + ", NEW FILE/DIR: " + newname + "\n")
              case Unlink(path) => Reading(pid, "UNLINK", ", FILE/DIR: " + path + "\n"))
  {
    OperationLetters(c);
    RecordParts(Format.Decimal(pid), Operation(c), Arguments(c));
    Format.ValueOfDecimal(pid);
  }

  lemma RecordLength(pid: int, c: SysCall)
    ensures |Record(pid, c)| == 24 + |Format.Decimal(pid)| + |Operation(c)| + |Arguments(c)|
  {
  }

  lemma RecordNulFree(pid: int, c: SysCall)
    requires NUL !in Arguments(c)
    ensures NUL !in Record(pid, c)
  {
    OperationLetters(c);
  }

  /** One record in full. */
  lemma CloseRecord(fd: int)
    ensures Record(7, Close(fd)) == "PID: 7, TRACE OPERATION: CLOSE\n"
  {
    assert Format.Decimal(7) == "7";
  }

  // ----- any module

  /** The answer of a module of a kind; the trace module always answers 0. */
  ghost function Answer(kind: int, c: SysCall, env: Env): int {
    if kind == TRACE_MODULE then 0
    else if kind == PROTECT_MODULE then Protect(c)
    else if kind == ANTIVIRUS_MODULE then Antivirus(c, env)
    else env.foreign
  }
}
