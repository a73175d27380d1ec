# Loadable system calls: a model and its proofs

A router module hooks ten entries of the system-call table. Every task may be bound to one of a set of
loadable modules (trace, protect, antivirus) together with a vector, a bit map of the calls it may make;
a hooked call of a bound task is checked against the vector and handed to the module, and only then goes
on to the original entry. This project models that system and proves what it keeps.

| file | what it models |
|---|---|
| `CString.dfy`, `FileModel.dfy`, `Wrappers.dfy`, `Format.dfy` | NUL-terminated strings in buffers, files with a cursor and full reads, NULL, decimal text and its value |
| `HexText.dfy` | decoding the hex text of a blacklist line |
| `Numbers.dfy` | what it decodes to: the numbers spelled in it |
| `PageScan.dfy` | searching a file for one pattern through overlapping page-sized windows |
| `Blacklist.dfy` | the scanner: refilling, cutting and tokenising the blacklist in place, with the search inside |
| `Lines.dfy` | which lines of a blacklist the scanner looks at |
| `Verdicts.dfy` | what its verdict means for a blacklist of lines, on any file |
| `Refills.dfy` | which blacklists it can be run on |
| `Signatures.dfy`, `Spellings.dfy` | blacklists written from named byte strings, and by hand |
| `Registry.dfy` | the linked list of modules and their reference counts, against a sequence |
| `Bindings.dfy` | the binding of tasks to modules as a transition system, over all runs |
| `Driver.dfy` | the code that changes bindings on the heap, proved against that transition system |
| `Report.dfy`, `ReportReader.dfy` | the report of the GET command, and what is read back from it |
| `Calls.dfy`, `Handlers.dfy`, `SyscallTable.dfy` | hooked calls and vectors, the modules' answers, hooking and unhooking the table |
| `Session.dfy` | whole sessions: hook, any run of binding steps and calls, unhook |
| `SystemMap.dfy` | the search for the table's address in System.map with a line buffer that is never cleared |
| `LogFiles.dfy` | a file that one writer after another writes from its start |
| `TraceLog.dfy` | the trace module's append-or-flush buffer, and its lives on one log file |
| `Tracing.dfy` | what the trace module logs in a session |

`dafny verify dfyconfig.toml` checks everything.

## How the model is built

* The page size is a symbolic `P`, the length of the buffers; the scanner needs `P >= 3`. File sizes are
  below 2^31, since the code keeps them in an `int`.
* Characters of files and buffers are Dafny `char`s; decoded bytes are reduced modulo 256. `strtoul` is the
  kernel's `simple_strtoul` in base 16, `isspace` the kernel's character table.
* The scanner is modelled for every blacklist, not only for well-formed ones. A line that has no line feed or
  NUL within a page of its start is cut to its first character, as `remove_garbage_value` does; the first line
  without a comma ends the scan; a NUL ends the line in front of it and then the scan. Two things remain as
  preconditions, because past them the code has no defined behaviour: `RefillsOk` (no refill that is made fills
  the page to the brim and ends on its last line feed, where no room is left for the terminator and `strlen` runs
  off the page) and `TextsOk` (every line that is looked at, up to the first hit, can be decoded: each group of
  digits moves the cursor of `convert`, which would otherwise write bytes for ever). `Blacklist.UnterminatedIff`
  and `HexText.ConvertEndsIff` tie the two to the code, `Refills.RefillsOkIff` says in terms of line lengths when the
  first one holds, and `HexText.Spelt` character by character when a text can be decoded.
* The flags of an open and the vectors are 32-bit words; O_TRUNC is 0x200, the access mode the two lowest bits.
* `strtoul` skips a `0x` in front of a group, also one that no digit follows.
* A file is opened for the scan with the flags of the call. `Handlers.Opened` empties it when O_TRUNC is among
  them. With flags that do not allow reading a read fails and the code writes in front of its buffer, so for a file
  that is not empty `Handlers.ScanOnOpen` asks for flags that do. A directory is not a device, and reading it fails
  in the same way: the input of the scan is taken to be a device or a regular file.
* A module is a `ModuleReg` with its kind and its reference count; the `struct module` behind it is merged
  into it. A binding is a heap object owned by its task. `Driver.System` holds the globals.
* Each step of the transition system is one call and is taken to be atomic.
* The system-call table is indexed by the x86-64 numbers; an entry is a wrapper or a kernel address.

Assumptions about the kernel, which is not part of the repository: fork gives the child its own, counted copy
of the parent's binding, or none under the clone flag (hw3/README.HW3:147-154, 212-217); a module is unloaded
only at count 0; a module is loaded once and its kind is not yet registered (`add_module` does not check);
`for_each_process` lists live tasks, each at most once, and only the leaders of thread groups; the page of the
trace buffer is zeroed at load; allocations succeed; reads and writes are full. The log file may hold anything
when the trace module is loaded, and keeps what it holds when the module is unloaded.
`Bindings.DuplicateKindDangles`, `Bindings.UnloadSafeIff` and `Bindings.EndWithoutExitGroup` say what breaks
without unique kinds, and without exit_group; `Bindings.LeakExact` says what does not break.

## Where the code and its documentation disagree

The model follows the code.

* hw3/README.HW3:576-579 promises blacklists and files of any size. A page that whole lines fill exactly breaks
  the refill: it is left without a terminator (`Blacklist.UnterminatedIff`, `Refills.RefillsOkIff`,
  `Refills.SafeForEveryFileIff`, `Refills.FullPageBreaks`). A NUL character hides what follows it on its page
  (`PageScan.SeenIffVisible`, `PageScan.NulHides`). A line longer than a page, or a last line without its line
  feed, loses its pattern (`Verdicts.OutOfReachLost`).
* hw3/README.HW3:570-576 says that a reported file contains a pattern. An empty pattern and one with a zero byte
  are reported for files that do not contain them (`Verdicts.LineSoundIff`, `Verdicts.EverythingReportedIff`,
  `Signatures.ZeroByteReportsAll`, `Signatures.ZeroByteCuts`), and a file that the call itself truncates is never
  reported (`Handlers.VirusVerdict`).
* hw3/README.HW3:532-535 promises a log of all calls. Within one life of the module nothing is lost, but a flush
  below the high-water mark also repeats older characters (`TraceLog.ExactIff`, `Tracing.OpenThenClose`), and
  each further life writes over the records of the one before (`TraceLog.LivesKeptIff`, `Tracing.ReloadLosesClose`).
* hw3/README.HW3:564-566 promises the count of each module together with its tasks. A thread that does not lead its
  group is counted but not listed (`Report.CountMatchesLines`, `Report.ThreadNotListed`).
* hw3/README.HW3:522-524 lists READ among the hooked calls; its wrapper is never put into the table.
* hw3/README.HW3:537-540 says that the guarded calls are refused for a protected file. Only the first path of a
  call is tested (`Session.ProtectExact`, `Session.SecondPathUnguarded`), and a write is judged by its data.

## Model

| member | source | states |
|---|---|---|
| `FileModel.File.Read` | hw3/modules/anti_module.c:45-53 | a full read: as many characters as asked for or left, placed at the given index, the rest of the buffer unchanged, the cursor advanced by as many |
| `HexText.Strtoul` | hw3/modules/anti_module.c:64 | the value of the hex digits, behind a `0x` if there is one, and the index where they end |
| `HexText.GetHex` | hw3/modules/anti_module.c:60-66 | skips white space, returns the low byte of the number and the index where it ends |
| `HexText.ConvertEndsIff` | hw3/modules/anti_module.c:78-81 | the loop of `convert` gets to the end of a text exactly when each of its characters is a hex digit, white space, or the `x` behind a `0` that starts a group; on any other text it goes on for ever |
| `HexText.DecodableIff` | hw3/modules/anti_module.c:64 | each group moves the cursor under exactly that condition |
| `HexText.StuckText` | hw3/modules/anti_module.c:78-81 | on `4G` the cursor gets to the `G` and stays there |
| `HexText.Convert` | hw3/modules/anti_module.c:74-83 | on every text on which it comes to an end, writes exactly the decoded text and reports its length, inside the buffer |
| `HexText.DecodeLength` | hw3/modules/anti_module.c:74-83 | a text of length T decodes to at most T/2+1 characters, one bound less behind a separator, so the hex buffer and the page step are always large enough |
| `HexText.DecodePrint` | hw3/modules/anti_module.c:60-83 | decoding undoes printing as two-digit hex with single spaces, for every byte string, in either case |
| `Numbers.CharClasses` | hw3/modules/anti_module.c:63-64 | which characters are white space, which are hex digits, and what each digit is worth |
| `Numbers.SpelledNumbers` | hw3/modules/anti_module.c:60-83 | numbers spelled in hex with any number of digits, leading zeros, either case, `0x` or not, and any white space before and between them decode to their low bytes; white space at the end decodes to one zero byte more |
| `Numbers.SpelledExample` | hw3/modules/anti_module.c:78-81 | "5 0x041 " decodes to 05 41 00 |
| `CString.OccursIff` | hw3/modules/anti_module.c:157 | `strstr` succeeds exactly when the text is some front, the pattern, and some back |
| `CString.CStrEnds` | hw3/modules/anti_module.c:39 | a C string is what stands in front of the first NUL |
| `PageScan.ReadWindow` | hw3/modules/anti_module.c:155-156 | after a read the C string in the window is that of the file's page |
| `PageScan.PageHit` | hw3/modules/anti_module.c:157 | `strstr` on a page succeeds exactly when an occurrence lies inside it with no NUL before it |
| `PageScan.EveryOccurrenceInSomePage` | hw3/modules/anti_module.c:162-166 | stepping back by the decoded length puts every occurrence, also one that straddles a page end, whole into the last page that starts at or before it |
| `PageScan.ScanFile` | hw3/modules/anti_module.c:151-173 | terminates with every access in bounds, and reports a hit exactly when some page that is read shows an occurrence |
| `PageScan.SeenOccurs` | hw3/modules/anti_module.c:157-161 | soundness for every file: what the paged search reports occurs in the file |
| `PageScan.SeenIffOccurs` | hw3/modules/anti_module.c:151-173 | on a NUL-free file the paged search agrees with a search of the whole file, whatever the file length and page size; on an empty file it finds nothing |
| `PageScan.ShownIffVisible` | hw3/modules/anti_module.c:156-166 | on any file, the occurrence at `o` is shown by some page exactly when no NUL stands between `o` and the last page start at or before it, which depends on lengths alone |
| `PageScan.LastStartIs` | hw3/modules/anti_module.c:162-166 | that page starts at a multiple of the window less the decoded length, and the next one starts behind the occurrence unless this one reaches the end of the file |
| `PageScan.SeenIffVisible` | hw3/modules/anti_module.c:151-173 | the paged search of any file succeeds exactly when the file is not empty and some occurrence is visible in that sense |
| `PageScan.NulHides` | hw3/modules/anti_module.c:156-157 | a file on which an occurring pattern is missed, for every window of at least three characters |
| `Blacklist.EndPage` | hw3/modules/anti_module.c:27-38 | whatever the page, puts a terminator behind the last line end if there is room for one |
| `Blacklist.EndedIff` | hw3/modules/anti_module.c:27-38 | that leaves a NUL in the buffer exactly when the page does not fill it to the brim with a line feed at its end and no NUL |
| `Blacklist.UnterminatedIff` | hw3/modules/anti_module.c:37-39 | the page read at a position of a blacklist is left without a NUL, so that `strlen` runs off it, exactly when its refill is a bad one |
| `Blacklist.RemoveGarbageValue` | hw3/modules/anti_module.c:25-40 | on any other page: keeps it up to its first NUL, else through its last line feed, else one character; the kept part is unchanged and terminated |
| `Blacklist.RefillLoads` | hw3/modules/anti_module.c:117-122 | what a refill keeps is NUL-free and ends with a line feed, in front of a NUL, or is the one character of a line out of reach |
| `Blacklist.NextLine` | hw3/modules/anti_module.c:124-139 | the piece `strsep` cuts off is the whole line of the file at that position, whichever refill it came with, and the rest starts at the next line |
| `Blacklist.Strsep` | hw3/modules/anti_module.c:126-134 | ends the string at the first separator, the rest follows it, nothing behind is changed |
| `Blacklist.TakeLine` | hw3/modules/anti_module.c:126-134 | cuts a line and its name off in place; the C string that then stands in the page is the line |
| `Blacklist.FetchLine` | hw3/modules/anti_module.c:115-149 | one turn of the tokeniser moves from one line start to the next, with the file cursor just behind what is kept; the C string taken from the page is the line at that position, and its text is left in the page |
| `Blacklist.SearchPattern` | hw3/modules/anti_module.c:141-161 | decodes the line and reports exactly whether the paged search sees its pattern |
| `Blacklist.CheckInBlacklist` | hw3/modules/anti_module.c:90-187 | terminates with every access in bounds; true exactly when a line that is looked at is a hit; the lines taken from the page are the file's lines in order, none split, lost or repeated, all of them, or on a hit those up to and including the first hit |
| `Blacklist.ScannedSays` | hw3/modules/anti_module.c:112-161 | the same in full: the verdict is a hit among the lines to be looked at; without one all of them were taken, else those up to and including the first hit |
| `Lines.LinesInOrder` | hw3/modules/anti_module.c:112-139 | for a file of lines that fit a page, the lines looked at are its own lines up to the first one without a comma |
| `Lines.LinesExact` | hw3/modules/anti_module.c:112-149 | they are the first k + 1 lines when line k is the first one without a comma, and all lines when each has one |
| `Lines.LinesBeforeNul` | hw3/modules/anti_module.c:25-40 | with a NUL in the blacklist they end with the part of the line in front of it |
| `Lines.LinesBeforeCut` | hw3/modules/anti_module.c:25-40 | behind such lines, one that is out of reach is looked at as its first character |
| `Verdicts.VerdictExact` | hw3/modules/anti_module.c:90-187 | on any file the verdict is positive exactly when the file is not empty and some line before the first comma-less one decodes to a pattern that is visible in it |
| `Verdicts.VerdictNulFree` | hw3/modules/anti_module.c:90-187 | on a NUL-free file the verdict is positive exactly when the file is not empty and some line before the first comma-less one decodes to a pattern that occurs in the whole file |
| `Verdicts.VerdictSound` | hw3/modules/anti_module.c:155-161 | a positive verdict on any file, when the patterns are non-empty and zero-free, names a line before the first comma-less one whose whole pattern occurs in the file |
| `Verdicts.LineSoundIff` | hw3/modules/anti_module.c:143-161 | hits of a line mean that its non-empty pattern occurs, for all files, exactly when the pattern is non-empty and zero-free |
| `Verdicts.EverythingReportedIff` | hw3/modules/anti_module.c:143-161 | every non-empty file is reported exactly when some line before the first comma-less one decodes to nothing or to a zero byte first |
| `Verdicts.OutOfReachLost` | hw3/modules/anti_module.c:25-40 | an over-long line or an unterminated last line adds nothing to the verdict, unless it starts with its comma: then every non-empty file is reported |
| `Verdicts.NulEnds` | hw3/modules/anti_module.c:25-40 | a blacklist with a NUL in it gives the verdict of the one that ends there with a line feed |
| `Refills.RefillsOkIff` | hw3/modules/anti_module.c:37-38 | for a file and a blacklist, no refill that is made runs off the page exactly when packing the lines into pages, up to the page in which the scan ends, never fills one to the brim |
| `Refills.SafeForEveryFileIff` | hw3/modules/anti_module.c:37-38 | a blacklist is safe for every file exactly when that holds with the scan ended by comma-less lines alone |
| `Refills.FullPageBreaks` | hw3/modules/anti_module.c:37-39 | for a single line that takes up the whole page, the page read holds no NUL after the terminating step |
| `Refills.EndsBeforeFullPage` | hw3/modules/anti_module.c:146-149 | such a line behind a page that holds a comma-less one is never read |
| `Refills.OutOfReachRuns` | hw3/modules/anti_module.c:25-40 | with a line out of reach behind good lines the scanner can be run exactly when it can be run on the good lines, unless that line starts with its comma and the file is empty |
| `Signatures.SignatureScan` | hw3/modules/anti_module.c:90-187 | for any file, a blacklist written from named byte strings gives a positive verdict exactly when the file is not empty and shows one of them, up to its first zero byte |
| `Signatures.SignatureScanNulFree` | hw3/modules/anti_module.c:90-187 | for a NUL-free file and zero-free byte strings, exactly when one of them occurs in it |
| `Signatures.ZeroByteReportsAll` | hw3/modules/anti_module.c:143-157 | a signature of one zero byte has every non-empty file reported |
| `Signatures.ZeroByteCuts` | hw3/modules/anti_module.c:144-157 | the file "A" is reported for the signature 41 00 42 |
| `Signatures.SignatureTexts` | hw3/modules/anti_module.c:141-145 | every line written for a signature can be decoded |
| `Signatures.BlacklistExample` | hw3/modules/anti_module.c:124-145 | the blacklist for one signature, character by character |
| `Spellings.SpelledLine` | hw3/modules/anti_module.c:124-145 | the line of a name, a comma, and spelled numbers has the bytes of those numbers as its pattern |
| `Spellings.SpelledScan` | hw3/modules/anti_module.c:90-187 | for a NUL-free file and numbers none of which is worth zero, the verdict on such lines is positive exactly when the file is not empty and the bytes of one line occur in it, however they are spelled |
| `Signatures.ScanForSignatures` | hw3/modules/anti_module.c:90-187 | the scanner itself, on a blacklist of signatures whose lines never fill a page, finds exactly the files that show one |
| `Handlers.ScanOnOpen` | hw3/modules/anti_module.c:189-257 | 0 when a file cannot be opened or is a device, else -1 exactly on a positive verdict on the file as the caller's flags open it, and 0 otherwise |
| `Handlers.VirusVerdict` | hw3/modules/anti_module.c:207-242 | for a blacklist of signatures the open of a regular file is refused exactly when 0x200 is not among its flags and the file is not empty and shows a signature |
| `Handlers.VirusVerdictNulFree` | hw3/modules/anti_module.c:207-242 | for a NUL-free file and zero-free signatures, exactly when 0x200 is not among its flags and one of them occurs in the file, which is not empty |
| `Registry.List.AddModule` | hw3/bitmap.c:74-106 | appends to the sequence of modules; the list stays acyclic |
| `Registry.List.RemoveModule` | hw3/bitmap.c:108-134 | takes out the first module of the kind and keeps the order of the others |
| `Registry.List.GetModule` | hw3/bitmap.c:136-153 | null exactly when no module is of the kind, else the first one that is |
| `Registry.LookupIff` | hw3/bitmap.c:136-153 | the same of the sequence of modules: nothing is found exactly when no module is of the kind, else the first that is |
| `Registry.FirstAt` | hw3/bitmap.c:108-153 | with the index of the first module of the kind given: what is found is that module, and removal takes out that index and keeps the order; without one nothing is found or removed |
| `Registry.List.IncrementRc` | hw3/bitmap.c:155-171 | one more for a module in the list, nothing for any other |
| `Registry.List.DecrementRc` | hw3/bitmap.c:173-192 | one less, never below zero, for a module in the list, nothing for any other |
| `Registry.WithoutIs` | hw3/bitmap.c:108-134 | with unique kinds, removal by kind takes out exactly the one module and keeps kinds unique |
| `Bindings.CountPositive` | hw3/bitmap.c:185-191 | a bound task's module always has a positive count, so the guard never suppresses a decrement |
| `Bindings.SetOutcome` | hw3/ioctl_device.c:13-46 | with `i` the index of the first module of the kind: vector 0 clears, another vector binds to that module with that vector, and without such a module or task nothing changes; the count of the module left falls by one, that of the module bound to rises by one, no other task or count changes |
| `Bindings.SetKeeps` | hw3/ioctl_device.c:13-46 | setting, switching and clearing keep what every count exceeds the number of bound tasks by |
| `Bindings.ReleaseKeeps` | hw3/syscall_new.c:47-56 | exit_group leaves the task unbound, and every count's excess over its bound tasks as it was |
| `Bindings.InheritKeeps` | hw3/README.HW3:147-154 | inheriting a binding at fork keeps every count's excess over its bound tasks |
| `Bindings.StepKeeps` | hw3/ioctl_device.c:13-43 | every step keeps: unique kinds, exact counts, every bound task's module registered, no bound task with vector 0 |
| `Bindings.ReachableInv` | hw3/main.c:4-22 | from the state with nothing registered and nothing bound, over every run of loading, unloading, setting, exiting, forking and cloning: unique kinds, each count the number of tasks bound to the module, every bound task's module registered, no bound task with vector 0 |
| `Bindings.BindingPersists` | hw3/ioctl_device.c:21-43 | over any run that does not touch a task it keeps its binding, and the module stays registered with a positive count |
| `Bindings.Clone2Outcome` | hw3/sys_clone2.c:63-68 | the child ends with the first module of the kind and the vector, with none for vector 0, and with the inherited binding when no module is of the kind; only the module it ends up with gains a count; when the fork fails nothing changes |
| `Bindings.EndWithoutExitGroup` | hw3/syscall_new.c:47-58 | a task that ends other than through exit_group leaves the counts exact exactly when it was unbound |
| `Bindings.LeakExact` | hw3/syscall_new.c:47-58 | over every run, with tasks that end without exit_group, each count exceeds the number of bound tasks by exactly the number of its tasks that ended so, and every bound task's module is registered |
| `Bindings.LeakedStaysLoaded` | hw3/syscall_new.c:47-58 | from the initial state a module with one such task can never be unloaded again |
| `Bindings.LeakHappens` | hw3/syscall_new.c:47-58 | a run from the initial state in which a bound task ends without exit_group: the count stays 1 with no task bound |
| `Bindings.UnloadSafeIff` | hw3/main.c:15-22 | kinds unique or not, unloading an unused module leaves all bound modules registered exactly when nobody is bound to the first module of that kind |
| `Bindings.DuplicateKindDangles` | hw3/bitmap.c:74-106 | with two modules of one kind, unloading the unused one leaves a task bound to a removed module |
| `Driver.System.GetIoctlHelper` | hw3/ioctl_device.c:6-47 | the heap after the call stands for the state the set step gives |
| `Driver.System.NewExitGroup` | hw3/syscall_new.c:47-56 | the heap after the call stands for the state with the caller's binding given back |
| `Driver.System.DoFork` | hw3/README.HW3:212-217 | the assumed effect of fork: a new task with its own counted copy of the binding, or with none |
| `Driver.System.SysClone2` | hw3/sys_clone2.c:63-68 | fork followed by the set step, also when the fork fails |
| `Driver.System.ModuleRegister` | hw3/main.c:6-12 | the new module stands last with count 0 |
| `Driver.System.ModuleDeregister` | hw3/main.c:15-22 | the first module of the kind is gone, all counts of the others stay |
| `Driver.System.StartsInit` | hw3/main.c:4 | a heap with no module and no binding stands for an initial state |
| `Report.ReportTasks` | hw3/bitmap.c:37-61 | appends one line for each listed task, in process order, bound to a module of the kind |
| `Report.GetVector` | hw3/bitmap.c:3-70 | the text of all modules in list order, each with its count and its lines |
| `Report.SectionExact` | hw3/bitmap.c:37-61 | in every reachable state a module's section has exactly one line for each listed task bound to it, with that task's vector, and no other |
| `Report.CountMatchesLines` | hw3/bitmap.c:29-37 | the count printed for a module is at least the number of lines below it, and equal to it exactly when the walk lists every task bound to the module |
| `Report.ThreadNotListed` | hw3/bitmap.c:29-37 | a reachable state in which the count is 2 and one line stands below it |
| `Report.ReportedUnderOwnModule` | hw3/bitmap.c:40-45 | a listed bound task appears under its own module and no other, an unbound one nowhere |
| `ReportReader.ReportSays` | hw3/bitmap.c:22-66 | read back line by line, the report has one entry for each module in list order with its kind and count, and below it a task and a vector exactly when the task is listed and bound to that module with that vector, read as an int |
| `ReportReader.ReportOrder` | hw3/bitmap.c:37-61 | the tasks of an entry stand in the order of the walk, each once |
| `ReportReader.ReportExample` | hw3/bitmap.c:24-59 | the report of one module of kind 1 with task 7 and vector 3, character by character |
| `Format.ValueOfDecimal` | hw3/bitmap.c:25 | `%d`: read from left to right the text has the value it was written for, no leading zero, and a sign exactly when that is negative |
| `Calls.VectorAllows` | hw3/syscall_new.c:18-25 | a vector built from a list of bits allows exactly those bits |
| `Calls.OwnBit` | hw3/module.h:10-21 | the bit of each call: open 0x1, close 0x2, write 0x8, rename 0x10, rmdir 0x20, mkdir 0x40, link 0x80, symlink 0x100, unlink 0x200 |
| `Calls.VectorPermits` | hw3/syscall_new.c:18-25 | a vector built for a list of calls permits exactly the calls in it |
| `Calls.VectorBits` | hw3/module.h:10-21 | and holds exactly their bits |
| `SyscallTable.Router.SetSystemCalls` | hw3/syscall_new.c:236-262 | each of the ten entries holds its own wrapper, its old value is saved under its own call, no other entry changes |
| `SyscallTable.Router.DestroyNewSystemCalls` | hw3/syscall_new.c:264-278 | each of the ten entries holds what was saved for it, no other entry changes |
| `SyscallTable.HookThenUnhook` | hw3/syscall_new.c:236-278 | hooking and unhooking give back the whole table |
| `SyscallTable.EntryOf` | hw3/syscall_new.c:236-262 | the entry of each call: open 2, close 3, write 1, rename 82, mkdir 83, rmdir 84, link 86, unlink 87, symlink 88 |
| `SyscallTable.HookedEntries` | hw3/syscall_new.c:250-262 | which wrapper each of the ten entries holds, by number; every other entry is unchanged |
| `SyscallTable.SavedEntries` | hw3/syscall_new.c:236-249 | which old entry is kept under which call, by number |
| `Session.HookedCall` | hw3/syscall_new.c:61-143 | call by call, with its entry and its bit: unbound it reaches the entry its number had before hooking; without its bit it is refused with -95; if the module objects it is refused with the module's answer; else it reaches that entry |
| `Session.CallOutcome` | hw3/syscall_new.c:27-45 | what such a call by a task adds to the log: itself with the old entry, or nothing |
| `Session.SessionExact` | hw3/syscall_new.c:27-45 | over every session the calls that reach the kernel are exactly the permitted ones, in order, each through its own old entry, and the bindings are those of the transition system |
| `Session.EverySessionRuns` | hw3/syscall_new.c:236-262 | whatever the callers may do in the transition system can be run wherever the table has been hooked |
| `Session.SessionRestores` | hw3/syscall_new.c:264-278 | hooking, any run, unhooking leave the whole table as it was |
| `Session.SessionInv` | hw3/syscall_new.c:47-58 | from the state the driver is loaded in, calls and binding steps together keep the counts exact and bound modules registered, in every hooked world |
| `Session.ProtectedNeverReached` | hw3/modules/protect_module.c:6-131 | over every session a task bound to protect never reaches the original open, unlink, rmdir, rename, link or symlink with a protected first path, nor the original write with data that contains the mark |
| `Session.ProtectExact` | hw3/modules/protect_module.c:86-131 | call by call what a task bound to a module of kind 2 may do: its bit is set, and the first path of an open, unlink, rmdir, rename, link or symlink, or the data of a write, does not contain ".protected"; the module answers -1 or 0 |
| `Session.SecondPathUnguarded` | hw3/modules/protect_module.c:63-72 | a call that shows the gap: a rename onto a protected path, let through |
| `Session.InfectedNeverOpened` | hw3/modules/anti_module.c:260-290 | over every session a task bound to antivirus never reaches the original open of a file with a positive verdict |
| `Session.SignaturesNeverOpened` | hw3/modules/anti_module.c:189-290 | over every session such a task never opens a regular file that shows a signature of the blacklist, unless the open truncates it |
| `Session.AntivirusExact` | hw3/modules/anti_module.c:189-290 | a call of a task bound to a module of kind 3 goes through exactly when its bit is set and, if it is an open, both files can be opened and the file is no device, the verdict on the file, empty under 0x200, is not positive; the module answers -1 or 0 |
| `Session.AntivirusOpens` | hw3/modules/anti_module.c:189-290 | with a blacklist of signatures: on its bit alone, unless it opens a regular file without 0x200 that is not empty and shows a signature |
| `Session.TraceExact` | hw3/modules/trace_module.c:216-277 | a call of a task bound to a module of kind 1 goes through on its bit alone |
| `Session.UndisturbedEntries` | hw3/syscall_new.c:186-234 | whatever others do, a task nobody disturbs has exactly those calls carried out that the binding it started with permits |
| `SystemMap.BufferMatchesLine` | hw3/syscall_intercept.c:74-76 | when a line feed arrives the buffer contains the pattern exactly when the line does, whatever stands behind it |
| `SystemMap.BufferWord` | hw3/syscall_intercept.c:87 | the first word of the buffer is the line's part before its first space |
| `SystemMap.LineDone` | hw3/syscall_intercept.c:74-99 | a finished line either matches and is the first to do so, or leaves a buffer in which nothing stale can match |
| `SystemMap.FindSysCallTable` | hw3/syscall_intercept.c:73-101 | stops at exactly the first terminated line that contains the pattern and takes its first word; reports none exactly when no line has it; only what is read needs short lines and no NUL |
| `SystemMap.StopsAtMatch` | hw3/syscall_intercept.c:76-94 | a map is read no further than its first match, whatever stands behind it |
| `SystemMap.ReadExactly` | hw3/syscall_intercept.c:73-94 | a map is read exactly to the end of its first match, and to its end when there is none |
| `SystemMap.MatchesIff` | hw3/syscall_intercept.c:76 | a line matches exactly when "sys_call_table" stands in it |
| `SystemMap.TableFound` | hw3/syscall_intercept.c:73-94 | in a map whose first line with "sys_call_table" is a word, a space and the rest, there is a first match and the word taken is that word |
| `TraceLog.TraceModule.constructor` | hw3/modules/trace_module.c:285-292 | load opens the file at its start without truncating it, with an empty log |
| `TraceLog.TraceModule.Trace` | hw3/modules/trace_module.c:22-31 | appends the record, flushing first exactly when it does not fit |
| `TraceLog.TraceModule.WriteOut` | hw3/modules/trace_module.c:307-314 | a flush writes the buffer up to the high-water mark at the file position, over what stands there |
| `TraceLog.TraceModule.Exit` | hw3/modules/trace_module.c:294-298 | unload flushes once more if anything is in the buffer |
| `TraceLog.TraceLife` | hw3/modules/trace_module.c:285-314 | load, any records, unload: the file starts with what this life wrote, and behind it keeps what it held before |
| `TraceLog.TraceLives` | hw3/modules/trace_module.c:285-314 | any number of lives: the file holds their texts one over the other |
| `TraceLog.NothingLost` | hw3/modules/trace_module.c:17-33 | in one life, without the ends beyond their used lengths the blocks are all records in call order |
| `TraceLog.FlushLengths` | hw3/modules/trace_module.c:23-27 | each flush is as long as the largest used length since load |
| `TraceLog.StaleEnd` | hw3/modules/trace_module.c:23-29 | what a flush writes beyond the records of its round is what the flush before it wrote there |
| `TraceLog.ExactIff` | hw3/modules/trace_module.c:23-29 | what a life writes is exactly all its records if and only if packing the records, by their lengths, into rounds of a page never gives a shorter round after a longer one |
| `TraceLog.StaleCharactersAppear` | hw3/modules/trace_module.c:23-29 | a shorter record that no longer fits is followed in the file by the end of the longer one before it |
| `TraceLog.OneFlush` | hw3/modules/trace_module.c:22-31 | records that fit the page together are written by one flush |
| `LogFiles.LastWriter` | hw3/modules/trace_module.c:287-297 | each character of the file is the one written by the last life that wrote that far |
| `LogFiles.NoneLostIff` | hw3/modules/trace_module.c:287-297 | nothing that stood in the file or was written to it is lost if and only if at most one of these texts is not empty |
| `TraceLog.LivesKeptIff` | hw3/modules/trace_module.c:287-297 | for the lives of the module: if and only if at most one life has records, and none has if the file was not empty |
| `TraceLog.OneLifeExactIff` | hw3/modules/trace_module.c:285-314 | with one life that has records and an empty file, the file is exactly the records if and only if its rounds never shrink |
| `Tracing.TraceMatchesLog` | hw3/modules/trace_module.c:216-277 | the trace module records exactly the calls of its tasks that the kernel carries out, in order |
| `Tracing.TracedSnoc` | hw3/modules/trace_module.c:216-277 | one more call in the log adds its record exactly when its task was bound to a module of kind 1 |
| `Tracing.LivesStep` | hw3/modules/trace_module.c:285-299 | an unload of a module of kind 1 ends a life, and no other step does |
| `Handlers.RecordSays` | hw3/modules/trace_module.c:22-198 | read back, each record says who made which call and on which path or paths, or what data |
| `Handlers.CloseRecord` | hw3/modules/trace_module.c:62 | the record of a close by task 7, character by character |
| `Tracing.TracedWhileLoaded` | hw3/modules/trace_module.c:286-299 | in states that meet the invariant a call is recorded only while a trace module is loaded |
| `Tracing.LivesAreRecords` | hw3/modules/trace_module.c:285-299 | splitting a session at the unloads of the trace module puts every record into exactly one life, in order |
| `Tracing.TraceFileOfSession` | hw3/modules/trace_module.c:285-314 | over every session, reloads included: the lives hold the records of exactly those calls, the used parts of what each writes are its records, and from an empty file all of it is in the file if and only if at most one life has records |
| `Tracing.OpenThenClose` | hw3/modules/trace_module.c:22-29 | two records as the module writes them after which the file repeats the end of the first |
| `Tracing.ReloadLosesClose` | hw3/modules/trace_module.c:287 | two records around a reload, of which the first is gone |

## Left out

- Device setup and teardown, `copy_from_user`, `copy_to_user`, `filp_open`, cr0 and `printk`: kernel plumbing.
- Allocation failures: `add_module` goes on after one, so success is assumed.
- The antivirus scan of a directory: its reads fail, and the code has no defined behaviour then.
- `va_arg` unpacking: a call is a value with its arguments; the order in which two arguments are unpacked is not modelled, and records show two paths in the order of the call.
- Interleavings inside a step: exit_group and clone2 do not take the mutex that the SET and GET commands take.
- The tasks that `for_each_process` lists, and their order, are a parameter of the report; the page that holds the report is taken to be empty and large enough.
- `Handlers.CheckForVirus`: gives the scanner's verdict for every blacklist and all flags, also for those on which the scanner has no defined behaviour; `Handlers.ScanOnOpen` computes it under the scanner's conditions.
- `SystemMap.FindSysCallTable`: needs lines under 255 characters and no NUL in what is read, as the buffer holds 256; the word is not turned into an address, and for a line without a space it is only known to start with the line.
- `acquire_kernel_version` and the path of System.map: string plumbing around one file name.
- `TraceLog.TraceModule.Trace`: needs a record shorter than the page, as `sprintf` writes it into one.
- `new_read` and `trace_read`: never reached, since the table's read entry is not hooked.
- hw3/jump_cp.c and hw3/newioctl_device.c are not built; user programs and scripts hold no state.
