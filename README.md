# lua-proc process enumeration, modelled in Dafny

This project models the C core of lua-proc, a Lua module that lists the
processes of a Linux machine, finds them by name and signals them:

- `src/dlist.h`, the intrusive circular doubly-linked list the records are
  kept on (module `DList`);
- `src/info.c`, the process record (pid, own copy of the name, list node)
  and its creation and destruction (module `Info`);
- `src/proc.c`: `chomp`, the Linux `/proc` enumerator
  `procI_get_proclist`, and the loops of `proc.list`, `proc.pidof` and
  `proc.killall` that drain its list (module `Proc`), with the C string
  functions they rely on in module `CStr`.

Every node of every list lives in an arena (`DList.Arena`): `next[i]` and
`prev[i]` are node i's two pointer fields, and `NIL` is the null pointer.
A record and its embedded list node share an index, so `dlist_get_entry` is
the identity. The header's operations are methods that write those arrays
in the order the C writes the fields. Each is proved against a pure function
of the link table (`Insert`, `Bypass`, `SpliceLinks`, ...). Each is also
proved against the ring's contents: `RingIn(t, h, s)` says the ring through
head `h` holds the entries `s`, in order from `h->next`.

The heap of records (`Info.Heap`) maps each live index to its `Info(pid,
name)`. `free` removes an index. What the allocator answers is an input: the
record calloc returns (or `NIL`), and whether strdup succeeds.

The file system is replaced by the sequence of outcomes `readdir` would
give, one `Proc.Entry` per directory entry. The kill system call is
replaced by the set of pids it fails for. The
enumerator's specification is `Proc.Enumerate`. It fails when some
accepted entry's record cannot be built, and otherwise lists one record per
accepted entry in directory order. The three consumers are proved to
return, respectively, those records, the pids of the records whose name
compares equal under `strcmp`, and the pids signalled with the failure
flag. Every record is freed again.

The model follows the code on these points:
- Record creation fails when either calloc or strdup fails, not only
  strdup.
- Creation reports failure only through a null record, never through its
  return code (see Findings).
- `procI_info_destroy` is not idempotent on a record that was already
  freed. `Info.Heap.Destroy` therefore requires a null or live record.

## Model

| member | source | states |
|---|---|---|
| DList.Arena.constructor | src/dlist.h:7-11 | a fresh arena of `size` nodes, all links null |
| DList.Arena.Init | src/dlist.h:13-21 | DLIST_DECLARE/DLIST_INIT: both links of `x` point to `x`, and the ring at `x` is empty |
| DList.Arena.InsertBetween | src/dlist.h:29-36 | dlist_add__ performs exactly the four stores of `Insert` |
| DList.Arena.Add | src/dlist.h:47-51 | dlist_add: the table becomes `Insert(t, x, h, h->next)` and the ring's contents become `[x] + s` |
| DList.AddPrepends | src/dlist.h:47-51 | inserting an unlinked node after the head yields the ring `[x] + s` |
| DList.Arena.AddTail | src/dlist.h:62-66 | dlist_add_tail: the table becomes `Insert(t, x, h->prev, h)` and the contents become `s + [x]` (queue order) |
| DList.AddTailAppends | src/dlist.h:62-66 | inserting an unlinked node before the head yields the ring `s + [x]` |
| DList.Arena.Unlink | src/dlist.h:75-80 | dlist_delete__ performs exactly the two stores of `Bypass` |
| DList.BypassRemoves | src/dlist.h:75-80 | dlist_delete__ on the neighbours of the k-th entry yields the ring without that entry, the others in the same order |
| DList.Arena.Delete | src/dlist.h:90-96 | dlist_delete: the entry leaves its ring, the others keep their order, its links become null, and no node outside the ring changes |
| DList.Arena.DeleteAndInit | src/dlist.h:104-109 | dlist_delete_and_init: the entry leaves its ring, the others keep their order, and it becomes an empty ring of its own |
| DList.Arena.Move | src/dlist.h:117-122 | dlist_move: the table becomes `MoveLinks`; the entry becomes the first of the ring at `h`, and the source ring keeps the rest in order |
| DList.MoveWithinRing | src/dlist.h:117-122 | moving an entry to its own ring's head makes it the first entry, the others in order |
| DList.MoveAcrossRings | src/dlist.h:117-122 | moving between rings with no common node: the source loses exactly the entry and the destination gains it in front |
| DList.Arena.MoveTail | src/dlist.h:132-137 | dlist_move_tail: as Move, but the entry becomes the last of the ring at `h` |
| DList.MoveTailWithinRing | src/dlist.h:132-137 | moving an entry to the tail of its own ring keeps the others in order |
| DList.MoveTailAcrossRings | src/dlist.h:132-137 | moving to the tail of a disjoint ring: the source loses exactly the entry and the destination gains it at the end |
| DList.Arena.IsEmpty | src/dlist.h:146-150 | dlist_is_empty is true exactly when the ring has no entries |
| DList.Arena.SpliceRaw | src/dlist.h:152-163 | dlist_splice__ performs the four stores of `SpliceLinks` and the ring at `head` becomes `ls + hs` |
| DList.SpliceJoins | src/dlist.h:152-163 | joining a non-empty ring after a disjoint head yields the ring `ls + hs`: none dropped, none duplicated, order kept |
| DList.Arena.Splice | src/dlist.h:172-179 | dlist_splice: nothing changes for an empty `list`; otherwise the ring at `head` becomes `ls + hs` and `list`'s own links are left stale |
| DList.Arena.SpliceAndInit | src/dlist.h:190-205 | dlist_splice_and_init: as Splice, and `list` is left an empty ring |
| DList.RingSymmetric | src/dlist.h:7-11 | in every ring, the head included, `x->next->prev == x` and `x->prev->next == x`, and both neighbours are in the same ring; so every method that ends in a ring keeps link symmetry |
| DList.RingUnique | src/dlist.h:7-11 | the links determine the ring's contents: a head has only one content sequence |
| DList.RingWalk | src/dlist.h:228-232 | following `next` k + 1 times from the head reaches the k-th entry, and the head right after the last |
| DList.Arena.Foreach | src/dlist.h:228-232 | dlist_foreach visits exactly the ring's entries, in order, and stops at the head |
| DList.Arena.ForeachSafe | src/dlist.h:244-248 | dlist_foreach_safe with a body that deletes the current entry visits every entry once, in order, and leaves the ring empty and every visited entry unlinked; no node other than the head and the entries has its links changed |
| DList.DrainStep | src/dlist.h:244-248 | the successor saved before deleting the current entry is the next entry, and the loop's state is kept |
| DList.ChainStep | src/dlist.h:244-248 | when the body re-initialises the current entry instead, the `next` links of the entries ahead still lead, in order, back to the head |
| CStr.CStringSpec | src/proc.c:31 | the C string in a buffer is a NUL-free prefix of it, which ends at a NUL or at the end of the buffer |
| CStr.CStringUnique | src/proc.c:31 | any NUL-free prefix that ends at a NUL or at the end of the buffer is the C string |
| CStr.StrLen | src/proc.c:31 | strlen returns the index of the first NUL, and the characters before it are the C string |
| Info.Heap.Create | src/info.c:8-27 | returns 0 on every path; the record is null exactly when calloc or strdup fails; on success it is live with the given pid and name and is an empty ring of its own; on failure the heap is as before |
| Info.Heap.Destroy | src/info.c:29-37 | a null record changes nothing; otherwise the record's node is re-initialised and the record is no longer live |
| Proc.ChompedSpec | src/proc.c:28-35 | chomp drops one trailing newline and nothing else: the result differs from the input exactly when the input ends in a newline, and then by that newline only |
| Proc.ChompedUndoesNewline | src/proc.c:28-35 | only one newline goes: a string with one newline added chomps back to itself |
| Proc.Chomp | src/proc.c:28-35 | the C string in the buffer becomes the chomped C string, and no character other than the final newline's changes |
| Proc.ReadName | src/proc.c:118-119 | reading the comm file into the cleared buffer and chomping it leaves the chomped C string of the file's contents |
| Proc.Kept | src/proc.c:107-118 | the accepted entries are no more than the input entries (which ones are kept is stated by KeptMembers, their order by KeptConcat) |
| Proc.KeptMembers | src/proc.c:107-118 | an entry is kept exactly when it is in the input and passes every test (stat, directory, pid parse, comm opens, read) |
| Proc.SkippedEntryIgnored | src/proc.c:107-118 | an entry that fails any of those tests changes nothing about the enumeration's outcome, wherever it appears |
| Proc.KeptConcat | src/proc.c:106 | selecting the entries of a concatenation selects from each part in turn, so directory order is kept |
| Proc.SelectedExactly | src/proc.c:119-123 | a record is listed exactly when some accepted entry has that pid and that chomped name |
| Proc.AsWrittenLoop | src/proc.c:106-123 | the loop as written either dereferences NULL or returns 0 with the records built so far still at the front of its list; its -1 branch is never taken |
| Proc.EnumerateAsWritten | src/proc.c:90-149 | procI_get_proclist as written returns 0 whenever it returns at all |
| Proc.AsWrittenLoopOutcome | src/proc.c:106-132 | the loop as written crashes exactly when some record cannot be built, and otherwise lists the selected records |
| Proc.AsWrittenNeverFails | src/proc.c:120-122 | the enumerator as written never returns -1; it dereferences NULL exactly when the specification says it should fail |
| Proc.AsWrittenCrashExample | src/proc.c:120-123 | one readable process whose record calloc cannot allocate makes the loop as written dereference NULL |
| Proc.ReadInto | src/proc.c:118 | read stores the comm file's characters at the front of the buffer and leaves the rest of it as it was |
| Proc.ReadAndCreate | src/proc.c:118-120 | reading, chomping and procI_info_create return 0; the record is null exactly when calloc or strdup fails, and otherwise is the allocator's slot holding the entry's pid and chomped name; the ring at the head is kept and no link outside that slot changes |
| Proc.Admit | src/proc.c:118-123 | an accepted entry's record is appended at the tail of the ring; a null record sends the loop to the rollback; only the head, the ring's records and the new record have their links written |
| Proc.Clear | src/proc.c:129 | memset leaves every character of the name buffer NUL |
| Proc.Visit | src/proc.c:107-130 | one pass of the loop: skipped entries leave the heap and every link as they were; an accepted entry writes only the links of the head, the ring's records and its own record; the name buffer is cleared where the source clears it |
| Proc.GetProcList | src/proc.c:90-149 | returns 0 or -1, and -1 exactly when the enumeration fails, with the heap as before; on 0 the ring holds one new record per accepted entry, in directory order; no link other than the head's and the allocated records' is written |
| Proc.Rollback | src/proc.c:140-143 | destroys every record in the ring, each once, and writes no link outside those records |
| Proc.DestroyAndStep | src/proc.c:140-143 | procI_info_destroy on the current record followed by the cursor step of dlist_foreach_safe frees one more record, moves the cursor to the next entry (the head after the last), keeps the entries ahead chained in order and writes no link outside the ring's records |
| Proc.SameCStringCompare | src/proc.c:241 | strcmp returns 0 exactly when both buffers start with the same NUL-free characters and both stop right after them, at a NUL or at the end of the buffer |
| Proc.PidsNamedExactly | src/proc.c:179 | a pid is reported exactly when some record with that pid has a name equal to the target under strcmp |
| Proc.PidsNamedSnoc | src/proc.c:239-249 | one more record adds its pid at the end exactly when its name matches |
| Proc.DrainList | src/proc.c:206-219 | every record of the ring goes into the table, in list order, and every record is freed; no link outside the records is written |
| Proc.DrainPidof | src/proc.c:239-249 | the table holds the pids of the matching records, in list order, and every record is freed; no link outside the records is written |
| Proc.KillStep | src/proc.c:177-183 | one pass of the killall loop keeps the attempted pids and the failure flag in step with the records visited |
| Proc.DrainKill | src/proc.c:177-183 | the signal is attempted for every matching record, in order, carrying on after failures; the flag is set exactly when some attempt failed; every record is freed; no link outside the records is written |
| Proc.List | src/proc.c:191-221 | an error when enumeration fails; otherwise the records of the enumeration in list order; the heap ends as it began, and no link other than the head's and the allocated records' is written |
| Proc.Pidof | src/proc.c:223-251 | an error when enumeration fails; otherwise the pids of the records named `target`, in list order; the heap ends as it began, and no link other than the head's and the allocated records' is written |
| Proc.Killall | src/proc.c:161-189 | an error when enumeration fails, with no signal sent; otherwise every matching pid is attempted, and the reply is the "proclist" error exactly when some attempt failed, 0 otherwise; the heap ends as it began, and no link other than the head's and the allocated records' is written |

## Left out

- The Lua binding (`luaopen_proc`, the function table, `lua_push*`, `luaL_check*`, `pusherror`, `pushresult`, `proc_kill`): it calls into a host API. The consumers return their results as values instead. An error carries only its message prefix, without `strerror(errno)` and the errno value.
- The kill system call is the set `refused` of pids it fails for. The signal number, with its `SIGTERM` default, is decided in the binding and does not affect the control flow.
- File system I/O (`opendir`, `readdir`, `stat`, `open`, `read`, `close`, `closedir`, `sprintf` into the path buffer) and `strtoul`/`errno`: these are system calls. Each directory entry is the record of their outcomes. A pid that `strtoul` parses without EINVAL is taken as given; its truncation to `pid_t` is not modelled.
- Releasing handles: the fd test at src/proc.c:135 is inverted, and the directory is closed only on the failure path. `opendir`'s result is never checked either. The model has no handles, so none of this is captured.
- Proc.GetProcList: requires `NamesFit`, i.e. every comm file read is shorter than the 256-byte buffer. A full read leaves no terminator, and the C then reads past the buffer.
- Proc.GetProcList: requires an empty ring at `h` that is not a record, and the allocator's promise `FreshSlots`: every record it hands out is a new node of the arena. All callers declare a fresh head.
- Proc.Rollback: the head's own links are left pointing at freed records, as in the source. The callers return without looking at them, so the model states nothing about them.
- The Darwin `sysctl` branch (src/proc.c:57-88) does not compile and is not part of this model.
- `dlist_get_entry` is the identity, because a record and its node share an index.
- `dlist_splice_and_init` calls `dlist_isEmpty` (src/dlist.h:196), which is not defined. It is modelled as `dlist_is_empty`.
- DList.Arena.Move and DList.Arena.MoveTail: the destination is either the head of the entry's own ring or the head of a ring with no node in common with it. Moving to another entry of the same ring is not covered.
- Info.Heap.Create: calloc's zeroed record has a null name pointer, which the model shows as the empty name until strdup's copy is stored.
- The drain loops of the three consumers are the methods DrainList, DrainPidof and DrainKill, which the consumers call after the enumeration.
- `src/info.h` only declares the record; it is the datatype `Info.Info` plus the list node of the same index.

## Findings

| source | as written | input that shows it | evidently intended | confidence | as-written member | corrected member |
|---|---|---|---|---|---|---|
| src/proc.c:120-123 | the enumerator tests `procI_info_create`'s return for -1, but it returns 0 on every path (src/info.c:11, 26) and signals failure only through a NULL record, so `dlist_add_tail(&(info->list), head)` runs on NULL and the rollback at 140-145 is unreachable | one accepted entry (stat ok, directory, pid 1, comm "init\n" opens and reads) whose record calloc cannot allocate | test the record for NULL (or return -1 from create on failure), destroy the records built so far and return -1 | not executed | Proc.AsWrittenCrashExample | Proc.GetProcList |
