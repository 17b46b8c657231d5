/**
  The process enumerator of src/proc.c (Linux branch) and the three loops
  that consume its list: proc.list, proc.pidof and proc.killall.

  The file system is replaced by the sequence of outcomes `readdir` would
  produce, one `Entry` per directory entry: whether `stat` worked, whether it
  is a directory, whether `strtoul` reported EINVAL, whether the `comm` file
  opened and could be read, what it held, and what the allocator answers
  when the record is built. What `kill` does is an input too: the set of
  pids it fails for. The Lua
  results become return values.
*/
module Proc {
  import opened DList
  import opened CStr
  import opened Info

  /** PROC_ERROR_CANT_GET_PROCLIST. */
  const CantGetProcList: string := "can't get process list"
  /** The prefix proc.killall reports when some signal could not be sent. */
  const KillFailed: string := "proclist"
  /** sizeof(name): the buffer the comm file is read into. */
  const NameSize: int := 256

  /** What a Lua entry point hands back: its values, or nil plus a message. */
  datatype Reply<T> = Values(value: T) | Error(message: string)

  // ---------------------------------------------------------------------------
  // chomp
  // ---------------------------------------------------------------------------

  /** The string chomp leaves: one trailing newline dropped. */
  function Chomped(s: seq<char>): seq<char> {
    if |s| > 0 && s[|s| - 1] == '\n' then s[..|s| - 1] else s
  }

  /** chomp drops one final newline and nothing else: the result is the
      string itself, or the string is the result plus a newline, and it
      differs exactly when the string ends in a newline. */
  lemma ChompedSpec(s: seq<char>)
    ensures var r := Chomped(s);
      && (r == s || r + ['\n'] == s)
      && (r != s <==> |s| > 0 && s[|s| - 1] == '\n')
  {
    if |s| > 0 && s[|s| - 1] == '\n' {
      assert |Chomped(s)| < |s|;
    }
  }

  /** Only one newline goes: a string with a newline added chomps back to itself. */
  lemma ChompedUndoesNewline(s: seq<char>)
    ensures Chomped(s + ['\n']) == s
  {
    assert (s + ['\n'])[..|s|] == s;
  }

  /** chomp: cut the C string in `buf` before a final newline by storing a
      NUL over it; no other character of the buffer changes. */
  method Chomp(buf: array<char>)
    requires NUL in buf[..]
    modifies buf
    ensures NUL in buf[..]
    ensures CString(buf[..]) == Chomped(old(CString(buf[..])))
    ensures forall i :: 0 <= i < buf.Length && i != |old(CString(buf[..]))| - 1 ==> buf[i] == old(buf[i])
  {
    var n := StrLen(buf);
    if n > 0 && buf[n - 1] == '\n' {
      ghost var before := buf[..];
      CStringCut(before, n - 1);
      buf[n - 1] := NUL;
      assert buf[..] == before[n - 1 := NUL];
      assert buf[n - 1] in buf[..];
    }
  }

  // ---------------------------------------------------------------------------
  // What the enumerator sees and what it should produce
  // ---------------------------------------------------------------------------

  /** One directory entry of /proc, as the enumerator's system calls see it.
      `slot` is the record calloc returns for it (NIL for a failure) and
      `strdupOk` whether the name copy succeeds. */
  datatype Entry = Entry(
    statOk: bool,
    isDir: bool,
    pidEinval: bool,
    pid: int,
    commOpens: bool,
    readOk: bool,
    comm: seq<char>,
    slot: int,
    strdupOk: bool)

  /** The entry passes every test before the record is built: stat works,
      it is a directory, its name parses, its comm file opens and reads. */
  predicate Accepted(e: Entry) {
    e.statOk && e.isDir && !e.pidEinval && e.commOpens && e.readOk
  }

  /** The name recorded for an entry: the C string read, chomped. */
  function NameOf(e: Entry): seq<char> {
    Chomped(CString(e.comm))
  }

  function RecordOf(e: Entry): Info {
    Info(e.pid, NameOf(e))
  }

  /** Both allocations of procI_info_create succeed. */
  predicate AllocOk(e: Entry) {
    e.slot != NIL && e.strdupOk
  }

  /** An accepted entry whose record cannot be built. */
  predicate Fails(e: Entry) {
    Accepted(e) && !AllocOk(e)
  }

  ghost predicate AllocFails(es: seq<Entry>) {
    exists e :: e in es && Fails(e)
  }

  /** The accepted entries, in directory order. */
  function Kept(es: seq<Entry>): (r: seq<Entry>)
    ensures |r| <= |es|
  {
    if es == [] then []
    else (if Accepted(es[0]) then [es[0]] else []) + Kept(es[1..])
  }

  /** The entries kept are exactly the accepted ones. */
  lemma {:induction false} KeptMembers(es: seq<Entry>)
    ensures forall e :: e in Kept(es) <==> e in es && Accepted(e)
  {
    if es != [] {
      KeptMembers(es[1..]);
      assert forall e :: e in es <==> e == es[0] || e in es[1..];
    }
  }

  function Records(ks: seq<Entry>): (r: seq<Info>)
    ensures |r| == |ks| && forall i :: 0 <= i < |ks| ==> r[i] == RecordOf(ks[i])
  {
    if ks == [] then [] else [RecordOf(ks[0])] + Records(ks[1..])
  }

  /** The records the enumerator should list: one per accepted entry. */
  function Selected(es: seq<Entry>): seq<Info> {
    Records(Kept(es))
  }

  /** The outcome of procI_get_proclist: 0 and a list, or -1. */
  datatype Listing = Listed(records: seq<Info>) | Failed

  /** The enumerator's specification: it fails exactly when some accepted
      entry's record cannot be built, and otherwise lists the records of
      the accepted entries in directory order. */
  ghost function Enumerate(es: seq<Entry>): Listing {
    if AllocFails(es) then Failed else Listed(Selected(es))
  }

  /** Filtering distributes over concatenation. */
  lemma {:induction false} KeptConcat(a: seq<Entry>, b: seq<Entry>)
    ensures Kept(a + b) == Kept(a) + Kept(b)
  {
    if a == [] {
      assert a + b == b;
    } else {
      assert (a + b)[0] == a[0];
      assert (a + b)[1..] == a[1..] + b;
      KeptConcat(a[1..], b);
    }
  }

  /** An entry the enumerator skips (stat fails, not a directory, pid does
      not parse, comm does not open or read) changes nothing about the
      outcome, wherever it appears. */
  lemma SkippedEntryIgnored(a: seq<Entry>, e: Entry, b: seq<Entry>)
    requires !Accepted(e)
    ensures Enumerate(a + [e] + b) == Enumerate(a + b)
  {
    SkippedEntryKept(a, e, b);
    SkippedEntryFails(a, e, b);
  }

  lemma SkippedEntryKept(a: seq<Entry>, e: Entry, b: seq<Entry>)
    requires !Accepted(e)
    ensures Kept(a + [e] + b) == Kept(a + b)
  {
    KeptConcat(a + [e], b);
    KeptConcat(a, [e]);
    KeptConcat(a, b);
    assert Kept([e]) == [] by { assert [e][1..] == []; }
  }

  lemma SkippedEntryFails(a: seq<Entry>, e: Entry, b: seq<Entry>)
    requires !Accepted(e)
    ensures AllocFails(a + [e] + b) <==> AllocFails(a + b)
  {
    assert forall f :: f in a + [e] + b <==> f in a || f == e || f in b;
    assert forall f :: f in a + b <==> f in a || f in b;
  }

  /** Every record listed comes from an accepted entry, and every accepted
      entry is listed. */
  lemma SelectedExactly(es: seq<Entry>, r: Info)
    ensures r in Selected(es) <==> exists e :: e in es && Accepted(e) && RecordOf(e) == r
  {
    var ks := Kept(es);
    KeptMembers(es);
    if r in Selected(es) {
      var i :| 0 <= i < |ks| && Selected(es)[i] == r;
      assert ks[i] in ks;
    }
    if e :| e in es && Accepted(e) && RecordOf(e) == r {
      assert e in ks;
      var i :| 0 <= i < |ks| && ks[i] == e;
      assert Selected(es)[i] == r;
    }
  }

  // ---------------------------------------------------------------------------
  // The enumerator as written
  // ---------------------------------------------------------------------------

  /** What procI_info_create returns: 0 on every path (src/info.c:11, 26;
      Info.Heap.Create states it). */
  const CreateReturns: int := 0

  datatype AsWritten = Returned(ret: int, records: seq<Info>) | NullDereference

  /** The loop of procI_get_proclist exactly as written, from the list
      `acc` built so far: after building a record it tests the returned
      code for -1, which never happens, and then links `info->list` even
      when `info` is NULL. */
  function AsWrittenLoop(es: seq<Entry>, acc: seq<Info>): (r: AsWritten)
    ensures r.Returned? ==> r.ret == 0 && acc <= r.records
    decreases |es|
  {
    if es == [] then Returned(0, acc)
    else if !Accepted(es[0]) then AsWrittenLoop(es[1..], acc)
    else if CreateReturns == -1 then Returned(-1, [])
    else if !AllocOk(es[0]) then NullDereference
    else AsWrittenLoop(es[1..], acc + [RecordOf(es[0])])
  }

  /** procI_get_proclist as written: it never reports failure. */
  function EnumerateAsWritten(es: seq<Entry>): (r: AsWritten)
    ensures r.Returned? ==> r.ret == 0
  {
    AsWrittenLoop(es, [])
  }

  /** As written, the rollback path is unreachable: the loop either lists
      the records or dereferences NULL, exactly when an allocation fails. */
  lemma {:induction false} AsWrittenLoopOutcome(es: seq<Entry>, acc: seq<Info>)
    ensures AsWrittenLoop(es, acc) == NullDereference <==> AllocFails(es)
    ensures !AllocFails(es) ==> AsWrittenLoop(es, acc) == Returned(0, acc + Selected(es))
    decreases |es|
  {
    if es == [] {
      assert acc + Selected(es) == acc;
    } else {
      AllocFailsCons(es);
      if !Accepted(es[0]) {
        assert AsWrittenLoop(es, acc) == AsWrittenLoop(es[1..], acc);
        AsWrittenLoopOutcome(es[1..], acc);
        SelectedCons(es);
        assert Selected(es) == Selected(es[1..]);
      } else if AllocOk(es[0]) {
        var r := RecordOf(es[0]);
        assert AsWrittenLoop(es, acc) == AsWrittenLoop(es[1..], acc + [r]);
        AsWrittenLoopOutcome(es[1..], acc + [r]);
        SelectedCons(es);
        assert Selected(es) == [r] + Selected(es[1..]);
        AppendShift(acc, r, Selected(es[1..]));
        assert acc + Selected(es) == (acc + [r]) + Selected(es[1..]);
      } else {
        assert AsWrittenLoop(es, acc) == NullDereference;
      }
    }
  }

  lemma AppendShift<T>(a: seq<T>, x: T, b: seq<T>)
    ensures a + ([x] + b) == (a + [x]) + b
  {
  }

  lemma AllocFailsCons(es: seq<Entry>)
    requires es != []
    ensures AllocFails(es) <==> Fails(es[0]) || AllocFails(es[1..])
  {
    assert forall f :: f in es <==> f == es[0] || f in es[1..];
  }

  lemma SelectedCons(es: seq<Entry>)
    requires es != []
    ensures Selected(es) == (if Accepted(es[0]) then [RecordOf(es[0])] else []) + Selected(es[1..])
  {
    var first := if Accepted(es[0]) then [es[0]] else [];
    assert Kept(es) == first + Kept(es[1..]);
    RecordsConcat(first, Kept(es[1..]));
  }

  lemma RecordsConcat(a: seq<Entry>, b: seq<Entry>)
    ensures Records(a + b) == Records(a) + Records(b)
  {
    var l, r := Records(a + b), Records(a) + Records(b);
    forall i | 0 <= i < |l|
      ensures l[i] == r[i]
    {
      if i < |a| {
        assert (a + b)[i] == a[i];
      } else {
        assert (a + b)[i] == b[i - |a|];
      }
    }
  }

  /** The enumerator as written never reports failure, and crashes instead
      whenever the specification says it should fail. */
  lemma AsWrittenNeverFails(es: seq<Entry>)
    ensures EnumerateAsWritten(es) != Returned(-1, [])
    ensures Enumerate(es) == Failed <==> EnumerateAsWritten(es) == NullDereference
    ensures Enumerate(es).Listed? ==> EnumerateAsWritten(es) == Returned(0, Enumerate(es).records)
  {
    AsWrittenLoopOutcome(es, []);
  }

  /** A single readable process whose record cannot be allocated. */
  lemma AsWrittenCrashExample()
    ensures var es := [Entry(true, true, false, 1, true, true, "init\n", NIL, true)];
      EnumerateAsWritten(es) == NullDereference && Enumerate(es) == Failed
  {
    var es := [Entry(true, true, false, 1, true, true, "init\n", NIL, true)];
    assert es[0] in es && Fails(es[0]);
  }

  // ---------------------------------------------------------------------------
  // The enumerator, with the failure test on the record pointer
  // ---------------------------------------------------------------------------

  /** What the allocator promises: every record handed out for an accepted
      entry is a node of the arena, not the list head, not already live, and
      different from every other record handed out. */
  ghost predicate FreshSlots(es: seq<Entry>, h: int, live: map<int, Info>, size: int) {
    && (forall i :: 0 <= i < |es| && Accepted(es[i]) && es[i].slot != NIL ==>
          0 <= es[i].slot < size && es[i].slot != h && es[i].slot !in live)
    && (forall i, j :: 0 <= i < j < |es| && Accepted(es[i]) && Accepted(es[j]) && es[i].slot != NIL ==>
          es[i].slot != es[j].slot)
  }

  /** The records the allocator hands out for the accepted entries: the
      only nodes besides the head whose links the enumerator writes. */
  ghost function Slots(es: seq<Entry>): set<int> {
    set i | 0 <= i < |es| && Accepted(es[i]) :: es[i].slot
  }

  /** Every comm file read fits the name buffer with room for a NUL. */
  predicate NamesFit(es: seq<Entry>) {
    forall i :: 0 <= i < |es| && Accepted(es[i]) ==> |es[i].comm| < NameSize
  }

  lemma NextSlotIsNew(es: seq<Entry>, i: int, h: int, live: map<int, Info>, size: int)
    requires FreshSlots(es, h, live, size) && 0 <= i < |es| && Accepted(es[i]) && es[i].slot != NIL
    requires !AllocFails(es[..i])
    ensures forall e :: e in Kept(es[..i]) ==> e.slot != es[i].slot
  {
    KeptMembers(es[..i]);
    forall e | e in Kept(es[..i])
      ensures e.slot != es[i].slot
    {
      var a :| 0 <= a < i && es[..i][a] == e;
      assert es[a] == e && !Fails(e);
    }
  }

  /** read(fd, name, sizeof(name)) returning `data`. */
  method ReadInto(buf: array<char>, data: seq<char>)
    requires |data| <= buf.Length
    modifies buf
    ensures buf[..] == data + old(buf[..])[|data|..]
  {
    forall j | 0 <= j < |data| {
      buf[j] := data[j];
    }
  }

  /** The name buffer after reading a fitting comm file into a cleared one
      holds the comm file's C string. */
  lemma ReadNameFits(comm: seq<char>, buf: seq<char>)
    requires |comm| < NameSize && |buf| == NameSize
    requires forall j :: 0 <= j < |buf| ==> buf[j] == NUL
    ensures NUL in comm + buf[|comm|..]
    ensures CString(comm + buf[|comm|..]) == CString(comm)
  {
    assert buf[|comm|..][0] == NUL;
    CStringStopsAtNul(comm, buf[|comm|..]);
    assert (comm + buf[|comm|..])[|comm|] == NUL;
  }

  /** Lines 118-119 and the copy strdup takes: read the comm file into the
      cleared buffer, chomp it, and take the C string it now holds. */
  method ReadName(name: array<char>, comm: seq<char>) returns (copy: seq<char>)
    requires name.Length == NameSize && |comm| < NameSize
    requires forall j :: 0 <= j < name.Length ==> name[j] == NUL
    modifies name
    ensures copy == Chomped(CString(comm))
  {
    ReadNameFits(comm, name[..]);
    ReadInto(name, comm);
    Chomp(name);
    var n := StrLen(name);
    copy := name[..n];
  }

  /** memset(name, 0x00, sizeof(name)). */
  method Clear(name: array<char>)
    modifies name
    ensures forall j :: 0 <= j < name.Length ==> name[j] == NUL
  {
    forall j | 0 <= j < name.Length {
      name[j] := NUL;
    }
  }

  /** The records stored at the nodes `s`, in order, are `recs`. */
  ghost predicate Stores(live: map<int, Info>, s: seq<int>, recs: seq<Info>) {
    |s| == |recs| && forall j :: 0 <= j < |s| ==> s[j] in live && live[s[j]] == recs[j]
  }

  /** The heap after the enumerator has read the entries `p`: the heap it
      started from (`before`), plus one new record per accepted entry of `p`,
      stored at that entry's slot; `s` lists those slots in order. */
  ghost predicate Built(live: map<int, Info>, before: map<int, Info>, s: seq<int>, p: seq<Entry>) {
    && |s| == |Kept(p)|
    && (forall j :: 0 <= j < |s| ==> s[j] == Kept(p)[j].slot && s[j] !in before)
    && Stores(live, s, Selected(p))
    && (forall y :: y in live <==> y in before || y in s)
    && (forall y :: y in before ==> live[y] == before[y])
  }

  /** The records built so far are allocator answers for accepted entries. */
  lemma BuiltSlots(live: map<int, Info>, before: map<int, Info>, s: seq<int>, es: seq<Entry>, i: int)
    requires 0 <= i <= |es| && Built(live, before, s, es[..i])
    ensures SetOf(s) <= Slots(es)
  {
    var ks := Kept(es[..i]);
    KeptMembers(es[..i]);
    forall y | y in SetOf(s)
      ensures y in Slots(es)
    {
      var j :| 0 <= j < |s| && s[j] == y;
      assert ks[j] in ks;
      var a :| 0 <= a < i && es[..i][a] == ks[j];
      assert es[a] == ks[j] && Accepted(es[a]);
    }
  }

  /** What one pass of the loop may write lies within the enumerator's frame. */
  lemma VisitFrameFits(live: map<int, Info>, before: map<int, Info>, s: seq<int>, es: seq<Entry>, i: int, h: int)
    requires 0 <= i < |es| && Built(live, before, s, es[..i])
    ensures {h} + SetOf(s) + (if Accepted(es[i]) then {es[i].slot} else {}) <= {h} + Slots(es)
  {
    BuiltSlots(live, before, s, es, i);
  }

  /** dlist_add_tail writes the new node, the head and the ring's last node. */
  lemma AppendFrame(t0: Links, t: Links, h: int, s: seq<int>, x: int)
    requires Untouched(t0, t, {x}) && RingIn(t, h, s) && Node(t, x)
    ensures Node(t, t.prev[h])
    ensures Untouched(t0, Insert(t, x, t.prev[h], h), {h} + SetOf(s) + {x})
  {
    var p := t.prev[h];
    assert p in {h} + SetOf(s) by {
      if s != [] { assert s[|s| - 1] in s; }
    }
    UntouchedTrans(t0, t, Insert(t, x, p, h), {x}, {x, p, h}, {h} + SetOf(s) + {x});
  }

  /** Freeing the records of `s` takes the heap back to where it started. */
  lemma BuiltUndone(live: map<int, Info>, before: map<int, Info>, s: seq<int>, p: seq<Entry>)
    requires Built(live, before, s, p)
    ensures live - SetOf(s) == before
    ensures forall j :: 0 <= j < |s| ==> s[j] in live
  {
    RestoreLive(live, before, s);
  }

  lemma BuiltStart(live: map<int, Info>)
    ensures Built(live, live, [], [])
  {
  }

  /** A skipped entry leaves the heap as it was. */
  lemma BuiltSkip(live: map<int, Info>, before: map<int, Info>, s: seq<int>, p: seq<Entry>, e: Entry)
    requires Built(live, before, s, p) && !Accepted(e)
    ensures Built(live, before, s, p + [e])
  {
    KeptConcat(p, [e]);
    assert Kept([e]) == [] by { assert [e][1..] == []; }
    assert Kept(p + [e]) == Kept(p);
  }

  /** An accepted entry adds its record at its (new) slot. */
  lemma BuiltAdd(live: map<int, Info>, before: map<int, Info>, s: seq<int>, p: seq<Entry>, e: Entry)
    requires Built(live, before, s, p) && Accepted(e)
    requires e.slot !in before && e.slot !in s
    ensures Built(live[e.slot := RecordOf(e)], before, s + [e.slot], p + [e])
  {
    var ks := Kept(p);
    assert Kept(p + [e]) == ks + [e] by {
      KeptConcat(p, [e]);
      assert Kept([e]) == [e] by { assert [e][1..] == []; }
    }
    assert Selected(p + [e]) == Selected(p) + [RecordOf(e)] by {
      RecordsConcat(ks, [e]);
    }
    BuiltAddSlots(before, s, ks, e);
    BuiltAddStores(live, s, Selected(p), e.slot, RecordOf(e));
  }

  lemma BuiltAddSlots(before: map<int, Info>, s: seq<int>, ks: seq<Entry>, e: Entry)
    requires |s| == |ks| && forall j :: 0 <= j < |s| ==> s[j] == ks[j].slot && s[j] !in before
    requires e.slot !in before
    ensures forall j :: 0 <= j < |s| + 1 ==> (s + [e.slot])[j] == (ks + [e])[j].slot && (s + [e.slot])[j] !in before
  {
  }

  lemma BuiltAddStores(live: map<int, Info>, s: seq<int>, recs: seq<Info>, x: int, r: Info)
    requires Stores(live, s, recs) && x !in s
    ensures Stores(live[x := r], s + [x], recs + [r])
  {
    forall j | 0 <= j < |s|
      ensures (s + [x])[j] != x
    {
      assert (s + [x])[j] == s[j];
    }
  }

  /** The slot of the next accepted entry is new: not live before and not
      yet handed out, by the allocator's promise. */
  lemma NextSlotFree(es: seq<Entry>, i: int, h: int, before: map<int, Info>, size: int,
                     live: map<int, Info>, s: seq<int>)
    requires FreshSlots(es, h, before, size) && 0 <= i < |es| && Accepted(es[i]) && es[i].slot != NIL
    requires !AllocFails(es[..i]) && Built(live, before, s, es[..i])
    ensures es[i].slot !in before && es[i].slot !in s && es[i].slot !in live && es[i].slot != h
  {
    NextSlotIsNew(es, i, h, before, size);
    forall j | 0 <= j < |s|
      ensures s[j] != es[i].slot
    {
      assert Kept(es[..i])[j] in Kept(es[..i]);
    }
  }

  /** An entry that does not fail keeps the failure-free prefix failure-free. */
  lemma NoFailureYet(es: seq<Entry>, i: int)
    requires 0 <= i < |es| && !AllocFails(es[..i]) && !Fails(es[i])
    ensures !AllocFails(es[..i + 1])
  {
    assert es[..i + 1] == es[..i] + [es[i]];
  }

  /** A failing entry makes the whole enumeration fail. */
  lemma FailureFound(es: seq<Entry>, i: int)
    requires 0 <= i < |es| && Fails(es[i])
    ensures Enumerate(es) == Failed
  {
    assert es[i] in es;
  }

  /** Lines 118-120 for one entry: read and chomp its name, then build its
      record. The ring at `h` is untouched; the record, when there is one,
      is the entry's slot and lies outside that ring. */
  method ReadAndCreate(heap: Heap, name: array<char>, e: Entry, ghost h: int, ghost s: seq<int>)
    returns (ret: int, info: int)
    requires heap.Valid() && heap.links.Ring(h, s)
    requires name.Length == NameSize && |e.comm| < NameSize
    requires forall j :: 0 <= j < name.Length ==> name[j] == NUL
    requires e.slot == NIL || (0 <= e.slot < heap.links.next.Length && e.slot !in heap.live && e.slot !in Members(h, s))
    modifies heap, heap.links.next, heap.links.prev, name
    ensures heap.Valid() && heap.links.Ring(h, s)
    ensures ret == 0
    ensures info == NIL <==> !AllocOk(e)
    ensures info != NIL ==> info == e.slot && heap.live == old(heap.live)[info := RecordOf(e)]
    ensures info == NIL ==> heap.live == old(heap.live)
    ensures Untouched(old(heap.links.Table()), heap.links.Table(), {e.slot})
  {
    var copy := ReadName(name, e.comm);
    if e.slot != NIL {
      SelfLinkKeepsRing(heap.links.Table(), e.slot, h, s);
    }
    ret, info := heap.Create(e.pid, copy, e.slot, e.strdupOk);
  }

  /** One pass of the readdir loop body (lines 107-130) for the i-th entry,
      with the failure of procI_info_create detected by its null record.
      `failed` is the jump to the rollback; otherwise the entry's record, if
      it is accepted, has been appended at the tail of the ring. The `continue`
      statements of the source are the early returns, which skip the buffer
      clearing as they do there. */
  method Visit(heap: Heap, h: int, name: array<char>, es: seq<Entry>, i: int,
               ghost before: map<int, Info>, ghost s: seq<int>)
    returns (ret: int, failed: bool, ghost s': seq<int>)
    requires 0 <= i < |es| && FreshSlots(es, h, before, heap.links.next.Length) && NamesFit(es)
    requires heap.Valid() && h !in heap.live && heap.links.Ring(h, s)
    requires name.Length == NameSize && forall j :: 0 <= j < NameSize ==> name[j] == NUL
    requires !AllocFails(es[..i]) && Built(heap.live, before, s, es[..i])
    modifies heap, heap.links.next, heap.links.prev, name
    ensures ret == 0 && heap.Valid() && h !in heap.live
    ensures failed ==> s' == s && Fails(es[i]) && heap.links.Ring(h, s) && Built(heap.live, before, s, es[..i])
    ensures !failed ==> forall j :: 0 <= j < NameSize ==> name[j] == NUL
    ensures !failed ==> !AllocFails(es[..i + 1]) && heap.links.Ring(h, s') && Built(heap.live, before, s', es[..i + 1])
    ensures !Accepted(es[i]) ==> heap.links.Table() == old(heap.links.Table())
    ensures Accepted(es[i]) ==> Untouched(old(heap.links.Table()), heap.links.Table(), {h} + SetOf(s) + {es[i].slot})
  {
    var e := es[i];
    ret, failed, s' := 0, false, s;
    TakeOneMore(es, i);
    if !Accepted(e) {
      BuiltSkip(heap.live, before, s, es[..i], e);
      NoFailureYet(es, i);
    }
    if e.statOk && e.isDir {
      if e.pidEinval {
        return;
      }
      if !e.commOpens {
        return;
      }
      if e.readOk {
        ret, failed, s' := Admit(heap, h, name, es, i, before, s);
        if failed {
          return;
        }
      }
    }
    Clear(name);
  }

  /** Lines 118-123: an entry whose name could be read gets a record, which
      goes to the tail of the ring; a record that could not be built ends
      the enumeration. */
  method Admit(heap: Heap, h: int, name: array<char>, es: seq<Entry>, i: int,
               ghost before: map<int, Info>, ghost s: seq<int>)
    returns (ret: int, failed: bool, ghost s': seq<int>)
    requires 0 <= i < |es| && Accepted(es[i])
    requires FreshSlots(es, h, before, heap.links.next.Length) && NamesFit(es)
    requires heap.Valid() && h !in heap.live && heap.links.Ring(h, s)
    requires name.Length == NameSize && forall j :: 0 <= j < NameSize ==> name[j] == NUL
    requires !AllocFails(es[..i]) && Built(heap.live, before, s, es[..i])
    modifies heap, heap.links.next, heap.links.prev, name
    ensures ret == 0 && heap.Valid() && h !in heap.live
    ensures failed ==> s' == s && Fails(es[i]) && heap.links.Ring(h, s) && Built(heap.live, before, s, es[..i])
    ensures !failed ==> !AllocFails(es[..i + 1]) && heap.links.Ring(h, s') && Built(heap.live, before, s', es[..i + 1])
    ensures Untouched(old(heap.links.Table()), heap.links.Table(), {h} + SetOf(s) + {es[i].slot})
  {
    var e := es[i];
    s' := s;
    TakeOneMore(es, i);
    if e.slot != NIL {
      NextSlotFree(es, i, h, before, heap.links.next.Length, heap.live, s);
    }
    ghost var liveBefore := heap.live;
    var info;
    ret, info := ReadAndCreate(heap, name, e, h, s);
    failed := info == NIL;
    if failed {
      return;
    }
    BuiltAdd(liveBefore, before, s, es[..i], e);
    NoFailureYet(es, i);
    ghost var t := heap.links.Table();
    heap.links.AddTail(info, h, s);
    AppendFrame(old(heap.links.Table()), t, h, s, info);
    s' := s + [info];
  }

  /** procI_get_proclist, with the failure of procI_info_create detected by
      its null record rather than by its return code. On success the ring
      at `h` holds one new record per accepted entry, in directory order;
      on failure every record built so far is destroyed again. */
  method GetProcList(heap: Heap, h: int, es: seq<Entry>) returns (ret: int, ghost s: seq<int>)
    requires heap.Valid() && heap.links.Ring(h, []) && h !in heap.live
    requires FreshSlots(es, h, heap.live, heap.links.next.Length)
    requires NamesFit(es)
    modifies heap, heap.links.next, heap.links.prev
    ensures heap.Valid() && h !in heap.live
    ensures ret == 0 || ret == -1
    ensures ret == -1 <==> Enumerate(es) == Failed
    ensures ret == -1 ==> heap.live == old(heap.live)
    ensures ret == 0 ==> heap.links.Ring(h, s) && Built(heap.live, old(heap.live), s, es)
    ensures Untouched(old(heap.links.Table()), heap.links.Table(), {h} + Slots(es))
  {
    var name := new char[NameSize](_ => NUL);
    ghost var before := heap.live;
    ghost var t0 := heap.links.Table();
    ret := 0;
    s := [];
    BuiltStart(before);
    for i := 0 to |es|
      invariant heap.Valid() && h !in heap.live
      invariant forall j :: 0 <= j < NameSize ==> name[j] == NUL
      invariant ret == 0 && !AllocFails(es[..i])
      invariant heap.links.Ring(h, s)
      invariant Built(heap.live, before, s, es[..i])
      invariant Untouched(t0, heap.links.Table(), {h} + Slots(es))
    {
      var failed;
      ghost var t := heap.links.Table();
      VisitFrameFits(heap.live, before, s, es, i, h);
      ghost var s0 := s;
      ret, failed, s := Visit(heap, h, name, es, i, before, s);
      UntouchedTrans(t0, t, heap.links.Table(), {h} + Slots(es),
                     {h} + SetOf(s0) + (if Accepted(es[i]) then {es[i].slot} else {}), {h} + Slots(es));
      if failed {
        FailureFound(es, i);
        BuiltUndone(heap.live, before, s, es[..i]);
        BuiltSlots(heap.live, before, s, es, i);
        t := heap.links.Table();
        Rollback(heap, h, s);
        UntouchedTrans(t0, t, heap.links.Table(), {h} + Slots(es), SetOf(s), {h} + Slots(es));
        ret := -1;
        return;
      }
    }
    assert es[..|es|] == es;
  }

  // ---------------------------------------------------------------------------
  // Draining the list
  // ---------------------------------------------------------------------------

  ghost function SetOf(s: seq<int>): set<int> {
    set y | y in s
  }

  /** The state of a dlist_foreach_safe loop over the ring `s` at `h` whose
      body destroys each record: the first k records are freed, the rest
      are still linked in order and still hold what they held in `base`. */
  ghost predicate Draining(heap: Heap, h: int, s: seq<int>, k: int, base: map<int, Info>, pos: int, n: int, t0: Links)
    reads heap, heap.links, heap.links.next, heap.links.prev
  {
    && heap.Valid()
    && Untouched(t0, heap.links.Table(), SetOf(s))
    && 0 <= k <= |s|
    && Distinct(s)
    && Chain(heap.links.Table(), h, s[k..])
    && pos == (if k == |s| then h else s[k])
    && 0 <= pos < heap.links.next.Length && n == heap.links.next[pos]
    && (forall j :: 0 <= j < |s| ==> s[j] in base)
    && heap.live == base - SetOf(s[..k])
  }

  /** One turn of such a loop, on values: the saved successor is the next
      record, the chain of the records after it survives re-initialising
      it, and freeing it extends the freed prefix. */
  lemma DestroyStep(t: Links, h: int, s: seq<int>, k: int, base: map<int, Info>)
    requires 0 <= k < |s| && Chain(t, h, s[k..]) && Distinct(s)
    ensures t.next[s[k]] == (if k + 1 == |s| then h else s[k + 1])
    ensures Chain(SelfLink(t, s[k]), h, s[k + 1..])
    ensures s[k] !in SetOf(s[..k])
    ensures base - SetOf(s[..k]) - {s[k]} == base - SetOf(s[..k + 1])
  {
    ChainStep(t, h, s[k..]);
    assert s[k..][1..] == s[k + 1..];
    assert SetOf(s[..k + 1]) == SetOf(s[..k]) + {s[k]} by {
      assert s[..k + 1] == s[..k] + [s[k]];
    }
    forall j | 0 <= j < k
      ensures s[..k][j] != s[k]
    {
      assert s[..k][j] == s[j];
    }
  }

  /** The loop starts with nothing freed. */
  lemma DrainStart(t: Links, h: int, s: seq<int>, base: map<int, Info>)
    requires RingIn(t, h, s)
    ensures Chain(t, h, s[0..]) && Distinct(s)
    ensures t.next[h] == (if 0 == |s| then h else s[0])
    ensures base - SetOf(s[..0]) == base
  {
    RingChain(t, h, s);
    assert s[0..] == s;
    assert SetOf(s[..0]) == {};
  }

  /** Freeing every record the enumerator added restores the heap it found. */
  lemma RestoreLive(base: map<int, Info>, before: map<int, Info>, s: seq<int>)
    requires forall y :: y in base <==> y in before || y in s
    requires forall y :: y in before ==> base[y] == before[y]
    requires forall j :: 0 <= j < |s| ==> s[j] !in before
    ensures base - SetOf(s) == before
  {
    var m := base - SetOf(s);
    forall y
      ensures y in m <==> y in before
      ensures y in m ==> m[y] == before[y]
    {
      if y in s {
        var j :| 0 <= j < |s| && s[j] == y;
      }
    }
    assert m.Keys == before.Keys;
  }

  /** The rollback of procI_get_proclist: destroy every record in the ring. */
  method Rollback(heap: Heap, h: int, ghost s: seq<int>)
    requires heap.Valid() && heap.links.Ring(h, s)
    requires forall j :: 0 <= j < |s| ==> s[j] in heap.live
    modifies heap, heap.links.next, heap.links.prev
    ensures heap.Valid()
    ensures heap.live == old(heap.live) - SetOf(s)
    ensures Untouched(old(heap.links.Table()), heap.links.Table(), SetOf(s))
  {
    ghost var base := heap.live;
    ghost var t0 := heap.links.Table();
    DrainStart(t0, h, s, base);
    var pos := heap.links.next[h];
    var n := heap.links.next[pos];
    ghost var k := 0;
    while pos != h
      invariant Draining(heap, h, s, k, base, pos, n, t0)
      decreases |s| - k
    {
      DrainDone(heap.links.Table(), h, s, k);
      pos, n := DestroyAndStep(heap, h, s, k, base, pos, n, t0);
      k := k + 1;
    }
    assert s[..k] == s;
  }

  /** Past the last record the cursor is back at the head. */
  lemma DrainDone(t: Links, h: int, s: seq<int>, k: int)
    requires 0 <= k <= |s| && Chain(t, h, s[k..])
    ensures k < |s| ==> s[k] != h
  {
    if k < |s| {
      assert s[k..][0] == s[k];
    }
  }

  /** The record under the cursor is not freed yet and still holds what it
      held when the loop began. */
  lemma DrainCurrent(base: map<int, Info>, s: seq<int>, k: int)
    requires 0 <= k < |s| && Distinct(s) && forall j :: 0 <= j < |s| ==> s[j] in base
    ensures s[k] in base - SetOf(s[..k]) && (base - SetOf(s[..k]))[s[k]] == base[s[k]]
  {
    forall j | 0 <= j < k
      ensures s[..k][j] != s[k]
    {
      assert s[..k][j] == s[j];
    }
  }

  /** The end of one turn of these loops: procI_info_destroy on the current
      record, then the cursor step `pos = n, n = pos->next`. */
  method DestroyAndStep(heap: Heap, h: int, ghost s: seq<int>, ghost k: int, ghost base: map<int, Info>,
                        pos: int, n: int, ghost t0: Links)
    returns (pos': int, n': int)
    requires Draining(heap, h, s, k, base, pos, n, t0) && k < |s|
    modifies heap, heap.links.next, heap.links.prev
    ensures Draining(heap, h, s, k + 1, base, pos', n', t0)
  {
    ghost var t := heap.links.Table();
    DestroyStep(heap.links.Table(), h, s, k, base);
    heap.Destroy(pos);
    assert s[k] in SetOf(s);
    UntouchedTrans(t0, t, heap.links.Table(), SetOf(s), {pos}, SetOf(s));
    pos' := n;
    n' := heap.links.next[pos'];
  }

  // ---------------------------------------------------------------------------
  // The consumers
  // ---------------------------------------------------------------------------

  /** strcmp(a, b) == 0: the C strings held by `a` and `b` are equal. */
  predicate SameCString(a: seq<char>, b: seq<char>) {
    CString(a) == CString(b)
  }

  /** strcmp compares the buffers character by character: they compare
      equal exactly when both start with the same NUL-free characters and
      both stop right after them, at a NUL or at the end of the buffer. */
  lemma SameCStringCompare(a: seq<char>, b: seq<char>)
    ensures SameCString(a, b) <==>
      exists n :: 0 <= n <= |a| && n <= |b| && a[..n] == b[..n] && NUL !in a[..n]
        && (n == |a| || a[n] == NUL) && (n == |b| || b[n] == NUL)
  {
    CStringSpec(a);
    CStringSpec(b);
    if SameCString(a, b) {
      var n := |CString(a)|;
      assert a[..n] == CString(a) == CString(b) == b[..n];
    }
    if n :| 0 <= n <= |a| && n <= |b| && a[..n] == b[..n] && NUL !in a[..n] &&
           (n == |a| || a[n] == NUL) && (n == |b| || b[n] == NUL) {
      CStringUnique(a, a[..n]);
      CStringUnique(b, b[..n]);
    }
  }

  /** The pids of the records named `target`, in list order. */
  function PidsNamed(rs: seq<Info>, target: seq<char>): seq<int> {
    if rs == [] then []
    else (if SameCString(rs[0].name, target) then [rs[0].pid] else []) + PidsNamed(rs[1..], target)
  }

  /** Extending the list by one record extends the pids by its pid when it
      matches. */
  lemma {:induction false} PidsNamedSnoc(rs: seq<Info>, r: Info, target: seq<char>)
    ensures PidsNamed(rs + [r], target) ==
      PidsNamed(rs, target) + (if SameCString(r.name, target) then [r.pid] else [])
  {
    if rs == [] {
      assert rs + [r] == [r];
      assert [r][1..] == [];
    } else {
      var head := if SameCString(rs[0].name, target) then [rs[0].pid] else [];
      var last := if SameCString(r.name, target) then [r.pid] else [];
      assert (rs + [r])[0] == rs[0];
      assert (rs + [r])[1..] == rs[1..] + [r];
      assert PidsNamed(rs + [r], target) == head + PidsNamed(rs[1..] + [r], target);
      PidsNamedSnoc(rs[1..], r, target);
      assert PidsNamed(rs, target) == head + PidsNamed(rs[1..], target);
      assert head + (PidsNamed(rs[1..], target) + last) == (head + PidsNamed(rs[1..], target)) + last;
    }
  }

  /** A pid is reported exactly when some record with that pid matches. */
  lemma {:induction false} PidsNamedExactly(rs: seq<Info>, target: seq<char>, p: int)
    ensures p in PidsNamed(rs, target) <==> exists r :: r in rs && SameCString(r.name, target) && r.pid == p
  {
    if rs != [] {
      PidsNamedExactly(rs[1..], target, p);
      assert forall r :: r in rs <==> r == rs[0] || r in rs[1..];
    }
  }

  /** The drain loop of proc.list (lines 206-219): every record of the
      ring, in order, goes into the table and is destroyed. */
  method DrainList(heap: Heap, h: int, ghost s: seq<int>, ghost recs: seq<Info>) returns (table: seq<Info>)
    requires heap.Valid() && heap.links.Ring(h, s) && Stores(heap.live, s, recs)
    modifies heap, heap.links.next, heap.links.prev
    ensures heap.Valid() && heap.live == old(heap.live) - SetOf(s)
    ensures Untouched(old(heap.links.Table()), heap.links.Table(), SetOf(s))
    ensures table == recs
  {
    ghost var base := heap.live;
    ghost var t0 := heap.links.Table();
    DrainStart(t0, h, s, base);
    table := [];
    var pos := heap.links.next[h];
    var n := heap.links.next[pos];
    ghost var k := 0;
    while pos != h
      invariant Draining(heap, h, s, k, base, pos, n, t0)
      invariant Stores(base, s, recs)
      invariant table == recs[..k]
      decreases |s| - k
    {
      DrainDone(heap.links.Table(), h, s, k);
      DrainCurrent(base, s, k);
      var info := heap.live[pos];
      table := table + [Info(info.pid, info.name)];
      TakeOneMore(recs, k);
      pos, n := DestroyAndStep(heap, h, s, k, base, pos, n, t0);
      k := k + 1;
    }
    DrainDone(heap.links.Table(), h, s, k);
    assert s[..k] == s && recs[..k] == recs;
  }

  /** The drain loop of proc.pidof (lines 239-249): the pids of the matching
      records, in order; every record is destroyed. */
  method DrainPidof(heap: Heap, h: int, ghost s: seq<int>, ghost recs: seq<Info>, target: seq<char>)
    returns (table: seq<int>)
    requires heap.Valid() && heap.links.Ring(h, s) && Stores(heap.live, s, recs)
    modifies heap, heap.links.next, heap.links.prev
    ensures heap.Valid() && heap.live == old(heap.live) - SetOf(s)
    ensures Untouched(old(heap.links.Table()), heap.links.Table(), SetOf(s))
    ensures table == PidsNamed(recs, target)
  {
    ghost var base := heap.live;
    ghost var t0 := heap.links.Table();
    DrainStart(t0, h, s, base);
    table := [];
    var pos := heap.links.next[h];
    var n := heap.links.next[pos];
    ghost var k := 0;
    while pos != h
      invariant Draining(heap, h, s, k, base, pos, n, t0)
      invariant Stores(base, s, recs)
      invariant table == PidsNamed(recs[..k], target)
      decreases |s| - k
    {
      DrainDone(heap.links.Table(), h, s, k);
      DrainCurrent(base, s, k);
      var info := heap.live[pos];
      TakeOneMore(recs, k);
      PidsNamedSnoc(recs[..k], recs[k], target);
      if CString(info.name) == CString(target) {
        table := table + [info.pid];
      }
      pos, n := DestroyAndStep(heap, h, s, k, base, pos, n, t0);
      k := k + 1;
    }
    DrainDone(heap.links.Table(), h, s, k);
    assert s[..k] == s && recs[..k] == recs;
  }

  /** Some pid in `attempted` is one the signal could not be sent to. */
  predicate AnyKillFailed(attempted: seq<int>, refused: set<int>) {
    exists j :: 0 <= j < |attempted| && attempted[j] in refused
  }

  lemma AnyKillFailedSnoc(attempted: seq<int>, p: int, refused: set<int>)
    ensures AnyKillFailed(attempted + [p], refused) <==> AnyKillFailed(attempted, refused) || p in refused
  {
    if AnyKillFailed(attempted, refused) {
      var j :| 0 <= j < |attempted| && attempted[j] in refused;
      assert (attempted + [p])[j] == attempted[j];
    }
    if p in refused {
      assert (attempted + [p])[|attempted|] == p;
    }
    if AnyKillFailed(attempted + [p], refused) {
      var j :| 0 <= j < |attempted| + 1 && (attempted + [p])[j] in refused;
      if j < |attempted| {
        assert (attempted + [p])[j] == attempted[j];
      }
    }
  }

  /** One pass of the killall loop: the pids attempted and the failure flag
      keep up with the records visited. */
  lemma KillStep(recs: seq<Info>, k: int, target: seq<char>, refused: set<int>, attempted: seq<int>)
    requires 0 <= k < |recs| && attempted == PidsNamed(recs[..k], target)
    ensures var a := if SameCString(recs[k].name, target) then attempted + [recs[k].pid] else attempted;
      && a == PidsNamed(recs[..k + 1], target)
      && (AnyKillFailed(a, refused) <==>
            AnyKillFailed(attempted, refused) || (SameCString(recs[k].name, target) && recs[k].pid in refused))
  {
    TakeOneMore(recs, k);
    PidsNamedSnoc(recs[..k], recs[k], target);
    AnyKillFailedSnoc(attempted, recs[k].pid, refused);
  }

  lemma TakeOneMore<T>(xs: seq<T>, k: int)
    requires 0 <= k < |xs|
    ensures xs[..k + 1] == xs[..k] + [xs[k]]
  {
  }

  /** The drain loop of proc.killall (lines 177-183): the signal goes to
      every matching record, in order, whatever became of the earlier ones;
      `failed` records whether any kill failed. Every record is destroyed.
      `refused` is the set of pids for which the kill system call fails. */
  method DrainKill(heap: Heap, h: int, ghost s: seq<int>, ghost recs: seq<Info>, target: seq<char>,
                   refused: set<int>)
    returns (failed: bool, attempted: seq<int>)
    requires heap.Valid() && heap.links.Ring(h, s) && Stores(heap.live, s, recs)
    modifies heap, heap.links.next, heap.links.prev
    ensures heap.Valid() && heap.live == old(heap.live) - SetOf(s)
    ensures Untouched(old(heap.links.Table()), heap.links.Table(), SetOf(s))
    ensures attempted == PidsNamed(recs, target)
    ensures failed <==> AnyKillFailed(attempted, refused)
  {
    ghost var base := heap.live;
    ghost var t0 := heap.links.Table();
    DrainStart(t0, h, s, base);
    failed := false;
    attempted := [];
    var pos := heap.links.next[h];
    var n := heap.links.next[pos];
    ghost var k := 0;
    while pos != h
      invariant Draining(heap, h, s, k, base, pos, n, t0)
      invariant Stores(base, s, recs)
      invariant attempted == PidsNamed(recs[..k], target)
      invariant failed <==> AnyKillFailed(attempted, refused)
      decreases |s| - k
    {
      DrainDone(heap.links.Table(), h, s, k);
      DrainCurrent(base, s, k);
      var info := heap.live[pos];
      KillStep(recs, k, target, refused, attempted);
      if CString(info.name) == CString(target) {
        attempted := attempted + [info.pid];
        if info.pid in refused {
          failed := true;
        }
      }
      pos, n := DestroyAndStep(heap, h, s, k, base, pos, n, t0);
      k := k + 1;
    }
    DrainDone(heap.links.Table(), h, s, k);
    assert s[..k] == s && recs[..k] == recs;
  }

  /** proc.list: the records of the enumeration, one table slot each in
      list order (slot k + 1 of the Lua table is element k here), with every
      record destroyed on the way. */
  method List(heap: Heap, h: int, es: seq<Entry>) returns (reply: Reply<seq<Info>>)
    requires heap.Valid() && 0 <= h < heap.links.next.Length && h !in heap.live
    requires FreshSlots(es, h, heap.live, heap.links.next.Length) && NamesFit(es)
    modifies heap, heap.links.next, heap.links.prev
    ensures heap.Valid() && heap.live == old(heap.live)
    ensures Untouched(old(heap.links.Table()), heap.links.Table(), {h} + Slots(es))
    ensures Enumerate(es) == Failed ==> reply == Error(CantGetProcList)
    ensures Enumerate(es).Listed? ==> reply == Values(Enumerate(es).records)
  {
    heap.links.Init(h);
    ghost var t1 := heap.links.Table();
    var ret;
    ghost var s;
    ret, s := GetProcList(heap, h, es);
    UntouchedTrans(old(heap.links.Table()), t1, heap.links.Table(), {h}, {h} + Slots(es), {h} + Slots(es));
    if ret != 0 {
      return Error(CantGetProcList);
    }
    RestoreLive(heap.live, old(heap.live), s);
    assert es[..|es|] == es;
    BuiltSlots(heap.live, old(heap.live), s, es, |es|);
    ghost var t2 := heap.links.Table();
    var table := DrainList(heap, h, s, Selected(es));
    UntouchedTrans(old(heap.links.Table()), t2, heap.links.Table(), {h} + Slots(es), SetOf(s), {h} + Slots(es));
    reply := Values(table);
  }

  /** proc.pidof: the pids of the records whose name compares equal to
      `target` with strcmp, in list order, with every record destroyed. */
  method Pidof(heap: Heap, h: int, es: seq<Entry>, target: seq<char>) returns (reply: Reply<seq<int>>)
    requires heap.Valid() && 0 <= h < heap.links.next.Length && h !in heap.live
    requires FreshSlots(es, h, heap.live, heap.links.next.Length) && NamesFit(es)
    modifies heap, heap.links.next, heap.links.prev
    ensures heap.Valid() && heap.live == old(heap.live)
    ensures Untouched(old(heap.links.Table()), heap.links.Table(), {h} + Slots(es))
    ensures Enumerate(es) == Failed ==> reply == Error(CantGetProcList)
    ensures Enumerate(es).Listed? ==> reply == Values(PidsNamed(Enumerate(es).records, target))
  {
    heap.links.Init(h);
    ghost var t1 := heap.links.Table();
    var ret;
    ghost var s;
    ret, s := GetProcList(heap, h, es);
    UntouchedTrans(old(heap.links.Table()), t1, heap.links.Table(), {h}, {h} + Slots(es), {h} + Slots(es));
    if ret != 0 {
      return Error(CantGetProcList);
    }
    RestoreLive(heap.live, old(heap.live), s);
    assert es[..|es|] == es;
    BuiltSlots(heap.live, old(heap.live), s, es, |es|);
    ghost var t2 := heap.links.Table();
    var table := DrainPidof(heap, h, s, Selected(es), target);
    UntouchedTrans(old(heap.links.Table()), t2, heap.links.Table(), {h} + Slots(es), SetOf(s), {h} + Slots(es));
    reply := Values(table);
  }

  /** proc.killall: send the signal to every process whose name compares
      equal to `target`, carrying on after a failure, and report failure when
      any kill failed. `refused` stands for the system call: the pids it
      fails for. `attempted` lists the pids it was called with, in order. */
  method Killall(heap: Heap, h: int, es: seq<Entry>, target: seq<char>, refused: set<int>)
    returns (reply: Reply<int>, attempted: seq<int>)
    requires heap.Valid() && 0 <= h < heap.links.next.Length && h !in heap.live
    requires FreshSlots(es, h, heap.live, heap.links.next.Length) && NamesFit(es)
    modifies heap, heap.links.next, heap.links.prev
    ensures heap.Valid() && heap.live == old(heap.live)
    ensures Untouched(old(heap.links.Table()), heap.links.Table(), {h} + Slots(es))
    ensures Enumerate(es) == Failed ==> reply == Error(CantGetProcList) && attempted == []
    ensures Enumerate(es).Listed? ==> attempted == PidsNamed(Enumerate(es).records, target)
    ensures Enumerate(es).Listed? ==>
      reply == if AnyKillFailed(attempted, refused) then Error(KillFailed) else Values(0)
  {
    heap.links.Init(h);
    ghost var t1 := heap.links.Table();
    var ret;
    ghost var s;
    ret, s := GetProcList(heap, h, es);
    UntouchedTrans(old(heap.links.Table()), t1, heap.links.Table(), {h}, {h} + Slots(es), {h} + Slots(es));
    if ret != 0 {
      return Error(CantGetProcList), [];
    }
    RestoreLive(heap.live, old(heap.live), s);
    assert es[..|es|] == es;
    BuiltSlots(heap.live, old(heap.live), s, es, |es|);
    ghost var t2 := heap.links.Table();
    var failed;
    failed, attempted := DrainKill(heap, h, s, Selected(es), target, refused);
    UntouchedTrans(old(heap.links.Table()), t2, heap.links.Table(), {h} + Slots(es), SetOf(s), {h} + Slots(es));
    if failed {
      return Error(KillFailed), attempted;
    }
    reply := Values(0);
  }
}
