/**
  The process record of src/info.h and its lifecycle (src/info.c).

  A record `{pid, name, list}` lives in the heap at some index; its embedded
  `list` node is the node of the same index in the link arena, so taking the
  record that owns a list node (dlist_get_entry) is the identity on indices.
  The heap maps every live record to its pid and name; freeing a record
  removes it from the map.
*/
module Info {
  import opened DList

  /** The contents of a live record: the pid and its own copy of the name.
      Names are values, so the copy strdup makes is independent of the
      caller's buffer by construction. */
  datatype Info = Info(pid: int, name: seq<char>)

  class Heap {
    /** The list nodes embedded in the records (and any other list heads). */
    const links: Arena
    /** The records currently allocated, by index. */
    var live: map<int, Info>

    ghost predicate Valid()
      reads this, links
    {
      && links.Valid()
      && forall y :: y in live ==> 0 <= y < links.next.Length
    }

    constructor (arena: Arena)
      requires arena.Valid()
      ensures Valid() && links == arena && live == map[]
    {
      links := arena;
      live := map[];
    }

    /** procI_info_create. The allocator's answers are inputs: `slot` is the
        record calloc returns (NIL when it fails) and `strdupOk` says whether
        strdup manages to copy the name. The function returns 0 on every
        path; failure shows only as `info == NIL`, and a record built before
        strdup failed has been destroyed again. */
    method Create(pid: int, name: seq<char>, slot: int, strdupOk: bool) returns (ret: int, info: int)
      requires Valid()
      requires slot == NIL || (0 <= slot < links.next.Length && slot !in live)
      modifies this, links.next, links.prev
      ensures Valid()
      ensures ret == 0
      ensures info == NIL <==> slot == NIL || !strdupOk
      ensures info != NIL ==> info == slot && live == old(live)[info := Info(pid, name)]
      ensures info != NIL ==> links.Ring(info, [])
      ensures info == NIL ==> live == old(live)
      ensures slot == NIL ==> links.Table() == old(links.Table())
      ensures slot != NIL ==> Node(old(links.Table()), slot)
      ensures slot != NIL ==> links.Table() == SelfLink(old(links.Table()), slot)
    {
      ret := 0;
      info := slot;
      if info == NIL {
        Destroy(info);
        info := NIL;
        return;
      }
      // calloc: a zeroed record; its null name pointer is shown as "".
      live := live[info := Info(0, [])];
      if !strdupOk {
        Destroy(info);
        info := NIL;
        return;
      }
      live := live[info := live[info].(name := name)];
      live := live[info := live[info].(pid := pid)];
      links.Init(info);
    }

    /** procI_info_destroy: a null record is ignored; otherwise the record's
        list node is re-initialised and the record and its name are freed. */
    method Destroy(info: int)
      requires Valid() && (info == NIL || info in live)
      modifies this, links.next, links.prev
      ensures Valid()
      ensures live == old(live) - {info}
      ensures info == NIL ==> links.Table() == old(links.Table())
      ensures info != NIL ==> Node(old(links.Table()), info)
      ensures info != NIL ==> links.Table() == SelfLink(old(links.Table()), info)
    {
      if info != NIL {
        links.Init(info);
        live := live - {info};
      }
    }
  }
}
