/** An intrusive circular doubly-linked list (src/dlist.h).

    The link nodes live in an arena and are addressed by index: `next[i]` and
    `prev[i]` are the two pointer fields of node `i`, and `NIL` is the null
    pointer. A record and the link node embedded in it share one index, so the
    address arithmetic of `dlist_get_entry` becomes the identity.

    The pure part of the module describes the link fields as a value (`Links`),
    gives one function per pointer-rewiring helper, writing the fields in the
    order the C code writes them, and proves what each does to the contents of a
    ring. The class `Arena` performs the same writes on arrays. */
module DList {

  /** The null pointer stored into a removed entry's links. */
  const NIL: int := -1

  /** The `next` and `prev` fields of every node of the arena. */
  datatype Links = Links(next: seq<int>, prev: seq<int>)

  /** `x` names a node of the arena. */
  predicate Node(t: Links, x: int) {
    |t.next| == |t.prev| && 0 <= x < |t.next|
  }

  // ---------------------------------------------------------------------------
  // Pointer rewiring, one function per helper of the header
  // ---------------------------------------------------------------------------

  /** DLIST_INIT / DLIST_DECLARE: both links of `x` point to `x`. */
  function SelfLink(t: Links, x: int): Links
    requires Node(t, x)
  {
    Links(t.next[x := x], t.prev[x := x])
  }

  /** dlist_add__: link `x` between `p` and `n` (n->prev, x->next, x->prev, p->next). */
  function Insert(t: Links, x: int, p: int, n: int): Links
    requires Node(t, x) && Node(t, p) && Node(t, n)
  {
    Links(t.next[x := n][p := x], t.prev[n := x][x := p])
  }

  /** dlist_delete__: make `p` and `n` point to each other (n->prev, p->next). */
  function Bypass(t: Links, p: int, n: int): Links
    requires Node(t, p) && Node(t, n)
  {
    Links(t.next[p := n], t.prev[n := p])
  }

  /** The two null stores that end dlist_delete. */
  function Detach(t: Links, x: int): Links
    requires Node(t, x)
  {
    Links(t.next[x := NIL], t.prev[x := NIL])
  }

  /** dlist_splice__: first->prev, head->next, last->next, at->prev. */
  function SpliceLinks(t: Links, list: int, head: int): Links
    requires Node(t, list) && Node(t, head)
    requires Node(t, t.next[list]) && Node(t, t.prev[list]) && Node(t, t.next[head])
  {
    var first, last, at := t.next[list], t.prev[list], t.next[head];
    Links(t.next[head := first][last := at], t.prev[first := head][at := last])
  }

  /** dlist_move: dlist_delete__ on the entry's neighbours, then dlist_add after `h`. */
  function MoveLinks(t: Links, x: int, h: int): Links
    requires Node(t, x) && Node(t, h) && Node(t, t.prev[x]) && Node(t, t.next[x]) && Node(t, t.next[h])
  {
    var u := Bypass(t, t.prev[x], t.next[x]);
    Insert(u, x, h, u.next[h])
  }

  /** dlist_move_tail: dlist_delete__ on the entry's neighbours, then dlist_add_tail before `h`. */
  function MoveTailLinks(t: Links, x: int, h: int): Links
    requires Node(t, x) && Node(t, h) && Node(t, t.prev[x]) && Node(t, t.next[x]) && Node(t, t.prev[h])
  {
    var u := Bypass(t, t.prev[x], t.next[x]);
    Insert(u, x, u.prev[h], h)
  }

  // ---------------------------------------------------------------------------
  // Rings and their contents
  // ---------------------------------------------------------------------------

  ghost predicate Distinct(s: seq<int>) {
    forall i, j :: 0 <= i < j < |s| ==> s[i] != s[j]
  }

  /** The node after the i-th entry of the ring through `h` holding `s`. */
  function Succ(h: int, s: seq<int>, i: int): int
    requires 0 <= i < |s|
  {
    if i + 1 < |s| then s[i + 1] else h
  }

  /** The node before the i-th entry of the ring through `h` holding `s`. */
  function Pred(h: int, s: seq<int>, i: int): int
    requires 0 <= i < |s|
  {
    if i == 0 then h else s[i - 1]
  }

  /** The ring through the head `h` holds exactly the entries `s`, in order
      from `h->next`; `h` itself is not an entry. An empty ring is a head
      whose links point to itself. */
  ghost predicate RingIn(t: Links, h: int, s: seq<int>) {
    && Node(t, h)
    && h !in s
    && Distinct(s)
    && (forall i :: 0 <= i < |s| ==> Node(t, s[i]))
    && t.next[h] == (if s == [] then h else s[0])
    && t.prev[h] == (if s == [] then h else s[|s| - 1])
    // The triggers keep the unfolding of Succ and Pred from producing
    // fresh instances of these quantifiers on their own.
    && (forall i {:trigger t.next[s[i]]} :: 0 <= i < |s| ==> t.next[s[i]] == Succ(h, s, i))
    && (forall i {:trigger t.prev[s[i]]} :: 0 <= i < |s| ==> t.prev[s[i]] == Pred(h, s, i))
  }

  /** Every node of the ring through `h`, the head included. */
  ghost function Members(h: int, s: seq<int>): set<int> {
    {h} + set y | y in s
  }

  /** `u` has the same arena as `t` and the same links on every node of `m`. */
  ghost predicate AgreeOn(t: Links, u: Links, m: set<int>) {
    && |u.next| == |t.next|
    && |u.prev| == |t.prev|
    && forall y :: y in m && 0 <= y < |t.next| && y < |t.prev| ==> u.next[y] == t.next[y] && u.prev[y] == t.prev[y]
  }

  /** `u` has the same arena as `t` and the same links on every node outside
      `m`: only the nodes of `m` were written. */
  ghost predicate Untouched(t: Links, u: Links, m: set<int>) {
    && |u.next| == |t.next|
    && |u.prev| == |t.prev|
    && forall y :: 0 <= y < |t.next| && y < |t.prev| && y !in m ==> u.next[y] == t.next[y] && u.prev[y] == t.prev[y]
  }

  /** Two steps that each write only nodes of `m` together write only nodes of `m`. */
  lemma UntouchedTrans(t: Links, u: Links, w: Links, a: set<int>, b: set<int>, m: set<int>)
    requires Untouched(t, u, a) && Untouched(u, w, b) && a <= m && b <= m
    ensures Untouched(t, w, m)
  {
  }

  /** The entries `s` without the k-th one. */
  function RemoveAt(s: seq<int>, k: int): (r: seq<int>)
    requires 0 <= k < |s|
    ensures |r| == |s| - 1
    ensures forall i :: 0 <= i < k ==> r[i] == s[i]
    ensures forall i :: k <= i < |r| ==> r[i] == s[i + 1]
  {
    s[..k] + s[k + 1..]
  }

  // ---------------------------------------------------------------------------
  // What the rewiring does to ring contents
  // ---------------------------------------------------------------------------

  /** A ring only depends on the links of its own nodes: rewiring other nodes
      leaves it intact. */
  lemma {:induction false} RingFrame(t: Links, u: Links, h: int, s: seq<int>)
    requires RingIn(t, h, s)
    requires AgreeOn(t, u, Members(h, s))
    ensures RingIn(u, h, s)
  {
    assert h in Members(h, s);
    forall i | 0 <= i < |s|
      ensures u.next[s[i]] == Succ(h, s, i) && u.prev[s[i]] == Pred(h, s, i)
    {
      assert s[i] in Members(h, s);
    }
  }

  /** Link symmetry at the head of a ring. */
  lemma RingSymmetricHead(t: Links, h: int, s: seq<int>)
    requires RingIn(t, h, s)
    ensures t.next[h] in Members(h, s) && t.prev[h] in Members(h, s)
    ensures t.prev[t.next[h]] == h && t.next[t.prev[h]] == h
  {
    if s != [] {
      assert t.prev[s[0]] == Pred(h, s, 0);
      assert t.next[s[|s| - 1]] == Succ(h, s, |s| - 1);
      assert s[0] in Members(h, s) && s[|s| - 1] in Members(h, s);
    }
  }

  /** Link symmetry at the i-th entry of a ring. */
  lemma RingSymmetricAt(t: Links, h: int, s: seq<int>, i: int)
    requires RingIn(t, h, s) && 0 <= i < |s|
    ensures t.next[s[i]] in Members(h, s) && t.prev[s[i]] in Members(h, s)
    ensures t.prev[t.next[s[i]]] == s[i] && t.next[t.prev[s[i]]] == s[i]
  {
    assert t.next[s[i]] == Succ(h, s, i) && t.prev[s[i]] == Pred(h, s, i);
    if i + 1 < |s| {
      assert t.prev[s[i + 1]] == Pred(h, s, i + 1);
      assert s[i + 1] in Members(h, s);
    }
    if i > 0 {
      assert t.next[s[i - 1]] == Succ(h, s, i - 1);
      assert s[i - 1] in Members(h, s);
    }
  }

  /** Link symmetry: for every node of a ring, the head included,
      `x->next->prev == x` and `x->prev->next == x`, and both neighbours
      are nodes of the same ring. */
  lemma {:induction false} RingSymmetric(t: Links, h: int, s: seq<int>)
    requires RingIn(t, h, s)
    ensures forall y :: y in Members(h, s) ==>
      && t.next[y] in Members(h, s) && t.prev[y] in Members(h, s)
      && t.prev[t.next[y]] == y && t.next[t.prev[y]] == y
  {
    forall y | y in Members(h, s)
      ensures t.next[y] in Members(h, s) && t.prev[y] in Members(h, s)
      ensures t.prev[t.next[y]] == y && t.next[t.prev[y]] == y
    {
      if y == h {
        RingSymmetricHead(t, h, s);
      } else {
        var i :| 0 <= i < |s| && s[i] == y;
        RingSymmetricAt(t, h, s, i);
      }
    }
  }

  /** The node reached from `h` by following `next` k times (NIL once the
      walk leaves the arena). */
  ghost function Walk(t: Links, h: int, k: nat): int {
    if k == 0 then h
    else
      var p := Walk(t, h, k - 1);
      if 0 <= p < |t.next| then t.next[p] else NIL
  }

  /** Walking `next` from the head meets the entries in order and comes back
      to the head right after the last one: this is the order in which
      dlist_foreach visits them. */
  lemma {:induction false} RingWalk(t: Links, h: int, s: seq<int>, k: nat)
    requires RingIn(t, h, s)
    requires k <= |s|
    ensures Walk(t, h, k + 1) == if k < |s| then s[k] else h
  {
    if k > 0 {
      RingWalk(t, h, s, k - 1);
      assert t.next[s[k - 1]] == Succ(h, s, k - 1);
    }
  }

  /** The links determine the contents: a head has only one ring. */
  lemma {:induction false} RingUnique(t: Links, h: int, s: seq<int>, r: seq<int>)
    requires RingIn(t, h, s) && RingIn(t, h, r)
    ensures s == r
  {
    if |s| < |r| {
      RingWalk(t, h, s, |s|);
      RingWalk(t, h, r, |s|);
      assert false;
    }
    if |r| < |s| {
      RingWalk(t, h, r, |r|);
      RingWalk(t, h, s, |r|);
      assert false;
    }
    forall k | 0 <= k < |s|
      ensures s[k] == r[k]
    {
      RingWalk(t, h, s, k);
      RingWalk(t, h, r, k);
    }
  }

  lemma DistinctCons(x: int, s: seq<int>)
    requires Distinct(s) && x !in s
    ensures Distinct([x] + s)
  {
    var r := [x] + s;
    forall i, j | 0 <= i < j < |r|
      ensures r[i] != r[j]
    {
      assert r[j] == s[j - 1];
      if i > 0 {
        assert r[i] == s[i - 1];
      }
    }
  }

  lemma DistinctSnoc(s: seq<int>, x: int)
    requires Distinct(s) && x !in s
    ensures Distinct(s + [x])
  {
    var r := s + [x];
    forall i, j | 0 <= i < j < |r|
      ensures r[i] != r[j]
    {
      assert r[i] == s[i];
      if j < |s| {
        assert r[j] == s[j];
      }
    }
  }

  lemma DistinctRemoveAt(s: seq<int>, k: int)
    requires Distinct(s) && 0 <= k < |s|
    ensures Distinct(RemoveAt(s, k))
    ensures forall y :: y in RemoveAt(s, k) <==> y in s && y != s[k]
  {
    var r := RemoveAt(s, k);
    forall i, j | 0 <= i < j < |r|
      ensures r[i] != r[j]
    {
      var i', j' := if i < k then i else i + 1, if j < k then j else j + 1;
      assert r[i] == s[i'] && r[j] == s[j'] && i' < j';
    }
    forall y
      ensures y in r <==> y in s && y != s[k]
    {
      if y in r {
        var i :| 0 <= i < |r| && r[i] == y;
        assert y == s[if i < k then i else i + 1];
      }
      if y in s && y != s[k] {
        var i :| 0 <= i < |s| && s[i] == y;
        assert y == r[if i < k then i else i - 1];
      }
    }
  }

  lemma DistinctAppend(a: seq<int>, b: seq<int>)
    requires Distinct(a) && Distinct(b)
    requires forall y :: y in a ==> y !in b
    ensures Distinct(a + b)
  {
    var r := a + b;
    forall i, j | 0 <= i < j < |r|
      ensures r[i] != r[j]
    {
      if j < |a| {
        assert r[i] == a[i] && r[j] == a[j];
      } else if i >= |a| {
        assert r[i] == b[i - |a|] && r[j] == b[j - |a|];
      } else {
        assert r[i] == a[i] && a[i] in a;
        assert r[j] == b[j - |a|] && b[j - |a|] in b;
      }
    }
  }

  /** One entry of the ring after dlist_add. */
  lemma AddPrependsAt(t: Links, h: int, s: seq<int>, x: int, i: int)
    requires RingIn(t, h, s)
    requires Node(t, x) && x != h && x !in s
    requires 0 <= i <= |s|
    ensures var u, r := Insert(t, x, h, t.next[h]), [x] + s;
      Node(u, r[i]) && u.next[r[i]] == Succ(h, r, i) && u.prev[r[i]] == Pred(h, r, i)
  {
    var f := t.next[h];
    var r := [x] + s;
    if i > 0 {
      assert r[i] == s[i - 1] && r[i] != x && r[i] != h;
      assert t.next[s[i - 1]] == Succ(h, s, i - 1) == Succ(h, r, i);
      if i == 1 {
        assert s[0] == f;
      } else {
        assert t.prev[s[i - 1]] == Pred(h, s, i - 1) == Pred(h, r, i);
        assert s[i - 1] != f by { assert s[0] == f; }
      }
    }
  }

  /** dlist_add: an unlinked node inserted after the head becomes the first entry. */
  lemma {:induction false} AddPrepends(t: Links, h: int, s: seq<int>, x: int)
    requires RingIn(t, h, s)
    requires Node(t, x) && x !in Members(h, s)
    ensures RingIn(Insert(t, x, h, t.next[h]), h, [x] + s)
  {
    var u := Insert(t, x, h, t.next[h]);
    var r := [x] + s;
    assert x != h && x !in s;
    forall i | 0 <= i < |r|
      ensures Node(u, r[i]) && u.next[r[i]] == Succ(h, r, i) && u.prev[r[i]] == Pred(h, r, i)
    {
      AddPrependsAt(t, h, s, x, i);
    }
    DistinctCons(x, s);
  }

  /** One entry of the ring after dlist_add_tail. */
  lemma AddTailAppendsAt(t: Links, h: int, s: seq<int>, x: int, i: int)
    requires RingIn(t, h, s)
    requires Node(t, x) && x != h && x !in s
    requires 0 <= i <= |s|
    ensures var u, r := Insert(t, x, t.prev[h], h), s + [x];
      Node(u, r[i]) && u.next[r[i]] == Succ(h, r, i) && u.prev[r[i]] == Pred(h, r, i)
  {
    var l := t.prev[h];
    var r := s + [x];
    if i < |s| {
      assert r[i] == s[i] && r[i] != x && r[i] != h;
      assert t.prev[s[i]] == Pred(h, s, i) == Pred(h, r, i);
      if i == |s| - 1 {
        assert s[i] == l;
      } else {
        assert t.next[s[i]] == Succ(h, s, i) == Succ(h, r, i);
        assert s[i] != l by { assert s[|s| - 1] == l; }
      }
    }
  }

  /** dlist_add_tail: an unlinked node inserted before the head becomes the last entry. */
  lemma {:induction false} AddTailAppends(t: Links, h: int, s: seq<int>, x: int)
    requires RingIn(t, h, s)
    requires Node(t, x) && x !in Members(h, s)
    ensures RingIn(Insert(t, x, t.prev[h], h), h, s + [x])
  {
    var u := Insert(t, x, t.prev[h], h);
    var r := s + [x];
    assert x != h && x !in s;
    forall i | 0 <= i < |r|
      ensures Node(u, r[i]) && u.next[r[i]] == Succ(h, r, i) && u.prev[r[i]] == Pred(h, r, i)
    {
      AddTailAppendsAt(t, h, s, x, i);
    }
    DistinctSnoc(s, x);
  }

  /** One remaining entry of the ring after dlist_delete__. */
  lemma BypassRemovesAt(t: Links, h: int, s: seq<int>, k: int, i: int)
    requires RingIn(t, h, s)
    requires 0 <= k < |s| && 0 <= i < |s| - 1
    ensures var u, r := Bypass(t, Pred(h, s, k), Succ(h, s, k)), RemoveAt(s, k);
      Node(u, r[i]) && u.next[r[i]] == Succ(h, r, i) && u.prev[r[i]] == Pred(h, r, i)
  {
    var p, n := Pred(h, s, k), Succ(h, s, k);
    var r := RemoveAt(s, k);
    if i < k {
      assert r[i] == s[i];
      assert s[i] != n by { if k + 1 < |s| { assert s[k + 1] == n; } }
      assert t.prev[s[i]] == Pred(h, s, i) == Pred(h, r, i);
      if i == k - 1 {
        assert s[i] == p;
      } else {
        assert s[i] != p;
        assert t.next[s[i]] == Succ(h, s, i) == Succ(h, r, i);
      }
    } else {
      assert r[i] == s[i + 1];
      assert s[i + 1] != p by { if k > 0 { assert s[k - 1] == p; } }
      assert t.next[s[i + 1]] == Succ(h, s, i + 1) == Succ(h, r, i);
      if i == k {
        assert s[i + 1] == n;
      } else {
        assert s[i + 1] != n;
        assert t.prev[s[i + 1]] == Pred(h, s, i + 1) == Pred(h, r, i);
      }
    }
  }

  /** dlist_delete__ on an entry's neighbours unlinks exactly that entry: the
      others stay, in the same order. */
  lemma {:induction false} BypassRemoves(t: Links, h: int, s: seq<int>, k: int)
    requires RingIn(t, h, s)
    requires 0 <= k < |s|
    ensures t.prev[s[k]] == Pred(h, s, k) && t.next[s[k]] == Succ(h, s, k)
    ensures RingIn(Bypass(t, t.prev[s[k]], t.next[s[k]]), h, RemoveAt(s, k))
  {
    var p, n := Pred(h, s, k), Succ(h, s, k);
    assert t.prev[s[k]] == p && t.next[s[k]] == n;
    var u := Bypass(t, p, n);
    var r := RemoveAt(s, k);
    forall i | 0 <= i < |r|
      ensures Node(u, r[i]) && u.next[r[i]] == Succ(h, r, i) && u.prev[r[i]] == Pred(h, r, i)
    {
      BypassRemovesAt(t, h, s, k, i);
    }
    DistinctRemoveAt(s, k);
    if r != [] {
      if k == 0 {
        assert r[0] == s[1] == n;
      } else {
        assert r[0] == s[0] && s[0] != n;
      }
      if k == |s| - 1 {
        assert r[|r| - 1] == s[|s| - 2] == p;
      } else {
        assert r[|r| - 1] == s[|s| - 1] && s[|s| - 1] != p;
      }
    }
  }

  /** One entry of the joined ring after dlist_splice__. */
  lemma SpliceJoinsAt(t: Links, list: int, ls: seq<int>, head: int, hs: seq<int>, i: int)
    requires RingIn(t, list, ls) && RingIn(t, head, hs)
    requires Members(list, ls) !! Members(head, hs)
    requires ls != [] && 0 <= i < |ls| + |hs|
    ensures var u, r := SpliceLinks(t, list, head), ls + hs;
      Node(u, r[i]) && u.next[r[i]] == Succ(head, r, i) && u.prev[r[i]] == Pred(head, r, i)
  {
    var first, last, at := ls[0], ls[|ls| - 1], t.next[head];
    var r := ls + hs;
    assert first in Members(list, ls) && last in Members(list, ls);
    assert at == (if hs == [] then head else hs[0]);
    assert at in Members(head, hs);
    if i < |ls| {
      assert r[i] == ls[i] && r[i] in Members(list, ls);
      assert r[i] != head && r[i] != at;
      if i == |ls| - 1 {
        assert Succ(head, r, i) == at;
      } else {
        assert t.next[ls[i]] == Succ(list, ls, i) == Succ(head, r, i);
      }
      if i == 0 {
        assert Pred(head, r, i) == head;
      } else {
        assert t.prev[ls[i]] == Pred(list, ls, i) == Pred(head, r, i);
      }
    } else {
      var j := i - |ls|;
      assert r[i] == hs[j] && r[i] in Members(head, hs);
      assert r[i] != last && r[i] != first;
      assert t.next[hs[j]] == Succ(head, hs, j) == Succ(head, r, i);
      if j == 0 {
        assert hs[0] == at;
        assert Pred(head, r, i) == last;
      } else {
        assert t.prev[hs[j]] == Pred(head, hs, j) == Pred(head, r, i);
      }
    }
  }

  /** dlist_splice__: the entries of a non-empty ring `list` land, in order,
      right after `head`, in front of the entries already there; nothing is
      dropped or duplicated. */
  lemma {:induction false} SpliceJoins(t: Links, list: int, ls: seq<int>, head: int, hs: seq<int>)
    requires RingIn(t, list, ls) && RingIn(t, head, hs)
    requires Members(list, ls) !! Members(head, hs)
    requires ls != []
    ensures Node(t, t.next[list]) && Node(t, t.prev[list]) && Node(t, t.next[head])
    ensures RingIn(SpliceLinks(t, list, head), head, ls + hs)
  {
    var u := SpliceLinks(t, list, head);
    var r := ls + hs;
    forall i | 0 <= i < |r|
      ensures Node(u, r[i]) && u.next[r[i]] == Succ(head, r, i) && u.prev[r[i]] == Pred(head, r, i)
    {
      SpliceJoinsAt(t, list, ls, head, hs, i);
    }
    SpliceDistinct(list, ls, head, hs);
    SpliceJoinsHead(t, list, ls, head, hs);
  }

  /** The head's own links after dlist_splice__. */
  lemma SpliceJoinsHead(t: Links, list: int, ls: seq<int>, head: int, hs: seq<int>)
    requires RingIn(t, list, ls) && RingIn(t, head, hs)
    requires Members(list, ls) !! Members(head, hs)
    requires ls != []
    ensures var u, r := SpliceLinks(t, list, head), ls + hs;
      Node(u, head) && u.next[head] == r[0] && u.prev[head] == r[|r| - 1]
  {
    var first, last, at := ls[0], ls[|ls| - 1], t.next[head];
    var r := ls + hs;
    assert first in Members(list, ls) && last in Members(list, ls);
    assert head in Members(head, hs);
    assert r[0] == first;
    if hs == [] {
      assert at == head;
      assert r[|r| - 1] == last;
    } else {
      assert r[|r| - 1] == hs[|hs| - 1];
      assert hs[0] in Members(head, hs);
      assert at == hs[0];
    }
  }

  /** The joined entries are distinct and do not include the head. */
  lemma SpliceDistinct(list: int, ls: seq<int>, head: int, hs: seq<int>)
    requires Distinct(ls) && Distinct(hs) && head !in hs
    requires Members(list, ls) !! Members(head, hs)
    ensures Distinct(ls + hs) && head !in ls + hs
  {
    forall y | y in ls
      ensures y !in hs
    {
      assert y in Members(list, ls);
      assert y !in Members(head, hs);
    }
    DistinctAppend(ls, hs);
    assert head in Members(head, hs);
  }

  lemma BypassAgrees(t: Links, p: int, n: int, m: set<int>)
    requires Node(t, p) && Node(t, n) && p !in m && n !in m
    ensures AgreeOn(t, Bypass(t, p, n), m)
  {
  }

  lemma InsertAgrees(t: Links, x: int, p: int, n: int, m: set<int>)
    requires Node(t, x) && Node(t, p) && Node(t, n) && x !in m && p !in m && n !in m
    ensures AgreeOn(t, Insert(t, x, p, n), m)
  {
  }

  /** The neighbours of an entry are nodes of its ring. */
  lemma NeighboursAreMembers(t: Links, h: int, s: seq<int>, k: int)
    requires RingIn(t, h, s) && 0 <= k < |s|
    ensures t.prev[s[k]] == Pred(h, s, k) && t.next[s[k]] == Succ(h, s, k)
    ensures Pred(h, s, k) in Members(h, s) && Succ(h, s, k) in Members(h, s) && s[k] in Members(h, s)
  {
  }

  /** After dlist_delete__, the removed entry is a node of neither ring. */
  lemma RemovedIsOutside(h: int, s: seq<int>, k: int)
    requires Distinct(s) && h !in s && 0 <= k < |s|
    ensures s[k] !in Members(h, RemoveAt(s, k))
    ensures Members(h, RemoveAt(s, k)) <= Members(h, s)
  {
    DistinctRemoveAt(s, k);
  }

  /** dlist_move within one ring, to its own head: the entry becomes the
      first one and the others keep their order. */
  lemma MoveWithinRing(t: Links, h: int, s: seq<int>, k: int)
    requires RingIn(t, h, s) && 0 <= k < |s|
    ensures Node(t, t.prev[s[k]]) && Node(t, t.next[s[k]])
    ensures RingIn(Bypass(t, t.prev[s[k]], t.next[s[k]]), h, RemoveAt(s, k))
    ensures RingIn(MoveLinks(t, s[k], h), h, [s[k]] + RemoveAt(s, k))
    ensures Node(t, t.next[h]) && s[k] !in Members(h, RemoveAt(s, k))
  {
    BypassRemoves(t, h, s, k);
    RemovedIsOutside(h, s, k);
    AddPrepends(Bypass(t, t.prev[s[k]], t.next[s[k]]), h, RemoveAt(s, k), s[k]);
  }

  /** dlist_move_tail within one ring, to its own head: the entry becomes
      the last one and the others keep their order. */
  lemma MoveTailWithinRing(t: Links, h: int, s: seq<int>, k: int)
    requires RingIn(t, h, s) && 0 <= k < |s|
    ensures Node(t, t.prev[s[k]]) && Node(t, t.next[s[k]])
    ensures RingIn(Bypass(t, t.prev[s[k]], t.next[s[k]]), h, RemoveAt(s, k))
    ensures RingIn(MoveTailLinks(t, s[k], h), h, RemoveAt(s, k) + [s[k]])
    ensures Node(t, t.prev[h]) && s[k] !in Members(h, RemoveAt(s, k))
  {
    BypassRemoves(t, h, s, k);
    RemovedIsOutside(h, s, k);
    AddTailAppends(Bypass(t, t.prev[s[k]], t.next[s[k]]), h, RemoveAt(s, k), s[k]);
  }

  /** The first half of a move between two rings: after dlist_delete__ the
      source ring has lost the entry and the destination ring is intact. */
  lemma {:induction false} UnlinkAcrossRings(t: Links, h1: int, s1: seq<int>, k: int, h: int, s2: seq<int>)
    requires RingIn(t, h1, s1) && 0 <= k < |s1|
    requires RingIn(t, h, s2) && Members(h1, s1) !! Members(h, s2)
    ensures Node(t, t.prev[s1[k]]) && Node(t, t.next[s1[k]])
    ensures RingIn(Bypass(t, t.prev[s1[k]], t.next[s1[k]]), h1, RemoveAt(s1, k))
    ensures RingIn(Bypass(t, t.prev[s1[k]], t.next[s1[k]]), h, s2)
    ensures s1[k] !in Members(h, s2) && s1[k] !in Members(h1, RemoveAt(s1, k))
    ensures Members(h1, RemoveAt(s1, k)) !! Members(h, s2)
  {
    BypassRemoves(t, h1, s1, k);
    NeighboursAreMembers(t, h1, s1, k);
    RemovedIsOutside(h1, s1, k);
    var u := Bypass(t, t.prev[s1[k]], t.next[s1[k]]);
    BypassAgrees(t, t.prev[s1[k]], t.next[s1[k]], Members(h, s2));
    RingFrame(t, u, h, s2);
  }

  /** dlist_move between two rings with no node in common: the entry leaves
      the first ring, the others keep their order, and it becomes the first
      entry of the second. */
  lemma {:induction false} MoveAcrossRings(t: Links, h1: int, s1: seq<int>, k: int, h: int, s2: seq<int>)
    requires RingIn(t, h1, s1) && 0 <= k < |s1|
    requires RingIn(t, h, s2) && Members(h1, s1) !! Members(h, s2)
    ensures Node(t, t.prev[s1[k]]) && Node(t, t.next[s1[k]])
    ensures RingIn(Bypass(t, t.prev[s1[k]], t.next[s1[k]]), h, s2)
    ensures RingIn(MoveLinks(t, s1[k], h), h1, RemoveAt(s1, k))
    ensures RingIn(MoveLinks(t, s1[k], h), h, [s1[k]] + s2)
    ensures Node(t, t.next[h]) && s1[k] !in Members(h, s2)
  {
    UnlinkAcrossRings(t, h1, s1, k, h, s2);
    var x := s1[k];
    var u := Bypass(t, t.prev[x], t.next[x]);
    AddPrepends(u, h, s2, x);
    assert u.next[h] in Members(h, s2);
    InsertAgrees(u, x, h, u.next[h], Members(h1, RemoveAt(s1, k)));
    RingFrame(u, MoveLinks(t, x, h), h1, RemoveAt(s1, k));
  }

  /** dlist_move_tail between two rings with no node in common: as
      MoveAcrossRings, but the entry becomes the last of the second ring. */
  lemma {:induction false} MoveTailAcrossRings(t: Links, h1: int, s1: seq<int>, k: int, h: int, s2: seq<int>)
    requires RingIn(t, h1, s1) && 0 <= k < |s1|
    requires RingIn(t, h, s2) && Members(h1, s1) !! Members(h, s2)
    ensures Node(t, t.prev[s1[k]]) && Node(t, t.next[s1[k]])
    ensures RingIn(Bypass(t, t.prev[s1[k]], t.next[s1[k]]), h, s2)
    ensures RingIn(MoveTailLinks(t, s1[k], h), h1, RemoveAt(s1, k))
    ensures RingIn(MoveTailLinks(t, s1[k], h), h, s2 + [s1[k]])
    ensures Node(t, t.prev[h]) && s1[k] !in Members(h, s2)
  {
    UnlinkAcrossRings(t, h1, s1, k, h, s2);
    var x := s1[k];
    var u := Bypass(t, t.prev[x], t.next[x]);
    AddTailAppends(u, h, s2, x);
    assert u.prev[h] in Members(h, s2);
    InsertAgrees(u, x, u.prev[h], h, Members(h1, RemoveAt(s1, k)));
    RingFrame(u, MoveTailLinks(t, x, h), h1, RemoveAt(s1, k));
  }

  /** The state of dlist_foreach_safe part-way through a loop whose body
      deletes the current entry: the entries still ahead form the ring, and
      those already visited are unlinked and belong to it no more. */
  ghost predicate Drained(t: Links, h: int, rest: seq<int>, visited: seq<int>) {
    && RingIn(t, h, rest)
    && forall y :: y in visited ==> y !in Members(h, rest) && Node(t, y) && t.next[y] == NIL && t.prev[y] == NIL
  }

  /** One step of that loop: deleting the current entry keeps the state. */
  lemma DrainStep(t: Links, h: int, rest: seq<int>, visited: seq<int>)
    requires Drained(t, h, rest, visited) && rest != []
    ensures t.prev[rest[0]] == h && t.next[rest[0]] == Succ(h, rest, 0) && Node(t, t.next[rest[0]])
    ensures Drained(Detach(Bypass(t, h, Succ(h, rest, 0)), rest[0]), h, rest[1..], visited + [rest[0]])
  {
    var x, n := rest[0], Succ(h, rest, 0);
    assert t.next[x] == n && t.prev[x] == h && Node(t, n) by {
      assert t.next[x] == Succ(h, rest, 0) && t.prev[x] == Pred(h, rest, 0);
    }
    assert RingIn(Detach(Bypass(t, h, n), x), h, rest[1..]) by {
      BypassRemoves(t, h, rest, 0);
      assert RemoveAt(rest, 0) == rest[1..];
      FirstNotInTail(h, rest);
      DetachKeepsRing(Bypass(t, h, n), x, h, rest[1..]);
    }
    DrainStepVisited(t, h, rest, visited);
  }

  /** Nulling the links of a node outside a ring leaves the ring as it is. */
  lemma DetachKeepsRing(u: Links, x: int, h: int, r: seq<int>)
    requires RingIn(u, h, r) && Node(u, x) && x != h && x !in r
    ensures RingIn(Detach(u, x), h, r)
  {
    var w := Detach(u, x);
    assert x !in Members(h, r);
    RingFrame(u, w, h, r);
  }

  lemma DrainStepVisited(t: Links, h: int, rest: seq<int>, visited: seq<int>)
    requires Drained(t, h, rest, visited) && rest != []
    ensures var w := Detach(Bypass(t, h, Succ(h, rest, 0)), rest[0]);
      forall y :: y in visited + [rest[0]] ==>
        y !in Members(h, rest[1..]) && Node(w, y) && w.next[y] == NIL && w.prev[y] == NIL
  {
    FirstNotInTail(h, rest);
  }

  /** The first entry is no node of the ring that remains without it. */
  lemma FirstNotInTail(h: int, s: seq<int>)
    requires Distinct(s) && s != []
    ensures s[0] !in s[1..]
    ensures Members(h, s[1..]) <= Members(h, s)
  {
    forall j | 0 <= j < |s| - 1
      ensures s[1..][j] != s[0]
    {
      assert s[1..][j] == s[j + 1];
    }
  }

  lemma ShiftFirst(a: seq<int>, b: seq<int>)
    requires b != []
    ensures (a + [b[0]]) + b[1..] == a + b
  {
  }

  /** DLIST_INIT on a node outside a ring leaves the ring intact. */
  lemma SelfLinkKeepsRing(t: Links, x: int, h: int, s: seq<int>)
    requires RingIn(t, h, s) && Node(t, x) && x !in Members(h, s)
    ensures RingIn(SelfLink(t, x), h, s)
  {
    RingFrame(t, SelfLink(t, x), h, s);
  }

  /** What dlist_foreach_safe still relies on when its body re-initialises
      (rather than unlinks) each entry it visits: the `next` links of the
      entries ahead of the cursor still lead, in order, back to `h`. The
      head's own links and the `prev` links are no longer trusted. */
  ghost predicate Chain(t: Links, h: int, rest: seq<int>) {
    && Node(t, h)
    && h !in rest
    && Distinct(rest)
    && (forall i :: 0 <= i < |rest| ==> Node(t, rest[i]))
    && (forall i {:trigger t.next[rest[i]]} :: 0 <= i < |rest| ==> t.next[rest[i]] == Succ(h, rest, i))
  }

  /** A whole ring is such a chain. */
  lemma RingChain(t: Links, h: int, s: seq<int>)
    requires RingIn(t, h, s)
    ensures Chain(t, h, s)
    ensures t.next[h] == if s == [] then h else s[0]
  {
  }

  /** One step of that loop: re-initialising the current entry leaves the
      chain of the entries after it intact. */
  lemma {:induction false} ChainStep(t: Links, h: int, rest: seq<int>)
    requires Chain(t, h, rest) && rest != []
    ensures t.next[rest[0]] == (if |rest| == 1 then h else rest[1])
    ensures Chain(SelfLink(t, rest[0]), h, rest[1..])
  {
    assert t.next[rest[0]] == Succ(h, rest, 0);
    var u := SelfLink(t, rest[0]);
    forall i | 0 <= i < |rest| - 1
      ensures u.next[rest[1..][i]] == Succ(h, rest[1..], i)
    {
      assert rest[1..][i] == rest[i + 1] && rest[i + 1] != rest[0];
      assert t.next[rest[i + 1]] == Succ(h, rest, i + 1);
    }
    FirstNotInTail(h, rest);
    assert forall y :: y in rest[1..] ==> y in rest;
  }

  // ---------------------------------------------------------------------------
  // The arena: the same operations performed in place
  // ---------------------------------------------------------------------------

  /** Every link node of the program; `next[i]` and `prev[i]` are node i's
      pointer fields. */
  class Arena {
    const next: array<int>
    const prev: array<int>

    ghost predicate Valid()
      reads this
    {
      next != prev && next.Length == prev.Length
    }

    /** The current links, as a value. */
    ghost function Table(): Links
      reads this, next, prev
    {
      Links(next[..], prev[..])
    }

    /** The ring through `h` holds the entries `s`. */
    ghost predicate Ring(h: int, s: seq<int>)
      reads this, next, prev
    {
      RingIn(Table(), h, s)
    }

    /** An arena of `size` nodes, none of them linked yet. */
    constructor (size: nat)
      ensures Valid() && fresh(next) && fresh(prev) && next.Length == size
      ensures forall i :: 0 <= i < size ==> next[i] == NIL && prev[i] == NIL
    {
      next := new int[size](_ => NIL);
      prev := new int[size](_ => NIL);
    }

    /** DLIST_INIT / DLIST_DECLARE: make `x` an empty ring of its own. */
    method Init(x: int)
      requires Valid() && 0 <= x < next.Length
      modifies next, prev
      ensures Table() == SelfLink(old(Table()), x)
      ensures Ring(x, [])
    {
      next[x] := x;
      prev[x] := x;
    }

    /** dlist_add__: link `x` between the consecutive nodes `p` and `n`. */
    method InsertBetween(x: int, p: int, n: int)
      requires Valid()
      requires 0 <= x < next.Length && 0 <= p < next.Length && 0 <= n < next.Length
      modifies next, prev
      ensures Table() == Insert(old(Table()), x, p, n)
    {
      prev[n] := x;
      next[x] := n;
      prev[x] := p;
      next[p] := x;
    }

    /** dlist_add: `x`, linked into no ring, becomes the first entry after `h`. */
    method Add(x: int, h: int, ghost s: seq<int>)
      requires Valid() && Ring(h, s)
      requires 0 <= x < next.Length && x !in Members(h, s)
      modifies next, prev
      ensures Table() == Insert(old(Table()), x, h, old(next[h]))
      ensures Ring(h, [x] + s)
    {
      AddPrepends(Table(), h, s, x);
      InsertBetween(x, h, next[h]);
    }

    /** dlist_add_tail: `x`, linked into no ring, becomes the last entry before `h`. */
    method AddTail(x: int, h: int, ghost s: seq<int>)
      requires Valid() && Ring(h, s)
      requires 0 <= x < next.Length && x !in Members(h, s)
      modifies next, prev
      ensures Table() == Insert(old(Table()), x, old(prev[h]), h)
      ensures Ring(h, s + [x])
    {
      AddTailAppends(Table(), h, s, x);
      InsertBetween(x, prev[h], h);
    }

    /** dlist_delete__: make `p` and `n` point to each other. */
    method Unlink(p: int, n: int)
      requires Valid() && 0 <= p < next.Length && 0 <= n < next.Length
      modifies next, prev
      ensures Table() == Bypass(old(Table()), p, n)
    {
      prev[n] := p;
      next[p] := n;
    }

    /** dlist_delete: remove the k-th entry `x` of the ring through `h`; the
        other entries keep their order and `x`'s links become null. */
    method Delete(x: int, ghost h: int, ghost s: seq<int>, ghost k: int)
      requires Valid() && Ring(h, s)
      requires 0 <= k < |s| && s[k] == x
      modifies next, prev
      ensures Table() == Detach(Bypass(old(Table()), old(prev[x]), old(next[x])), x)
      ensures Ring(h, RemoveAt(s, k))
      ensures next[x] == NIL && prev[x] == NIL
      ensures Untouched(old(Table()), Table(), Members(h, s))
    {
      BypassRemoves(Table(), h, s, k);
      assert Pred(h, s, k) in Members(h, s) && Succ(h, s, k) in Members(h, s) && x in Members(h, s);
      Unlink(prev[x], next[x]);
      ghost var t := Table();
      next[x] := NIL;
      prev[x] := NIL;
      RingFrame(t, Table(), h, RemoveAt(s, k));
    }

    /** dlist_delete_and_init: as Delete, but `x` is left an empty ring of its own. */
    method DeleteAndInit(x: int, ghost h: int, ghost s: seq<int>, ghost k: int)
      requires Valid() && Ring(h, s)
      requires 0 <= k < |s| && s[k] == x
      modifies next, prev
      ensures Table() == SelfLink(Bypass(old(Table()), old(prev[x]), old(next[x])), x)
      ensures Ring(h, RemoveAt(s, k))
      ensures Ring(x, [])
    {
      BypassRemoves(Table(), h, s, k);
      Unlink(prev[x], next[x]);
      ghost var t := Table();
      Init(x);
      RingFrame(t, Table(), h, RemoveAt(s, k));
    }

    /** dlist_move: take the k-th entry `x` out of the ring through `h1` and
        make it the first entry after `h`. Either `h` is the head `h1` of the
        same ring, or it heads a ring `s2` sharing no node with the first. */
    method Move(x: int, h: int, ghost h1: int, ghost s1: seq<int>, ghost k: int, ghost s2: seq<int>)
      requires Valid() && Ring(h1, s1)
      requires 0 <= k < |s1| && s1[k] == x
      requires h != h1 ==> Ring(h, s2) && Members(h1, s1) !! Members(h, s2)
      modifies next, prev
      ensures Node(old(Table()), h) && Node(old(Table()), x)
      ensures Node(old(Table()), old(prev[x])) && Node(old(Table()), old(next[x]))
      ensures Node(old(Table()), old(next[h]))
      ensures Table() == MoveLinks(old(Table()), x, h)
      ensures h == h1 ==> Ring(h, [x] + RemoveAt(s1, k))
      ensures h != h1 ==> Ring(h1, RemoveAt(s1, k)) && Ring(h, [x] + s2)
    {
      ghost var t := Table();
      ghost var dest := if h == h1 then RemoveAt(s1, k) else s2;
      if h == h1 {
        MoveWithinRing(t, h, s1, k);
      } else {
        MoveAcrossRings(t, h1, s1, k, h, s2);
      }
      Unlink(prev[x], next[x]);
      assert Ring(h, dest);
      Add(x, h, dest);
      assert Table() == MoveLinks(t, x, h);
    }

    /** dlist_move_tail: as Move, but `x` becomes the last entry before `h`. */
    method MoveTail(x: int, h: int, ghost h1: int, ghost s1: seq<int>, ghost k: int, ghost s2: seq<int>)
      requires Valid() && Ring(h1, s1)
      requires 0 <= k < |s1| && s1[k] == x
      requires h != h1 ==> Ring(h, s2) && Members(h1, s1) !! Members(h, s2)
      modifies next, prev
      ensures Node(old(Table()), h) && Node(old(Table()), x)
      ensures Node(old(Table()), old(prev[x])) && Node(old(Table()), old(next[x]))
      ensures Node(old(Table()), old(prev[h]))
      ensures Table() == MoveTailLinks(old(Table()), x, h)
      ensures h == h1 ==> Ring(h, RemoveAt(s1, k) + [x])
      ensures h != h1 ==> Ring(h1, RemoveAt(s1, k)) && Ring(h, s2 + [x])
    {
      ghost var t := Table();
      ghost var dest := if h == h1 then RemoveAt(s1, k) else s2;
      if h == h1 {
        MoveTailWithinRing(t, h, s1, k);
      } else {
        MoveTailAcrossRings(t, h1, s1, k, h, s2);
      }
      Unlink(prev[x], next[x]);
      assert Ring(h, dest);
      AddTail(x, h, dest);
      assert Table() == MoveTailLinks(t, x, h);
    }

    /** dlist_is_empty: the ring through `h` has no entries. */
    method IsEmpty(h: int, ghost s: seq<int>) returns (b: bool)
      requires Valid() && Ring(h, s)
      ensures b <==> s == []
    {
      b := next[h] == h;
    }

    /** dlist_splice__: move every entry of the non-empty ring `list` to
        just after `head`. */
    method SpliceRaw(list: int, ghost ls: seq<int>, head: int, ghost hs: seq<int>)
      requires Valid() && Ring(list, ls) && Ring(head, hs)
      requires Members(list, ls) !! Members(head, hs)
      requires ls != []
      modifies next, prev
      ensures Node(old(Table()), old(next[list])) && Node(old(Table()), old(prev[list]))
      ensures Node(old(Table()), old(next[head]))
      ensures Table() == SpliceLinks(old(Table()), list, head)
      ensures Ring(head, ls + hs)
    {
      SpliceJoins(Table(), list, ls, head, hs);
      var first := next[list];
      var last := prev[list];
      var at := next[head];
      prev[first] := head;
      next[head] := first;
      next[last] := at;
      prev[at] := last;
    }

    /** dlist_splice: join the entries of `list` in front of those of `head`.
        An empty `list` changes nothing; otherwise `list`'s own links are left
        pointing into the joined ring. */
    method Splice(list: int, ghost ls: seq<int>, head: int, ghost hs: seq<int>)
      requires Valid() && Ring(list, ls) && Ring(head, hs)
      requires Members(list, ls) !! Members(head, hs)
      modifies next, prev
      ensures ls == [] ==> Table() == old(Table())
      ensures ls != [] ==> Table() == SpliceLinks(old(Table()), list, head)
      ensures Ring(head, ls + hs)
      ensures next[list] == old(next[list]) && prev[list] == old(prev[list])
    {
      var empty := IsEmpty(list, ls);
      if !empty {
        SpliceRaw(list, ls, head, hs);
        assert list in Members(list, ls);
      }
    }

    /** dlist_splice_and_init: as Splice, and `list` is left an empty ring. */
    method SpliceAndInit(list: int, ghost ls: seq<int>, head: int, ghost hs: seq<int>)
      requires Valid() && Ring(list, ls) && Ring(head, hs)
      requires Members(list, ls) !! Members(head, hs)
      modifies next, prev
      ensures ls == [] ==> Table() == old(Table())
      ensures ls != [] ==> Table() == SelfLink(SpliceLinks(old(Table()), list, head), list)
      ensures Ring(head, ls + hs)
      ensures Ring(list, [])
    {
      var empty := IsEmpty(list, ls);
      if !empty {
        SpliceRaw(list, ls, head, hs);
        ghost var t := Table();
        Init(list);
        assert list !in Members(head, ls + hs) by {
          assert list in Members(list, ls);
          assert forall i :: 0 <= i < |ls| ==> ls[i] in Members(list, ls);
        }
        RingFrame(t, Table(), head, ls + hs);
      } else {
        assert ls + hs == hs;
      }
    }

    /** dlist_foreach: the nodes visited, in order, are the ring's entries. */
    method Foreach(h: int, ghost s: seq<int>) returns (visited: seq<int>)
      requires Valid() && Ring(h, s)
      ensures visited == s
    {
      visited := [];
      var pos := next[h];
      ghost var k := 0;
      while pos != h
        invariant 0 <= k <= |s|
        invariant pos == if k < |s| then s[k] else h
        invariant visited == s[..k]
        decreases |s| - k
      {
        visited := visited + [pos];
        pos := next[pos];
        assert pos == Succ(h, s, k);
        k := k + 1;
      }
      assert s[..k] == s;
    }

    /** dlist_foreach_safe with a body that deletes the current entry: the
        successor is saved before the body runs, so every entry is visited
        once, in order, and the ring ends empty. */
    method ForeachSafe(h: int, ghost s: seq<int>) returns (visited: seq<int>)
      requires Valid() && Ring(h, s)
      modifies next, prev
      ensures visited == s
      ensures Ring(h, [])
      ensures forall y :: y in s ==> Node(Table(), y) && next[y] == NIL && prev[y] == NIL
      ensures Untouched(old(Table()), Table(), Members(h, s))
    {
      visited := [];
      var pos := next[h];
      var n := next[pos];
      ghost var rest := s;
      while pos != h
        invariant Valid() && Drained(Table(), h, rest, visited)
        invariant visited + rest == s
        invariant pos == if rest == [] then h else rest[0]
        invariant n == next[pos]
        invariant Members(h, rest) <= Members(h, s)
        invariant Untouched(old(Table()), Table(), Members(h, s))
        decreases |rest|
      {
        DrainStep(Table(), h, rest, visited);
        ShiftFirst(visited, rest);
        FirstNotInTail(h, rest);
        visited := visited + [pos];
        ghost var t := Table();
        Delete(pos, h, rest, 0);
        UntouchedTrans(old(Table()), t, Table(), Members(h, s), Members(h, rest), Members(h, s));
        rest := rest[1..];
        pos := n;
        n := next[pos];
      }
    }
  }
}
