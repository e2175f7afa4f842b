// The pool of watchpoints: nodes of a fixed array on two linked lists, the ones
// in use and the free ones (csrc/sdb/watchpoint.cpp: init_wp_pool, new_wp, free_wp).
module Watchpoints {

  // ----- Lists of node numbers -----

  predicate Sorted(l: seq<nat>) { forall i, j :: 0 <= i < j < |l| ==> l[i] < l[j] }

  predicate Disjoint(a: seq<nat>, b: seq<nat>) { forall x :: x in a ==> x !in b }

  /** x at its place in a sorted list. */
  function Inserted(l: seq<nat>, x: nat): seq<nat> {
    if l == [] then [x] else if x < l[0] then [x] + l else [l[0]] + Inserted(l[1..], x)
  }

  function Removed(l: seq<nat>, x: nat): seq<nat> {
    if l == [] then [] else if l[0] == x then l[1..] else [l[0]] + Removed(l[1..], x)
  }

  lemma {:induction false} InsertedAt(l: seq<nat>, x: nat, k: nat)
    requires k <= |l| && (forall i :: 0 <= i < k ==> l[i] <= x) && (k < |l| ==> x < l[k])
    ensures Inserted(l, x) == l[..k] + [x] + l[k..]
  {
    if k > 0 {
      InsertedAt(l[1..], x, k - 1);
      assert l[..k] == [l[0]] + l[1..][..k - 1] && l[k..] == l[1..][k - 1..];
    }
  }

  lemma {:induction false} RemovedAt(l: seq<nat>, k: nat)
    requires Sorted(l) && k < |l|
    ensures Removed(l, l[k]) == l[..k] + l[k + 1..]
  {
    if k == 0 {
      assert l[..0] + l[1..] == l[1..];
    } else {
      assert l[1..][k - 1] == l[k] && l[0] != l[k];
      RemovedAt(l[1..], k - 1);
      assert [l[0]] + (l[1..][..k - 1] + l[1..][k..]) == l[..k] + l[k + 1..];
    }
  }

  /** Where x belongs in a sorted list. */
  function PlaceOf(l: seq<nat>, x: nat): (k: nat)
    requires Sorted(l) && x !in l
    ensures k <= |l| && (forall i :: 0 <= i < k ==> l[i] < x) && (forall i :: k <= i < |l| ==> x < l[i])
  {
    if l == [] || x < l[0] then 0 else 1 + PlaceOf(l[1..], x)
  }

  lemma {:induction false} InsertedMembers(l: seq<nat>, x: nat)
    ensures forall y :: y in Inserted(l, x) <==> y == x || y in l
  {
    if l != [] && x >= l[0] {
      InsertedMembers(l[1..], x);
      assert l == [l[0]] + l[1..];
    }
  }

  lemma SpliceSorted(l: seq<nat>, x: nat, k: nat)
    requires Sorted(l) && k <= |l| && (forall i :: 0 <= i < k ==> l[i] < x) && (forall i :: k <= i < |l| ==> x < l[i])
    ensures Sorted(l[..k] + [x] + l[k..])
  {
    var s := l[..k] + [x] + l[k..];
    assert forall i :: 0 <= i < |s| ==> s[i] == if i < k then l[i] else if i == k then x else l[i - 1];
  }

  lemma InsertedKeepsOrder(l: seq<nat>, x: nat)
    requires Sorted(l) && x !in l
    ensures Sorted(Inserted(l, x))
  {
    var k := PlaceOf(l, x);
    InsertedAt(l, x, k);
    SpliceSorted(l, x, k);
  }

  lemma CutSorted(l: seq<nat>, k: nat)
    requires Sorted(l) && k < |l|
    ensures Sorted(l[..k] + l[k + 1..])
  {
    var s := l[..k] + l[k + 1..];
    forall i, j | 0 <= i < j < |s| ensures s[i] < s[j] {
      assert s[i] == l[if i < k then i else i + 1] && s[j] == l[if j < k then j else j + 1];
    }
  }

  lemma RemovedKeepsOrder(l: seq<nat>, k: nat)
    requires Sorted(l) && k < |l|
    ensures Sorted(Removed(l, l[k]))
  {
    RemovedAt(l, k);
    CutSorted(l, k);
  }

  lemma {:induction false} RemovedMembers(l: seq<nat>, x: nat)
    requires Sorted(l)
    ensures forall y :: y in Removed(l, x) <==> y != x && y in l
  {
    if l != [] {
      assert l == [l[0]] + l[1..];
      if l[0] != x { RemovedMembers(l[1..], x); }
    }
  }

  // ----- The two lists -----

  datatype Lists = Lists(used: seq<nat>, spare: seq<nat>)

  /** Both lists are sorted, share no number, and together hold every number of the pool. */
  ghost predicate Whole(s: Lists, size: nat) {
    && Sorted(s.used) && Sorted(s.spare) && Disjoint(s.used, s.spare)
    && (forall x: nat :: x < size <==> x in s.used || x in s.spare)
  }

  /** The smallest free number comes into use. */
  function AfterNew(s: Lists): Lists {
    if s.spare == [] then s else Lists(Inserted(s.used, s.spare[0]), s.spare[1..])
  }

  /** A number in use becomes free again, but only next to other free ones. */
  function AfterFree(s: Lists, n: nat): Lists {
    if n !in s.used then s
    else Lists(Removed(s.used, n), if s.spare == [] then [] else Inserted(s.spare, n))
  }

  /** new_wp takes the smallest unused number and loses none. */
  lemma NewTakesSmallest(s: Lists, size: nat)
    requires Whole(s, size)
    ensures Whole(AfterNew(s), size)
    ensures s.spare == [] <==> forall x: nat :: x < size ==> x in s.used
    ensures s.spare != [] ==> s.spare[0] !in s.used && forall x: nat :: x < s.spare[0] ==> x in s.used
    ensures s.spare != [] ==>
      forall y :: (y in AfterNew(s).used <==> y in s.used || y == s.spare[0])
                  && (y in AfterNew(s).spare <==> y in s.spare && y != s.spare[0])
  {
    if s.spare == [] {
    } else {
      var x, rest := s.spare[0], s.spare[1..];
      assert s.spare == [x] + rest;
      assert forall i :: 0 <= i < |rest| ==> rest[i] == s.spare[i + 1];
      assert x in s.spare;
      InsertedMembers(s.used, x);
      InsertedKeepsOrder(s.used, x);
    }
  }

  /** free_wp of a number in use loses it exactly when no number was free. */
  lemma FreeKeepsPool(s: Lists, size: nat, n: nat)
    requires Whole(s, size) && n in s.used
    ensures Whole(AfterFree(s, n), size) <==> s.spare != []
    ensures s.spare == [] ==> n !in AfterFree(s, n).used && n !in AfterFree(s, n).spare
    ensures s.spare != [] ==>
      forall y :: (y in AfterFree(s, n).used <==> y in s.used && y != n)
                  && (y in AfterFree(s, n).spare <==> y in s.spare || y == n)
  {
    var k :| 0 <= k < |s.used| && s.used[k] == n;
    RemovedKeepsOrder(s.used, k);
    RemovedMembers(s.used, n);
    assert n < size;
    if s.spare == [] {
    } else {
      InsertedMembers(s.spare, n);
      InsertedKeepsOrder(s.spare, n);
    }
  }

  datatype Call = NewCall | FreeCall(n: nat)

  function AfterCalls(s: Lists, calls: seq<Call>): Lists
    decreases |calls|
  {
    if calls == [] then s
    else AfterCalls(if calls[0].NewCall? then AfterNew(s) else AfterFree(s, calls[0].n), calls[1..])
  }

  /** Every released number is in use, and some number is free at that time. */
  predicate Proper(s: Lists, calls: seq<Call>)
    decreases |calls|
  {
    calls == []
    || (calls[0].NewCall? && Proper(AfterNew(s), calls[1..]))
    || (calls[0].FreeCall? && calls[0].n in s.used && s.spare != [] && Proper(AfterFree(s, calls[0].n), calls[1..]))
  }

  /** Any sequence of proper calls keeps all numbers on the two lists. */
  lemma {:induction false} CallsKeepPool(s: Lists, size: nat, calls: seq<Call>)
    requires Whole(s, size) && Proper(s, calls)
    ensures Whole(AfterCalls(s, calls), size)
    decreases |calls|
  {
    if calls != [] {
      if calls[0].NewCall? {
        NewTakesSmallest(s, size);
        CallsKeepPool(AfterNew(s), size, calls[1..]);
      } else {
        FreeKeepsPool(s, size, calls[0].n);
        CallsKeepPool(AfterFree(s, calls[0].n), size, calls[1..]);
      }
    }
  }

  function Numbers(a: nat, b: nat): (l: seq<nat>)
    requires a <= b
    ensures |l| == b - a && forall i :: 0 <= i < |l| ==> l[i] == a + i
  {
    seq(b - a, i => a + i)
  }

  function NewCalls(k: nat): seq<Call> { seq(k, i => NewCall) }

  lemma {:induction false} NewCallsTake(a: nat, size: nat)
    requires a <= size
    ensures AfterCalls(Lists(Numbers(0, a), Numbers(a, size)), NewCalls(size - a)) == Lists(Numbers(0, size), [])
    ensures Proper(Lists(Numbers(0, a), Numbers(a, size)), NewCalls(size - a))
    decreases size - a
  {
    if a < size {
      InsertedAt(Numbers(0, a), a, a);
      assert Inserted(Numbers(0, a), a) == Numbers(0, a + 1);
      assert Numbers(a, size)[1..] == Numbers(a + 1, size);
      assert NewCalls(size - a)[1..] == NewCalls(size - a - 1);
      NewCallsTake(a + 1, size);
    }
  }

  /** A node can be lost: after as many calls of new_wp as the pool has nodes,
      none is free, and free_wp of any number n drops it from both lists. */
  lemma FullPoolLosesNode(size: nat, n: nat)
    requires n < size
    ensures var full := AfterCalls(Lists([], Numbers(0, size)), NewCalls(size));
            && Proper(Lists([], Numbers(0, size)), NewCalls(size))
            && Whole(full, size) && n in full.used && full.spare == [] && !Whole(AfterFree(full, n), size)
  {
    NewCallsTake(0, size);
    assert Numbers(0, 0) == [];
    var full := Lists(Numbers(0, size), []);
    assert full.used[n] == n;
    forall x: nat | x < size ensures x in full.used { assert full.used[x] == x; }
    FreeKeepsPool(full, size, n);
  }

  // ----- Links -----

  const NULL := -1

  /** Node i of the list leads to the next one, the last node to q. */
  predicate LinkAt(next: seq<int>, l: seq<nat>, i: nat, q: int)
    requires i < |l|
  {
    l[i] < |next| && next[l[i]] == if i + 1 < |l| then l[i + 1] else q
  }

  /** From p, the links visit the nodes of l in order and then lead to q. */
  predicate Linked(next: seq<int>, l: seq<nat>, p: int, q: int) {
    p == (if l == [] then q else l[0]) && forall i: nat :: i < |l| ==> LinkAt(next, l, i, q)
  }

  predicate InRange(next: seq<int>) { forall i :: 0 <= i < |next| ==> NULL <= next[i] < |next| }

  class WatchpointPool {
    /** NR_WP. */
    const size: nat
    const next: array<int>
    var head: int
    var free: int
    ghost var used: seq<nat>
    ghost var spare: seq<nat>

    /** Both lists are what the links say; they are sorted and share no node. */
    ghost predicate Valid()
      reads this, next
    {
      && next.Length == size && InRange(next[..])
      && Linked(next[..], used, head, NULL) && Linked(next[..], spare, free, NULL)
      && Sorted(used) && Sorted(spare) && Disjoint(used, spare)
    }

    /** init_wp_pool. */
    constructor (size: nat)
      requires size > 0
      ensures Valid() && this.size == size && used == [] && Whole(Lists(used, spare), size)
      ensures fresh(next)
    {
      this.size := size;
      next := new int[size];
      head, free := NULL, 0;
      used, spare := [], seq(size, i => i);
      new;
      var i := 0;
      while i < size
        invariant i <= size && head == NULL && free == 0 && used == [] && spare == seq(size, i => i)
        invariant forall j :: 0 <= j < i ==> next[j] == if j == size - 1 then NULL else j + 1
      {
        next[i] := if i == size - 1 then NULL else i + 1;
        i := i + 1;
      }
      forall j: nat | j < size ensures j in spare { assert spare[j] == j; }
    }

    /** The loop that puts a node into a sorted list, for both lists. After it has
        appended the node it visits the node itself once more. An empty list is
        left empty. */
    method InsertNode(first: int, node: nat, ghost l: seq<nat>) returns (newFirst: int)
      requires next.Length == size && node < size && node !in l
      requires InRange(next[..])
      requires Linked(next[..], l, first, NULL) && Sorted(l)
      modifies next
      ensures InRange(next[..])
      ensures l == [] ==> newFirst == NULL && next[..] == old(next[..])
      ensures l != [] ==> Linked(next[..], Inserted(l, node), newFirst, NULL)
      ensures forall i: nat :: i < size && i !in l && i != node ==> next[i] == old(next[i])
    {
      newFirst := first;
      var pre, iter := NULL, first;
      ghost var k, appended, links := 0, false, next[..];
      while iter != NULL
        invariant newFirst == first && k <= |l| && |next[..]| == size
        invariant !appended ==> next[..] == links && iter == (if l == [] then NULL else if k < |l| then l[k] else node)
        invariant !appended ==> (l != [] ==> k < |l|) && pre == if k > 0 then l[k - 1] else NULL
        invariant appended ==> (iter == node || iter == NULL) && l != [] && l[|l| - 1] < |links|
        invariant appended ==> next[..] == Appended(links, l[|l| - 1], node)
        invariant forall i :: 0 <= i < |l| && (i < k || appended) ==> l[i] < node
        decreases if appended then (if iter == NULL then 0 else 1) else |l| - k + 2
      {
        assert !appended ==> LinkAt(links, l, k, NULL);
        if node < iter {
          if pre == NULL { newFirst := node; } else { next[pre] := node; }
          next[node] := iter;
          InsertedLinks(links, next[..], l, first, node, k);
          return;
        } else if next[iter] == NULL {
          next[iter] := node;
          next[node] := NULL;
          appended := true;
        }
        if !appended { k := k + 1; }
        pre, iter := iter, next[iter];
      }
      if l != [] {
        InsertedLinks(links, next[..], l, first, node, |l|);
      }
    }

    /** new_wp: the first free node joins the list of used ones; NULL when none is free. */
    method NewWp() returns (node: int)
      requires Valid()
      modifies this, next
      ensures Valid()
      ensures node == if old(spare) == [] then NULL else old(spare)[0]
      ensures Lists(used, spare) == AfterNew(old(Lists(used, spare)))
    {
      if free == NULL { return NULL; }
      node := free;
      ghost var x, rest, before := spare[0], spare[1..], next[..];
      FirstTaken(before, used, spare, free);
      free := next[free];
      if head == NULL {
        head := node;
        next[node] := NULL;
        assert used == [] && Linked(next[..], [x], node, NULL);
      } else {
        head := InsertNode(head, node, used);
      }
      NodeTaken(before, next[..], used, rest, free, x);
      used, spare := Inserted(used, x), rest;
    }

    /** free_wp. The program stops when the number is not in use (an assertion in
        the source fails). A node released while none is free is lost. */
    method FreeWp(n: nat) returns (result: Freed)
      requires Valid()
      modifies this, next
      ensures Valid()
      ensures result == (if n > size then NoSuchNumber else if n in old(used) then Released else NotInUse)
      ensures Lists(used, spare) == if n <= size then AfterFree(old(Lists(used, spare)), n) else old(Lists(used, spare))
    {
      if n > size { return NoSuchNumber; }
      var pre, iter := NULL, head;
      ghost var k, before := 0, next[..];
      assert used != [] ==> LinkAt(before, used, 0, NULL);
      while iter != NULL && iter != n
        invariant NULL <= iter < size && NULL <= pre < size && k <= |used|
        invariant iter == (if k < |used| then used[k] else NULL) && pre == (if k > 0 then used[k - 1] else NULL)
        invariant forall i :: 0 <= i < k ==> used[i] != n
        decreases |used| - k
      {
        assert LinkAt(before, used, k, NULL);
        k := k + 1;
        pre, iter := iter, next[iter];
      }
      if iter == NULL { return NotInUse; }
      assert LinkAt(before, used, k, NULL);
      if pre == NULL { head := next[iter]; } else { next[pre] := next[iter]; }
      RemovedLinks(before, next[..], used, old(head), k);
      LinkedElsewhere(before, next[..], spare, free, used);
      ghost var middle, rest := next[..], Removed(used, n);
      free := InsertNode(free, n, spare);
      NodeReleased(middle, next[..], rest, head, used, spare, n);
      used, spare := rest, if spare == [] then [] else Inserted(spare, n);
      result := Released;
    }
  }

  datatype Freed = NoSuchNumber | NotInUse | Released

  function Appended(links: seq<int>, last: nat, node: nat): seq<int>
    requires last < |links| && node < |links|
  {
    links[last := node][node := NULL]
  }

  lemma UnlinkFirst(links: seq<int>, l: seq<nat>, p: int)
    requires Linked(links, l, p, NULL) && l != []
    ensures l[0] < |links| && Linked(links, l[1..], links[l[0]], NULL)
  {
    assert LinkAt(links, l, 0, NULL);
    forall i: nat | i < |l[1..]| ensures LinkAt(links, l[1..], i, NULL) {
      assert LinkAt(links, l, i + 1, NULL);
    }
  }

  /** A list whose nodes keep their links is still linked. */
  lemma LinkedElsewhere(links: seq<int>, now: seq<int>, l: seq<nat>, p: int, changed: seq<nat>)
    requires Linked(links, l, p, NULL) && |now| == |links|
    requires forall i: nat :: i < |links| && i !in changed ==> now[i] == links[i]
    requires Disjoint(l, changed)
    ensures Linked(now, l, p, NULL)
  {
    forall i: nat | i < |l| ensures LinkAt(now, l, i, NULL) {
      assert LinkAt(links, l, i, NULL);
    }
  }

  lemma FirstTaken(links: seq<int>, used: seq<nat>, spare: seq<nat>, p: int)
    requires Linked(links, spare, p, NULL) && Sorted(spare) && Disjoint(used, spare) && spare != []
    ensures var x, rest := spare[0], spare[1..];
            && x < |links| && Linked(links, rest, links[x], NULL) && Sorted(rest)
            && x !in rest && x !in used && Disjoint(used, rest)
  {
    UnlinkFirst(links, spare, p);
    assert spare == [spare[0]] + spare[1..];
    assert forall i :: 0 <= i < |spare[1..]| ==> spare[1..][i] == spare[i + 1];
  }

  lemma NodeTaken(links: seq<int>, now: seq<int>, used: seq<nat>, rest: seq<nat>, p: int, x: nat)
    requires Linked(links, rest, p, NULL) && |now| == |links| && Sorted(used) && Disjoint(used, rest)
             && x !in used && x !in rest
    requires forall i: nat :: i < |links| && i !in used && i != x ==> now[i] == links[i]
    ensures Linked(now, rest, p, NULL) && Sorted(Inserted(used, x)) && Disjoint(Inserted(used, x), rest)
  {
    InsertedMembers(used, x);
    InsertedKeepsOrder(used, x);
    LinkedElsewhere(links, now, rest, p, used + [x]);
  }

  lemma NodeReleased(links: seq<int>, now: seq<int>, rest: seq<nat>, p: int, used: seq<nat>, spare: seq<nat>, n: nat)
    requires Linked(links, rest, p, NULL) && |now| == |links| && Sorted(used) && Sorted(spare) && Disjoint(used, spare)
    requires n in used && n !in spare && rest == Removed(used, n)
    requires forall i: nat :: i < |links| && i !in spare && i != n ==> now[i] == links[i]
    ensures Linked(now, rest, p, NULL) && Disjoint(rest, if spare == [] then [] else Inserted(spare, n))
    ensures Sorted(rest) && Sorted(Inserted(spare, n))
  {
    var k :| 0 <= k < |used| && used[k] == n;
    RemovedKeepsOrder(used, k);
    RemovedMembers(used, n);
    InsertedKeepsOrder(spare, n);
    InsertedMembers(spare, n);
    LinkedElsewhere(links, now, rest, p, spare + [n]);
  }

  /** The links with l[k] skipped. */
  lemma RemovedLinks(links: seq<int>, now: seq<int>, l: seq<nat>, first: int, k: nat)
    requires Linked(links, l, first, NULL) && Sorted(l) && k < |l| && |now| == |links| && l[k] < |links|
    requires k > 0 ==> l[k - 1] < |links|
    requires now == if k > 0 then links[l[k - 1] := links[l[k]]] else links
    ensures Linked(now, Removed(l, l[k]), if k > 0 then first else links[l[0]], NULL)
    ensures forall i: nat :: i < |links| && i !in l ==> now[i] == links[i]
  {
    RemovedAt(l, k);
    var s := l[..k] + l[k + 1..];
    assert LinkAt(links, l, k, NULL);
    forall i: nat | i < |s| ensures LinkAt(now, s, i, NULL) {
      SkippedLink(links, now, l, first, k, i);
    }
  }

  lemma SkippedLink(links: seq<int>, now: seq<int>, l: seq<nat>, first: int, k: nat, i: nat)
    requires Linked(links, l, first, NULL) && Sorted(l) && k < |l| && |now| == |links| && l[k] < |links| && i + 1 < |l|
    requires k > 0 ==> l[k - 1] < |links|
    requires now == if k > 0 then links[l[k - 1] := links[l[k]]] else links
    ensures LinkAt(now, l[..k] + l[k + 1..], i, NULL)
  {
    var s := l[..k] + l[k + 1..];
    assert LinkAt(links, l, k, NULL);
    if i < k {
      assert LinkAt(links, l, i, NULL);
      assert s[i] == l[i] && (i + 1 < |s| ==> s[i + 1] == l[if i + 1 < k then i + 1 else i + 2]);
      assert i + 1 < k ==> l[i] != l[k - 1];
    } else {
      assert LinkAt(links, l, i + 1, NULL);
      assert s[i] == l[i + 1] && (i + 1 < |s| ==> s[i + 1] == l[i + 2]);
      assert k > 0 ==> l[i + 1] != l[k - 1];
    }
  }

  /** The links around a node that comes between l[k - 1] and l[k]. */
  lemma SplicedLink(links: seq<int>, now: seq<int>, l: seq<nat>, first: int, node: nat, k: nat, i: nat)
    requires Linked(links, l, first, NULL) && Sorted(l) && node < |links| == |now| && node !in l && k <= |l| && i <= |l|
    requires k > 0 ==> l[k - 1] < |links|
    requires now == (if k > 0 then links[l[k - 1] := node] else links)[node := if k < |l| then l[k] else NULL]
    ensures LinkAt(now, l[..k] + [node] + l[k..], i, NULL)
  {
    var s := l[..k] + [node] + l[k..];
    if i < k {
      assert LinkAt(links, l, i, NULL) && LinkAt(links, l, k - 1, NULL);
      assert s[i] == l[i] && s[i + 1] == (if i + 1 < k then l[i + 1] else node) && (i + 1 < k ==> l[i] != l[k - 1]);
    } else if i > k {
      assert LinkAt(links, l, i - 1, NULL);
      assert s[i] == l[i - 1] && (i + 1 < |s| ==> s[i + 1] == l[i]) && (k > 0 ==> l[i - 1] != l[k - 1]);
    } else {
      assert s[i] == node && (i + 1 < |s| ==> s[i + 1] == l[k]);
    }
  }

  lemma InsertedLinks(links: seq<int>, now: seq<int>, l: seq<nat>, first: int, node: nat, k: nat)
    requires Linked(links, l, first, NULL) && Sorted(l) && node < |links| == |now| && node !in l && k <= |l|
    requires (forall i :: 0 <= i < k ==> l[i] < node) && (k < |l| ==> node < l[k])
    requires k > 0 ==> l[k - 1] < |links|
    requires now == (if k > 0 then links[l[k - 1] := node] else links)[node := if k < |l| then l[k] else NULL]
    ensures Linked(now, Inserted(l, node), if k == 0 then node else first, NULL)
    ensures forall i: nat :: i < |links| && i !in l && i != node ==> now[i] == links[i]
  {
    InsertedAt(l, node, k);
    var s := l[..k] + [node] + l[k..];
    forall i: nat | i < |s| ensures LinkAt(now, s, i, NULL) {
      SplicedLink(links, now, l, first, node, k, i);
    }
  }
}
