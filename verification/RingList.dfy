/**
 The list of kernel/usac/taro_mani_mem.c on the heap: a ring of list_head links through a head that is no entry.
 Every access is recorded against the nodes that are allocated, so that one to a freed node shows.
 */
module RingList {
  import opened Options
  import L = LimitList

  /** A missing link is a pointer that faults when it is followed, such as the poison that list_del leaves. */
  class Node {
    const pid: int
    var limit: nat
    var next: Node?
    var prev: Node?

    constructor (pid: int, limit: nat)
      ensures this.pid == pid && this.limit == limit && next == null && prev == null
    {
      this.pid, this.limit, next, prev := pid, limit, null, null;
    }
  }

  class Ring {
    const head: Node
    ghost var nodes: seq<Node>        // the entries in list order
    ghost var contents: seq<L.Entry>
    ghost var live: set<Node>         // the entries allocated and not yet freed
    ghost var badAccess: bool         // a node was read or written that was not allocated, or the head as an entry

    /** The ring from the head, and back to it. */
    ghost function At(i: int): Node
      reads this
    {
      if 0 <= i < |nodes| then nodes[i] else head
    }

    ghost function Up(j: int): int
      reads this
    {
      if j == |nodes| then 0 else j + 1
    }

    ghost function Down(j: int): int
      reads this
    {
      if j == 0 then |nodes| else j - 1
    }

    /** Position i and its neighbours are linked both ways; the head is at position |nodes|. */
    ghost predicate Link(i: int)
      reads this, head, nodes
    {
      At(i).next == At(Up(i)) && At(i).prev == At(Down(i))
    }

    ghost predicate Holds(i: int)
      reads this, nodes
    {
      0 <= i < |nodes| == |contents| && contents[i] == L.Entry(nodes[i].pid, nodes[i].limit)
    }

    ghost predicate Distinct()
      reads this
    {
      head !in nodes && forall i, j :: 0 <= i < j < |nodes| ==> nodes[i] != nodes[j]
    }

    ghost predicate Linked()
      reads this, head, nodes
    {
      forall i :: 0 <= i <= |nodes| ==> Link(i)
    }

    /** A ring through distinct nodes that hold the contents, none leaked and none dangling. */
    ghost predicate Sound()
      reads this, head, nodes
    {
      && Distinct() && Linked() && |contents| == |nodes| && (forall i :: 0 <= i < |nodes| ==> Holds(i))
      && live == (set n | n in nodes) && L.Proper(contents)
    }

    constructor ()
      ensures Sound() && contents == [] && !badAccess && fresh(head)
    {
      head := new Node(0, 0);
      nodes, contents, live, badAccess := [], [], {}, false;
      new;
      head.next, head.prev := head, head;
    }

    /** An access to the links of a node. */
    ghost method TouchLinks(n: Node)
      modifies this`badAccess
      ensures badAccess == (old(badAccess) || (n !in live && n != head))
    {
      badAccess := badAccess || (n !in live && n != head);
    }

    /** An access to the pid or limit of a node. */
    ghost method TouchEntry(n: Node)
      modifies this`badAccess
      ensures badAccess == (old(badAccess) || n !in live)
    {
      badAccess := badAccess || n !in live;
    }

    /** list_for_each_entry up to the entry of `pid`; the head if there is none. */
    method Find(pid: int) returns (cur: Node, ghost i: nat)
      requires Sound()
      modifies this`badAccess
      ensures badAccess == old(badAccess)
      ensures i <= |nodes| && cur == At(i) && (i < |nodes| ==> contents[i].pid == pid)
      ensures forall k :: 0 <= k < i ==> contents[k].pid != pid
      ensures cur == head <==> !L.Has(contents, pid)
    {
      assert Link(|nodes|);
      cur, i := head.next, 0;
      TouchLinks(head);
      while cur != head && cur.pid != pid
        invariant i <= |nodes| && cur == At(i) && badAccess == old(badAccess)
        invariant forall k :: 0 <= k < i ==> contents[k].pid != pid
        decreases |nodes| - i
      {
        assert Link(i) && Holds(i);
        TouchEntry(cur);
        TouchLinks(cur);
        cur := cur.next;
        i := i + 1;
      }
      if cur != head {
        assert Holds(i);
        TouchEntry(cur);
      }
    }

    /** __list_add(entry, last, head) */
    method Splice(entry: Node, last: Node)
      requires last in live || last == head
      requires entry in live && entry != head && entry != last
      modifies this`badAccess, entry`next, entry`prev, last`next, head`prev
      ensures badAccess == old(badAccess)
      ensures head.prev == entry && entry.next == head && entry.prev == last && last.next == entry
    {
      TouchLinks(head);
      head.prev := entry;
      TouchLinks(entry);
      entry.next := head;
      entry.prev := last;
      TouchLinks(last);
      last.next := entry;
    }

    /** list_add_tail of an entry that was just allocated. */
    method AddTail(entry: Node)
      requires Sound() && entry !in nodes && entry != head && L.Proper(contents + [L.Entry(entry.pid, entry.limit)])
      modifies this`nodes, this`contents, this`live, this`badAccess, entry`next, entry`prev, At(|nodes| - 1)`next, head`prev
      ensures Sound() && badAccess == old(badAccess)
      ensures nodes == old(nodes) + [entry] && contents == old(contents) + [L.Entry(entry.pid, entry.limit)]
      ensures At(Down(|nodes| - 1)) == old(At(|nodes| - 1)) && live == old(live) + {entry}
    {
      ghost var n := |nodes|;
      assert Link(n);
      live := live + {entry};
      var last := head.prev;
      assert last == At(n - 1);
      Splice(entry, last);
      nodes, contents := nodes + [entry], contents + [L.Entry(entry.pid, entry.limit)];
      forall i | 0 <= i <= |nodes|
        ensures Link(i)
      {
        if i < n {
          assert old(Link(i));
        }
      }
      forall i | 0 <= i < |nodes|
        ensures Holds(i)
      {
        if i < n {
          assert old(Holds(i));
        }
      }
    }

    /** The nodes behind two links, as far as they can be followed. */
    static function Ends(n: Node?): set<Node> {
      if n == null then {} else {n}
    }

    /** list_del, whatever the links of the entry are; true if following one of them faults. */
    method Del(entry: Node) returns (oops: bool)
      modifies this`badAccess, entry`next, entry`prev, Ends(entry.next)`prev, Ends(entry.prev)`next
      ensures oops <==> old(entry.next) == null || old(entry.prev) == null
      ensures !oops ==> var n, p := old(entry.next), old(entry.prev);
                        && n.prev == (if n == entry then null else p)
                        && p.next == (if p == entry then null else n)
      ensures old(entry.next) != null ==> old(entry.next).prev in {null, old(entry.prev)}
      ensures entry !in live && entry != head ==> badAccess
      ensures {entry} + Ends(old(entry.next)) + Ends(old(entry.prev)) <= live + {head} ==> badAccess == old(badAccess)
    {
      TouchLinks(entry);
      var n, p := entry.next, entry.prev;
      if n == null {
        return true;
      }
      TouchLinks(n);
      n.prev := p;
      if p == null {
        return true;
      }
      TouchLinks(p);
      p.next := n;
      entry.next, entry.prev := null, null;
      return false;
    }

    /** list_del of an allocated entry between allocated neighbours. */
    method Unhook(entry: Node, p: Node, n: Node)
      requires entry.prev == p && entry.next == n && entry != p && entry != n && {entry, p, n} <= live + {head}
      modifies this`badAccess, entry`next, entry`prev, p`next, n`prev
      ensures n.prev == p && p.next == n && badAccess == old(badAccess)
    {
      var oops := Del(entry);
    }

    /** Position j is linked as if position i were not there. */
    ghost predicate LinkPast(i: int, j: int)
      reads this, head, nodes
    {
      && At(j).next == At(if Up(j) == i then Up(i) else Up(j))
      && At(j).prev == At(if Down(j) == i then Down(i) else Down(j))
    }

    /** list_del on the ring. */
    method Bypass(entry: Node, ghost i: nat)
      requires Sound() && i < |nodes| && entry == nodes[i]
      modifies this`badAccess, entry`next, entry`prev, At(Down(i))`next, At(Up(i))`prev
      ensures badAccess == old(badAccess)
      ensures forall j :: 0 <= j <= |nodes| && j != i ==> LinkPast(i, j)
    {
      assert Link(i);
      assert nodes[i] in nodes && (i > 0 ==> nodes[i - 1] in nodes) && (i + 1 < |nodes| ==> nodes[i + 1] in nodes);
      Unhook(entry, entry.prev, entry.next);
      forall j | 0 <= j <= |nodes| && j != i
        ensures LinkPast(i, j)
      {
        assert old(Link(j));
      }
    }

    /** The bypassed position goes out of the books. */
    ghost method Forget(i: nat)
      requires Distinct() && i < |nodes| == |contents| && forall k :: 0 <= k < |nodes| ==> Holds(k)
      requires live == (set n | n in nodes) && L.Proper(contents)
      requires forall j :: 0 <= j <= |nodes| && j != i ==> LinkPast(i, j)
      modifies this`nodes, this`contents, this`live
      ensures Sound() && live == old(live) - {old(nodes)[i]}
      ensures nodes == old(nodes)[..i] + old(nodes)[i + 1..] && contents == old(contents)[..i] + old(contents)[i + 1..]
    {
      RestIsProper(contents, i);
      RestOfNodes(nodes, i);
      live := live - {nodes[i]};
      nodes, contents := nodes[..i] + nodes[i + 1..], contents[..i] + contents[i + 1..];
      forall k | 0 <= k <= |nodes|
        ensures Link(k)
      {
        assert old(LinkPast(i, if k < i then k else k + 1));
      }
      forall k | 0 <= k < |nodes|
        ensures Holds(k)
      {
        assert old(Holds(if k < i then k else k + 1));
      }
    }

    /** list_del and then kfree: no freed node is touched. */
    method Remove(entry: Node, ghost i: nat)
      requires Sound() && i < |nodes| && entry == nodes[i]
      modifies this`nodes, this`contents, this`live, this`badAccess, entry`next, entry`prev, At(Down(i))`next, At(Up(i))`prev
      ensures Sound() && badAccess == old(badAccess) && live == old(live) - {entry}
      ensures nodes == old(nodes)[..i] + old(nodes)[i + 1..] && contents == old(contents)[..i] + old(contents)[i + 1..]
    {
      Bypass(entry, i);
      forall k | 0 <= k < |nodes|
        ensures Holds(k)
      {
        assert old(Holds(k));
      }
      Forget(i);  // kfree
    }

    /** The new limit is stored in place. */
    method Store(entry: Node, ghost i: nat, limit: nat)
      requires Sound() && i < |nodes| && entry == nodes[i] && limit > 0
      modifies this`contents, this`badAccess, entry`limit
      ensures Sound() && badAccess == old(badAccess) && contents == old(contents)[i := L.Entry(old(contents)[i].pid, limit)]
    {
      assert Holds(i) && nodes[i] in nodes;
      TouchEntry(entry);
      entry.limit := limit;
      contents := contents[i := L.Entry(entry.pid, limit)];
      forall k | 0 <= k <= |nodes|
        ensures Link(k)
      {
        assert old(Link(k));
      }
      forall k | 0 <= k < |nodes|
        ensures Holds(k)
      {
        assert old(Holds(k));
      }
    }

    /**
     What a refused addition does: kfree and then list_del. Between the two the freed memory may get new contents,
     `reused`, in the place of the links. The list survives exactly when list_del still reads the old links.
     */
    method FreeThenDel(entry: Node, reused: Option<(Node?, Node?)>) returns (oops: bool)
      requires Sound() && nodes != [] && entry == nodes[|nodes| - 1]
      modifies this`nodes, this`contents, this`live, this`badAccess, entry`next, entry`prev, head`prev, At(Down(|nodes| - 1))`next
      modifies (if reused.Some? then Ends(reused.value.0) else {})`prev, (if reused.Some? then Ends(reused.value.1) else {})`next
      ensures badAccess && live == old(live) - {entry}
      ensures nodes == old(nodes)[..|old(nodes)| - 1] && contents == old(contents)[..|old(contents)| - 1]
      ensures Sound() <==> reused.None? || reused.value == (head, old(At(Down(|nodes| - 1))))
      ensures oops ==> !Sound()
    {
      ghost var n := |nodes| - 1;
      ghost var last := At(Down(n));
      assert Link(n) && Link(n + 1);
      RestIsProper(contents, n);
      RestOfNodes(nodes, n);
      live := live - {entry};  // kfree
      if reused.Some? {
        entry.next, entry.prev := reused.value.0, reused.value.1;
      }
      oops := Del(entry);
      nodes, contents := nodes[..n], contents[..n];
      if reused.None? || reused.value == (head, last) {
        forall k | 0 <= k <= n
          ensures Link(k)
        {
          assert old(Link(k));
        }
        forall k | 0 <= k < n
          ensures Holds(k)
        {
          assert old(Holds(k));
        }
      } else {
        assert !Link(n);
      }
    }

    /** An entry is appended, and if it is refused it is taken out again, in the order of the source. */
    method AddUnlessRefused(pid: int, limit: nat, refused: bool, reused: Option<(Node?, Node?)>) returns (oops: bool)
      requires Sound() && L.Proper(contents + [L.Entry(pid, limit)])
      modifies this, head`prev, At(|nodes| - 1)`next
      modifies (if reused.Some? then Ends(reused.value.0) else {})`prev, (if reused.Some? then Ends(reused.value.1) else {})`next
      ensures badAccess == (old(badAccess) || refused)
      ensures contents == if refused then old(contents) else old(contents) + [L.Entry(pid, limit)]
      ensures old(live) <= live && fresh(live - old(live)) && (refused ==> nodes == old(nodes))
      ensures !refused ==> |nodes| > 0 && nodes[..|nodes| - 1] == old(nodes) && fresh(nodes[|nodes| - 1])
      ensures Sound() <==> (refused ==> reused.None? || reused.value == (head, old(At(|nodes| - 1))))
      ensures oops ==> !Sound()
    {
      var entry := new Node(pid, limit);
      AddTail(entry);
      oops := false;
      if refused {
        ghost var n := |nodes| - 1;
        assert contents[..n] == old(contents);
        oops := FreeThenDel(entry, reused);
      }
    }

    /**
     The copy of the first entries to the caller. Afterwards the cursor is an allocated entry exactly when there were
     more entries than asked for; otherwise it is the head, which is no entry.
     */
    method Copy(maxEntries: nat) returns (copied: seq<L.Entry>, cursor: Node)
      requires Sound()
      modifies this`badAccess
      ensures badAccess == old(badAccess)
      ensures copied == contents[..if maxEntries < |contents| then maxEntries else |contents|]
      ensures cursor in live <==> maxEntries < |contents|
      ensures cursor == if maxEntries < |contents| then nodes[maxEntries] else head
      ensures maxEntries < |contents| ==> cursor.pid == contents[maxEntries].pid
    {
      assert Link(|nodes|);
      TouchLinks(head);
      var count;
      cursor, count := head.next, 0;
      copied := [];
      while cursor != head && count < maxEntries
        invariant count <= maxEntries && count <= |nodes| && cursor == At(count) && badAccess == old(badAccess)
        invariant copied == contents[..count]
        decreases |nodes| - count
      {
        assert Link(count) && Holds(count);
        TouchEntry(cursor);
        copied := copied + [L.Entry(cursor.pid, cursor.limit)];
        TouchLinks(cursor);
        cursor := cursor.next;
        count := count + 1;
      }
      assert count < |nodes| ==> Holds(count);
    }

    lemma NoneFor(pid: int)
      requires Sound() && !L.Has(contents, pid)
      ensures forall n <- live :: n.pid != pid
    {
      forall n | n in live
        ensures n.pid != pid
      {
        var k :| 0 <= k < |nodes| && nodes[k] == n;
        assert Holds(k);
      }
    }

    /** Takes out and frees the entry of the process, if there is one. */
    method RemoveFor(pid: int) returns (found: bool)
      requires Sound()
      modifies this, head, nodes
      ensures Sound() && badAccess == old(badAccess) && (found <==> L.Has(old(contents), pid))
      ensures contents == if found then L.Without(old(contents), pid) else old(contents)
      ensures live <= old(live) && forall n <- old(live) :: n in live <==> n.pid != pid
    {
      var entry, i := Find(pid);
      found := entry != head;
      if found {
        L.WithoutAt(contents, i);
        OnlyOne(i);
        Remove(entry, i);
      } else {
        NoneFor(pid);
      }
    }

    /** No two allocated entries are for the same process. */
    lemma OnlyOne(i: nat)
      requires Sound() && i < |nodes|
      ensures forall n <- live :: n.pid == contents[i].pid <==> n == nodes[i]
    {
      forall n | n in live
        ensures n.pid == contents[i].pid <==> n == nodes[i]
      {
        var k :| 0 <= k < |nodes| && nodes[k] == n;
        assert Holds(k) && Holds(i);
      }
    }

    /** The message after the copy reads the entry under the cursor, in whatever state the list is by then. */
    method Report(cursor: Node) returns (pid: int, limit: nat)
      modifies this`badAccess
      ensures badAccess == (old(badAccess) || cursor !in live)
      ensures pid == cursor.pid && limit == cursor.limit
      ensures old(Sound()) ==> Sound()
    {
      TouchEntry(cursor);
      if old(Sound()) {
        forall k | 0 <= k <= |nodes|
          ensures Link(k)
        {
          assert old(Link(k));
        }
        forall k | 0 <= k < |nodes|
          ensures Holds(k)
        {
          assert old(Holds(k));
        }
      }
      pid, limit := cursor.pid, cursor.limit;
    }
  }

  lemma RestIsProper(es: seq<L.Entry>, i: nat)
    requires i < |es| && L.Proper(es)
    ensures L.Proper(es[..i] + es[i + 1..]) && (i == |es| - 1 ==> L.Proper(es[..i]))
  {
  }

  lemma RestOfNodes(nodes: seq<Node>, i: nat)
    requires i < |nodes| && forall j, k :: 0 <= j < k < |nodes| ==> nodes[j] != nodes[k]
    ensures var rest := nodes[..i] + nodes[i + 1..];
            && (set n | n in rest) == (set n | n in nodes) - {nodes[i]}
            && (forall j, k :: 0 <= j < k < |rest| ==> rest[j] != rest[k])
            && (i == |nodes| - 1 ==> nodes[..i] == rest)
  {
    var rest := nodes[..i] + nodes[i + 1..];
    forall n | n in nodes && n != nodes[i]
      ensures n in rest
    {
      var k :| 0 <= k < |nodes| && nodes[k] == n;
      assert rest[if k < i then k else k - 1] == n;
    }
    forall n | n in rest
      ensures n in nodes && n != nodes[i]
    {
      var k :| 0 <= k < |rest| && rest[k] == n;
      assert nodes[if k < i then k else k + 1] == n;
    }
  }
}
