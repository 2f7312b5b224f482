/**
 The memory-limit registry of kernel/proyecto3/taro_mani_memv1.c: a singly linked list of heap nodes,
 guarded by a mutex, that behaves as an ordered map from process ids to limits.
 */
module LimitList {
  import opened Errno

  const ALREADY_LISTED := -101
  const NOT_LISTED := -102
  const OVER_LIMIT := -100

  datatype Entry = Entry(pid: int, limit: nat)

  // ---------------------------------------------------------------------------------------------
  // The ordered map

  predicate Has(es: seq<Entry>, pid: int) {
    exists i :: 0 <= i < |es| && es[i].pid == pid
  }

  /** One entry per process, each with a limit. */
  ghost predicate Proper(es: seq<Entry>) {
    && (forall i :: 0 <= i < |es| ==> es[i].pid >= 0 && es[i].limit > 0)
    && (forall i, j :: 0 <= i < j < |es| ==> es[i].pid != es[j].pid)
  }

  function AsMap(es: seq<Entry>): map<int, nat> {
    if es == [] then map[] else AsMap(es[1..])[es[0].pid := es[0].limit]
  }

  /** The entries of all other processes, in their order. */
  function Without(es: seq<Entry>, pid: int): seq<Entry> {
    if es == [] then []
    else if es[0].pid == pid then Without(es[1..], pid)
    else [es[0]] + Without(es[1..], pid)
  }

  function Updated(es: seq<Entry>, pid: int, limit: nat): seq<Entry> {
    if es == [] then []
    else [if es[0].pid == pid then Entry(pid, limit) else es[0]] + Updated(es[1..], pid, limit)
  }

  datatype Op = Add(pid: int, limit: nat) | Update(pid: int, limit: nat) | Remove(pid: int)

  function Apply(es: seq<Entry>, op: Op): seq<Entry> {
    match op
    case Add(pid, limit) => [Entry(pid, limit)] + es
    case Update(pid, limit) => Updated(es, pid, limit)
    case Remove(pid) => Without(es, pid)
  }

  /** The calls that succeed, by what the registry holds. */
  ghost predicate Legal(es: seq<Entry>, op: Op) {
    match op
    case Add(pid, limit) => pid >= 0 && limit > 0 && !Has(es, pid)
    case Update(pid, limit) => pid >= 0 && limit > 0 && Has(es, pid)
    case Remove(pid) => pid >= 0 && Has(es, pid)
  }

  function UpdateAnswer(listed: bool, pid: int, limit: nat, admin: bool, task: bool, totalVm: nat): int {
    if pid < 0 || limit == 0 then -EINVAL
    else if !admin then -EPERM
    else if !listed then NOT_LISTED
    else if !task then -ESRCH
    else if totalVm > limit then OVER_LIMIT
    else 0
  }

  function RemoveAnswer(listed: bool, pid: int, admin: bool): int {
    if pid < 0 then -EINVAL else if !admin then -EPERM else if !listed then NOT_LISTED else 0
  }

  // ---------------------------------------------------------------------------------------------
  // The list

  class Node {
    var pid: int
    var limit: nat
    var next: Node?

    constructor (pid: int, limit: nat, next: Node?)
      ensures this.pid == pid && this.limit == limit && this.next == next
    {
      this.pid, this.limit, this.next := pid, limit, next;
    }
  }

  class Mutex {
    var held: bool

    constructor ()
      ensures !held
    {
      held := false;
    }

    method Lock()
      requires !held
      modifies this
      ensures held
    {
      held := true;
    }

    method Unlock()
      requires held
      modifies this
      ensures !held
    {
      held := false;
    }
  }

  class Registry {
    var head: Node?
    const mutex: Mutex
    ghost var spine: seq<Node>      // the nodes in list order
    ghost var live: set<Node>       // the nodes allocated and not yet freed
    ghost var contents: seq<Entry>

    ghost function At(i: nat): Node?
      reads this
    {
      if i < |spine| then spine[i] else null
    }

    /** Node i holds entry i and points to node i+1. */
    ghost predicate Cell(i: nat)
      reads this, spine
    {
      && i < |spine| == |contents|
      && spine[i].next == At(i + 1)
      && contents[i] == Entry(spine[i].pid, spine[i].limit)
    }

    /** The list from `head` is `spine`, nothing is leaked or dangling, and the entries are proper. */
    ghost predicate Sound()
      reads this, spine
    {
      && head == At(0)
      && |contents| == |spine|
      && (forall i :: 0 <= i < |spine| ==> Cell(i))
      && live == (set n | n in spine)
      && Proper(contents)
    }

    /** Between calls the mutex is free. */
    ghost predicate Valid()
      reads this, spine, mutex
    {
      Sound() && !mutex.held
    }

    constructor ()
      ensures Valid() && contents == []
    {
      head, spine, live, contents := null, [], {}, [];
      mutex := new Mutex();
    }

    /** The traversal that every call makes: the first node for `pid`, and the node before it. */
    method Search(pid: int) returns (prev: Node?, current: Node?, ghost i: nat)
      requires Sound()
      ensures i <= |spine|
      ensures current == At(i)
      ensures prev == if i > 0 then spine[i - 1] else null
      ensures i < |spine| ==> contents[i].pid == pid
      ensures forall k :: 0 <= k < i ==> contents[k].pid != pid
      ensures current == null <==> !Has(contents, pid)
    {
      prev, current, i := null, head, 0;
      while current != null && current.pid != pid
        invariant 0 <= i <= |spine|
        invariant current == At(i)
        invariant prev == if i > 0 then spine[i - 1] else null
        invariant forall k :: 0 <= k < i ==> contents[k].pid != pid
        decreases |spine| - i
      {
        assert Cell(i);
        prev := current;
        current := current.next;
        i := i + 1;
      }
      assert current != null ==> Cell(i);
    }

    method Prepend(pid: int, limit: nat)
      requires Sound() && Legal(contents, Add(pid, limit))
      modifies this`head, this`spine, this`live, this`contents
      ensures Sound() && spine != [] && spine[1..] == old(spine)
      ensures fresh(spine[0]) && live == old(live) + {spine[0]}
      ensures contents == [Entry(pid, limit)] + old(contents)
    {
      var entry := new Node(pid, limit, head);
      head := entry;
      spine, live, contents := [entry] + spine, live + {entry}, [Entry(pid, limit)] + contents;
      forall k | 0 < k < |spine|
        ensures Cell(k)
      {
        assert old(Cell(k - 1));
      }
    }

    method Store(current: Node, ghost i: nat, limit: nat)
      requires Sound() && i < |spine| && current == spine[i] && limit > 0
      modifies this`contents, current`limit
      ensures Sound() && current.limit == limit
      ensures contents == Updated(old(contents), current.pid, limit)
    {
      UpdatedAt(contents, i, limit);
      assert Cell(i);
      current.limit := limit;
      contents := contents[i := Entry(current.pid, limit)];
      forall k | 0 <= k < |spine|
        ensures Cell(k)
      {
        assert old(Cell(k));
      }
    }

    /** Takes the node out of the list and frees it. */
    method Unlink(prev: Node?, current: Node, ghost i: nat)
      requires Sound() && i < |spine| && current == spine[i]
      requires prev == if i > 0 then spine[i - 1] else null
      modifies this`head, this`spine, this`live, this`contents, (if prev == null then {} else {prev})`next
      ensures Sound()
      ensures spine == old(spine)[..i] + old(spine)[i + 1..] && live == old(live) - {current}
      ensures contents == old(contents)[..i] + old(contents)[i + 1..]
    {
      forall k | 0 <= k < |spine| && k != i
        ensures spine[k] != spine[i]
      {
        assert Cell(k) && Cell(i) && contents[k].pid != contents[i].pid;
      }
      SpineWithout(contents, spine, i);
      assert Cell(i) && (i > 0 ==> Cell(i - 1));
      if prev == null {
        head := current.next;
      } else {
        prev.next := current.next;
      }
      // kfree(current)
      live := live - {current};
      spine := spine[..i] + spine[i + 1..];
      contents := contents[..i] + contents[i + 1..];
      forall k | 0 <= k < |spine|
        ensures Cell(k)
      {
        assert old(Cell(if k < i then k else k + 1));
      }
    }

    method AddLimit(pid: int, limit: nat, haveMemory: bool) returns (ret: int)
      requires Valid()
      modifies mutex, this
      ensures Valid() && fresh(live - old(live)) && old(live) <= live
      ensures ret == 0 <==> Legal(old(contents), Add(pid, limit)) && haveMemory
      ensures contents == if ret == 0 then Apply(old(contents), Add(pid, limit)) else old(contents)
      ensures ret == 0 ==> |spine| > 0 && spine[1..] == old(spine)
      ensures ret != 0 ==> spine == old(spine) && live == old(live)
      ensures ret == -EINVAL <==> pid < 0 || limit == 0
      ensures ret == ALREADY_LISTED <==> pid >= 0 && limit > 0 && Has(old(contents), pid)
      ensures ret in {0, -EINVAL, ALREADY_LISTED, -ENOMEM}
    {
      if pid < 0 || limit <= 0 {
        return -EINVAL;
      }
      mutex.Lock();
      var _, temp, _ := Search(pid);
      if temp != null {
        mutex.Unlock();
        return ALREADY_LISTED;
      }
      if !haveMemory {
        mutex.Unlock();
        return -ENOMEM;
      }
      Prepend(pid, limit);
      mutex.Unlock();
      return 0;
    }

    /** Update in place: same nodes, same order. `task` is the result of find_task_by_vpid, `totalVm` that task's size. */
    method UpdateLimit(pid: int, limit: nat, admin: bool, task: bool, totalVm: nat) returns (ret: int)
      requires Valid()
      modifies mutex, this`contents, spine
      ensures Valid()
      ensures ret == UpdateAnswer(Has(old(contents), pid), pid, limit, admin, task, totalVm)
      ensures ret == 0 <==> Legal(old(contents), Update(pid, limit)) && admin && task && totalVm <= limit
      ensures pid < 0 || limit == 0 <==> ret == -EINVAL
      ensures ret == -EPERM ==> !admin
      ensures ret == -ESRCH ==> !task && Has(old(contents), pid)
      ensures contents == if ret == 0 then Apply(old(contents), Update(pid, limit)) else old(contents)
    {
      if pid < 0 || limit <= 0 {
        return -EINVAL;
      }
      if !admin {
        return -EPERM;
      }
      mutex.Lock();
      var _, current, i := Search(pid);
      if current == null {
        mutex.Unlock();
        ret := NOT_LISTED;
      } else if !task {
        mutex.Unlock();
        ret := -ESRCH;
      } else if totalVm > limit {
        mutex.Unlock();
        ret := OVER_LIMIT;
      } else {
        assert Cell(i);
        Store(current, i, limit);
        mutex.Unlock();
        ret := 0;
      }
    }

    /** Unlinks and frees one node; the others keep their order and contents. */
    method RemoveLimit(pid: int, admin: bool) returns (ret: int, ghost freed: Node?)
      requires Valid()
      modifies mutex, this, spine
      ensures Valid()
      ensures ret == RemoveAnswer(Has(old(contents), pid), pid, admin)
      ensures ret == 0 <==> Legal(old(contents), Remove(pid)) && admin
      ensures (ret == -EINVAL <==> pid < 0) && (ret == -EPERM <==> pid >= 0 && !admin)
      ensures contents == if ret == 0 then Apply(old(contents), Remove(pid)) else old(contents)
      ensures live == old(live) - {freed} && (ret == 0 <==> freed in old(live))
    {
      if pid < 0 {
        return -EINVAL, null;
      }
      if !admin {
        return -EPERM, null;
      }
      mutex.Lock();
      var prev, current, i := Search(pid);
      if current == null {
        mutex.Unlock();
        return NOT_LISTED, null;
      }
      WithoutAt(contents, i);
      Unlink(prev, current, i);
      mutex.Unlock();
      return 0, current;
    }

    /** Allocates the kernel buffer and copies up to `maxEntries` entries into it. */
    method Fill(maxEntries: nat) returns (buffer: array<Entry>, n: nat)
      requires Sound()
      ensures fresh(buffer) && buffer.Length == maxEntries
      ensures n == if maxEntries < |contents| then maxEntries else |contents|
      ensures buffer[..n] == contents[..n]
    {
      buffer := new Entry[maxEntries](_ => Entry(0, 0));
      var current := head;
      n := 0;
      while current != null && n < maxEntries
        modifies buffer
        invariant 0 <= n <= maxEntries && n <= |spine|
        invariant current == At(n)
        invariant buffer[..n] == contents[..n]
        decreases |spine| - n
      {
        assert Cell(n);
        buffer[n] := Entry(current.pid, current.limit);
        n := n + 1;
        current := current.next;
      }
    }

    /**
     Copies the first entries into a kernel buffer and from there to the caller. `written` is what reaches the
     caller's buffer, of which a failing copy gets `delivered` entries across, and `count` what reaches its counter; -1
     stands for a counter left alone.
     */
    method GetLimits(hasBuffer: bool, hasCounter: bool, maxEntries: nat, haveMemory: bool, bufferOk: bool, delivered: nat, counterOk: bool)
      returns (ret: int, written: seq<Entry>, count: int)
      requires Valid()
      modifies mutex
      ensures Valid()
      ensures ret == 0 <==> hasBuffer && hasCounter && maxEntries > 0 && haveMemory && bufferOk && counterOk
      ensures ret == 0 ==> written <= contents && |written| == count
                           && count == if maxEntries < |contents| then maxEntries else |contents|
      ensures written <= contents && (count == -1 || count == |written|)
      ensures ret == -EINVAL <==> !hasBuffer || !hasCounter || maxEntries == 0
      ensures ret in {0, -EINVAL, -ENOMEM, -EFAULT}
      ensures ret == -ENOMEM <==> hasBuffer && hasCounter && maxEntries > 0 && !haveMemory
      ensures ret == -EFAULT ==>
                var n := if maxEntries < |contents| then maxEntries else |contents|;
                |written| == if bufferOk || n < delivered then n else delivered
    {
      written, count := [], -1;
      if !hasBuffer || !hasCounter || maxEntries <= 0 {
        return -EINVAL, written, count;
      }
      if !haveMemory {
        return -ENOMEM, written, count;
      }
      mutex.Lock();
      var buffer, n := Fill(maxEntries);
      mutex.Unlock();
      if !bufferOk {
        written := buffer[..if delivered < n then delivered else n];
        return -EFAULT, written, count;
      }
      written := buffer[..n];
      if !counterOk {
        return -EFAULT, written, count;
      }
      return 0, written, n;
    }
  }

  // ---------------------------------------------------------------------------------------------
  // What the ordered map promises

  lemma SpineWithout(es: seq<Entry>, nodes: seq<Node>, i: nat)
    requires i < |nodes| == |es| && Proper(es)
    requires forall k :: 0 <= k < |nodes| && k != i ==> nodes[k] != nodes[i]
    ensures var rest := nodes[..i] + nodes[i + 1..]; (set n | n in rest) == (set n | n in nodes) - {nodes[i]}
    ensures Proper(es[..i] + es[i + 1..])
  {
    var rest := nodes[..i] + nodes[i + 1..];
    forall n | n in nodes && n != nodes[i]
      ensures n in rest
    {
      var k :| 0 <= k < |nodes| && nodes[k] == n;
      assert rest[if k < i then k else k - 1] == n;
    }
    forall n | n in rest
      ensures n in nodes && n != nodes[i]
    {
      var k :| 0 <= k < |rest| && rest[k] == n;
      assert nodes[if k < i then k else k + 1] == n;
    }
  }

  lemma {:induction false} UpdatedAt(es: seq<Entry>, i: nat, limit: nat)
    requires i < |es| && Proper(es)
    ensures Updated(es, es[i].pid, limit) == es[i := Entry(es[i].pid, limit)]
  {
    if i == 0 {
      UpdatedElsewhere(es[1..], es[0].pid, limit);
    } else {
      UpdatedAt(es[1..], i - 1, limit);
    }
  }

  lemma {:induction false} UpdatedElsewhere(es: seq<Entry>, pid: int, limit: nat)
    requires !Has(es, pid)
    ensures Updated(es, pid, limit) == es
  {
    if es != [] {
      assert es[0].pid != pid;
      assert forall i :: 0 <= i < |es[1..]| ==> es[1..][i] == es[i + 1];
      UpdatedElsewhere(es[1..], pid, limit);
    }
  }

  lemma {:induction false} WithoutAt(es: seq<Entry>, i: nat)
    requires i < |es| && Proper(es)
    ensures Without(es, es[i].pid) == es[..i] + es[i + 1..]
  {
    if i == 0 {
      WithoutElsewhere(es[1..], es[0].pid);
    } else {
      WithoutAt(es[1..], i - 1);
    }
  }

  lemma {:induction false} WithoutElsewhere(es: seq<Entry>, pid: int)
    requires !Has(es, pid)
    ensures Without(es, pid) == es
  {
    if es != [] {
      assert es[0].pid != pid;
      assert forall i :: 0 <= i < |es[1..]| ==> es[1..][i] == es[i + 1];
      WithoutElsewhere(es[1..], pid);
    }
  }

  /** Adding and then removing the same process gives back the registry, entry for entry. */
  lemma RemoveUndoesAdd(es: seq<Entry>, pid: int, limit: nat)
    requires Proper(es) && Legal(es, Add(pid, limit))
    ensures Legal(Apply(es, Add(pid, limit)), Remove(pid))
    ensures Apply(Apply(es, Add(pid, limit)), Remove(pid)) == es
  {
    var added := Apply(es, Add(pid, limit));
    assert added[0].pid == pid && added[1..] == es;
    WithoutElsewhere(es, pid);
  }

  lemma {:induction false} MapKeys(es: seq<Entry>, pid: int)
    ensures pid in AsMap(es) <==> Has(es, pid)
  {
    if es != [] {
      MapKeys(es[1..], pid);
      assert forall i :: 0 <= i < |es[1..]| ==> es[1..][i] == es[i + 1];
      if Has(es, pid) && es[0].pid != pid {
        var i :| 0 <= i < |es| && es[i].pid == pid;
        assert es[1..][i - 1].pid == pid;
      }
      if Has(es[1..], pid) {
        var i :| 0 <= i < |es[1..]| && es[1..][i].pid == pid;
        assert es[i + 1].pid == pid;
      }
    }
  }

  lemma {:induction false} MapUpdated(es: seq<Entry>, pid: int, limit: nat)
    requires Has(es, pid) && Proper(es)
    ensures AsMap(Updated(es, pid, limit)) == AsMap(es)[pid := limit]
  {
    if es[0].pid == pid {
      assert !Has(es[1..], pid);
      UpdatedElsewhere(es[1..], pid, limit);
    } else {
      var i :| 0 <= i < |es| && es[i].pid == pid;
      assert es[1..][i - 1].pid == pid;
      MapUpdated(es[1..], pid, limit);
    }
  }

  lemma {:induction false} MapWithout(es: seq<Entry>, pid: int)
    requires Proper(es)
    ensures AsMap(Without(es, pid)) == AsMap(es) - {pid}
  {
    if es != [] {
      MapWithout(es[1..], pid);
    }
  }

  function MapApply(m: map<int, nat>, op: Op): map<int, nat> {
    match op
    case Add(pid, limit) => m[pid := limit]
    case Update(pid, limit) => m[pid := limit]
    case Remove(pid) => m - {pid}
  }

  lemma UpdateRefinesMap(es: seq<Entry>, pid: int, limit: nat)
    requires Proper(es) && Legal(es, Update(pid, limit))
    ensures Proper(Updated(es, pid, limit))
    ensures AsMap(Updated(es, pid, limit)) == AsMap(es)[pid := limit]
  {
    MapUpdated(es, pid, limit);
    var i :| 0 <= i < |es| && es[i].pid == pid;
    UpdatedAt(es, i, limit);
  }

  lemma RemoveRefinesMap(es: seq<Entry>, pid: int)
    requires Proper(es) && Legal(es, Remove(pid))
    ensures Proper(Without(es, pid))
    ensures AsMap(Without(es, pid)) == AsMap(es) - {pid}
  {
    MapWithout(es, pid);
    var i :| 0 <= i < |es| && es[i].pid == pid;
    WithoutAt(es, i);
  }

  lemma AddRefinesMap(es: seq<Entry>, pid: int, limit: nat)
    requires Proper(es) && Legal(es, Add(pid, limit))
    ensures Proper([Entry(pid, limit)] + es)
    ensures AsMap([Entry(pid, limit)] + es) == AsMap(es)[pid := limit]
  {
    assert ([Entry(pid, limit)] + es)[1..] == es;
  }

  /** Each call acts on the list as it would on a map, and keeps one proper entry per process. */
  lemma ApplyRefinesMap(es: seq<Entry>, op: Op)
    requires Proper(es) && Legal(es, op)
    ensures Proper(Apply(es, op))
    ensures AsMap(Apply(es, op)) == MapApply(AsMap(es), op)
  {
    match op
    case Add(pid, limit) => AddRefinesMap(es, pid, limit);
    case Update(pid, limit) => UpdateRefinesMap(es, pid, limit);
    case Remove(pid) => RemoveRefinesMap(es, pid);
  }

  ghost predicate Run(states: seq<seq<Entry>>, ops: seq<Op>) {
    && |states| == |ops| + 1 && states[0] == []
    && forall i :: 0 <= i < |ops| ==> Legal(states[i], ops[i]) && states[i + 1] == Apply(states[i], ops[i])
  }

  function MapRun(ops: seq<Op>): map<int, nat> {
    if ops == [] then map[] else MapApply(MapRun(ops[..|ops| - 1]), ops[|ops| - 1])
  }

  /** Over every run of successful calls the list is the ordered form of the map those calls build. */
  lemma {:induction false} RunRefinesMap(states: seq<seq<Entry>>, ops: seq<Op>, n: nat)
    requires Run(states, ops) && n < |states|
    ensures Proper(states[n]) && AsMap(states[n]) == MapRun(ops[..n]) && |AsMap(states[n])| == |states[n]|
  {
    if n > 0 {
      RunRefinesMap(states, ops, n - 1);
      ApplyRefinesMap(states[n - 1], ops[n - 1]);
      assert ops[..n][..n - 1] == ops[..n - 1];
    }
    MapSize(states[n]);
  }

  lemma {:induction false} MapSize(es: seq<Entry>)
    requires Proper(es)
    ensures |AsMap(es)| == |es|
  {
    if es != [] {
      MapSize(es[1..]);
      MapKeys(es[1..], es[0].pid);
      assert AsMap(es).Keys == AsMap(es[1..]).Keys + {es[0].pid};
    }
  }
}
