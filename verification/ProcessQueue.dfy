/**
 kernel/process_queue.c: 32 circular doubly linked queues with a size table.
 */
module ProcessQueue {

  const NR_PRIORITY := 32

  class Process {
    var priority: int
    var counter: int
    var next: Process?
    var prev: Process?
    /** p_tss_seg, set once when the process is created. */
    const tssSeg: nat

    constructor (counter: int, tssSeg: nat)
      ensures this.counter == counter && this.tssSeg == tssSeg
    {
      this.counter, this.tssSeg := counter, tssSeg;
      priority, next, prev := 0, null, null;
    }
  }

  function After(k: nat, n: nat): nat
  {
    if k + 1 == n then 0 else k + 1
  }

  function Before(k: nat, n: nat): nat
    requires k < n
  {
    if k == 0 then n - 1 else k - 1
  }

  /** The nodes of r, in order, form the circular list of one priority. */
  ghost predicate Ring(r: seq<Process>, priority: int)
    reads Nodes(r)`next, Nodes(r)`prev, Nodes(r)`priority
  {
    && (forall k | 0 <= k < |r| :: r[k].priority == priority)
    && (forall k | 0 <= k < |r| :: r[k].next == r[After(k, |r|)])
    && (forall k | 0 <= k < |r| :: r[k].prev == r[Before(k, |r|)])
    && Distinct(r)
  }

  ghost function Nodes(r: seq<Process>): set<Process>
  {
    set k | 0 <= k < |r| :: r[k]
  }

  function Without<T>(r: seq<T>, k: nat): (w: seq<T>)
    requires k < |r|
    ensures |w| == |r| - 1
  {
    r[..k] + r[k + 1..]
  }

  /** Links proc between the tail and the head of a ring. */
  method LinkLast(head: Process, proc: Process, ghost r: seq<Process>)
    requires r != [] && head == r[0] && proc !in r && Ring(r, proc.priority)
    modifies proc`next, proc`prev, Nodes(r)`next, Nodes(r)`prev
    ensures Ring(r + [proc], proc.priority)
  {
    assert head.prev == r[|r| - 1];
    proc.next := head;
    proc.prev := head.prev;
    head.prev.next := proc;
    head.prev := proc;
    Appended(r, proc);
  }

  /** A ring opened between tail and head and closed again through p. */
  lemma Appended(r: seq<Process>, p: Process)
    requires r != [] && p !in r && Distinct(r)
    requires forall k | 0 <= k < |r| :: r[k].priority == p.priority
    requires forall k | 0 <= k < |r| - 1 :: r[k].next == r[k + 1]
    requires forall k | 0 < k < |r| :: r[k].prev == r[k - 1]
    requires r[|r| - 1].next == p && p.next == r[0] && r[0].prev == p && p.prev == r[|r| - 1]
    ensures Ring(r + [p], p.priority)
  {
  }

  /** Links of a ring in which the back pointer of node `loose` may be anything. */
  ghost predicate Linked(r: seq<Process>, loose: nat)
    reads r
  {
    && (forall k | 0 <= k < |r| :: r[k].next == r[After(k, |r|)])
    && (forall k | 0 <= k < |r| && k != loose :: r[k].prev == r[Before(k, |r|)])
  }

  ghost predicate Distinct(r: seq<Process>)
  {
    forall j, k | 0 <= j < k < |r| :: r[j] != r[k]
  }

  /** Takes node k out of the links. */
  method Bypass(proc: Process, ghost r: seq<Process>, ghost k: nat)
    requires |r| >= 2 && k < |r| && proc == r[k] && Distinct(r) && Linked(r, After(k, |r|))
    requires forall i | 0 <= i < |r| :: r[i].priority == proc.priority
    modifies Nodes(r)`next, Nodes(r)`prev
    ensures Ring(Without(r, k), proc.priority) && proc.next == null && proc.prev == null
  {
    ghost var a, b := Before(k, |r|), After(k, |r|);
    assert proc.prev == r[a] && proc.next == r[b] && a != k && b != k;
    proc.prev.next := proc.next;
    proc.next.prev := proc.prev;
    proc.next, proc.prev := null, null;
    assert r[a].next == r[b] && r[b].prev == r[a];
    Spliced(r, k, proc.priority);
  }

  /** The pointer updates of queue_remove on a ring of two or more; returns the new head. */
  method Detach(tmp: Process, proc: Process, ghost r: seq<Process>, ghost k: nat) returns (head: Process)
    requires |r| >= 2 && k < |r| && tmp == r[0] && proc == r[k] && Ring(r, proc.priority)
    modifies Nodes(r)`next, Nodes(r)`prev
    ensures Ring(Without(r, k), proc.priority) && head == Without(r, k)[0]
    ensures proc.next == null && proc.prev == null
  {
    head := tmp;
    if tmp == proc {
      head := proc.next;
    }
    assert tmp.prev == r[|r| - 1];
    if tmp.prev == proc {
      assert k == |r| - 1 && head == r[0];
      head.prev := proc.prev.prev;
    }
    assert Linked(r, After(k, |r|));
    Bypass(proc, r, k);
  }

  /** A ring whose node k has been bypassed is the ring without it. */
  lemma Spliced(r: seq<Process>, k: nat, priority: int)
    requires |r| >= 2 && k < |r|
    requires forall i | 0 <= i < |r| :: r[i].priority == priority
    requires Distinct(r)
    requires forall i | 0 <= i < |r| && i != k ::
               r[i].next == if i == Before(k, |r|) then r[After(k, |r|)] else r[After(i, |r|)]
    requires forall i | 0 <= i < |r| && i != k ::
               r[i].prev == if i == After(k, |r|) then r[Before(k, |r|)] else r[Before(i, |r|)]
    ensures Ring(Without(r, k), priority)
  {
    hide Without;
    var w := Without(r, k);
    forall j | 0 <= j < |w|
      ensures w[j].next == w[After(j, |w|)] && w[j].prev == w[Before(j, |w|)] && w[j].priority == priority
    {
      WithoutAt(r, k, j);
      WithoutAt(r, k, After(j, |w|));
      WithoutAt(r, k, Before(j, |w|));
    }
    forall i, j | 0 <= i < j < |w|
      ensures w[i] != w[j]
    {
      WithoutAt(r, k, i);
      WithoutAt(r, k, j);
    }
  }

  lemma WithoutAt<T>(r: seq<T>, k: nat, j: nat)
    requires k < |r| && j < |r| - 1
    ensures Without(r, k)[j] == r[if j < k then j else j + 1]
  {
  }

  class ProcessTable {
    const tab: array<Process?>
    const sizes: array<nat>
    /** The sequence each queue stands for. */
    ghost var rings: seq<seq<Process>>

    ghost function Members(): set<Process>
      reads this
    {
      set i, k | 0 <= i < |rings| && 0 <= k < |rings[i]| :: rings[i][k]
    }

    /** Queue i is the ring rings[i], with its head and size recorded. */
    ghost predicate Queue(i: nat)
      reads this, tab, sizes, Members()`next, Members()`prev, Members()`priority
    {
      && i < |rings| && i < tab.Length && i < sizes.Length
      && Ring(rings[i], i)
      && sizes[i] == |rings[i]|
      && tab[i] == if rings[i] == [] then null else rings[i][0]
    }

    ghost predicate Valid()
      reads this, tab, sizes, Members()`next, Members()`prev, Members()`priority
    {
      && tab.Length == NR_PRIORITY && sizes.Length == NR_PRIORITY && |rings| == NR_PRIORITY
      && forall i | 0 <= i < NR_PRIORITY :: Queue(i)
    }

    constructor ()
      ensures Valid() && rings == seq(NR_PRIORITY, _ => []) && fresh(tab) && fresh(sizes)
    {
      tab := new Process?[NR_PRIORITY](_ => null);
      sizes := new nat[NR_PRIORITY](_ => 0);
      rings := seq(NR_PRIORITY, _ => []);
    }

    /** Queues never share a process: a member's priority names its queue. */
    lemma Apart(i: nat, j: nat)
      requires Valid() && i < NR_PRIORITY && j < NR_PRIORITY && i != j
      ensures Nodes(rings[i]) !! Nodes(rings[j])
    {
      assert Queue(i) && Queue(j);
    }

    lemma MemberQueue(p: Process)
      requires Valid() && p in Members()
      ensures 0 <= p.priority < NR_PRIORITY && p in rings[p.priority] && rings[p.priority] != []
    {
      var i, k :| 0 <= i < |rings| && 0 <= k < |rings[i]| && p == rings[i][k];
      assert Queue(i);
    }

    /** queue_insert_p: appends at the tail, creating the queue if it is empty. */
    method InsertP(proc: Process, priority: nat)
      requires Valid() && proc !in Members() && priority < NR_PRIORITY
      modifies this, tab, sizes, proc`priority, proc`next, proc`prev, Nodes(rings[priority])`next, Nodes(rings[priority])`prev
      ensures Valid() && rings == old(rings)[priority := old(rings[priority]) + [proc]]
    {
      hide Ring;
      ghost var r := rings[priority];
      assert Queue(priority) && proc !in r;
      ApartFrom(priority, proc);
      proc.priority := priority;
      if tab[priority] == null && sizes[priority] == 0 {
        proc.next, proc.prev := proc, proc;
        tab[priority] := proc;
        RingOf1(proc);
        assert r + [proc] == [proc];
      } else {
        LinkLast(tab[priority], proc, r);
      }
      sizes[priority] := sizes[priority] + 1;
      rings := rings[priority := r + [proc]];
      forall i | 0 <= i < NR_PRIORITY
        ensures Queue(i)
      {
        assert old(Queue(i));
      }
    }

    /** queue_insert: appends to the queue that q is on. */
    method Insert(q: Process, proc: Process)
      requires Valid() && q in Members() && proc !in Members()
      modifies this, tab, sizes, proc`priority, proc`next, proc`prev, Members()`next, Members()`prev
      ensures Valid() && 0 <= old(q.priority) < NR_PRIORITY
      ensures rings == old(rings)[old(q.priority) := old(rings[q.priority]) + [proc]]
    {
      hide Ring;
      MemberQueue(q);
      var priority := q.priority;
      ghost var r := rings[priority];
      assert Queue(priority) && proc !in r;
      ApartFrom(priority, proc);
      proc.priority := priority;
      LinkLast(tab[priority], proc, r);
      sizes[priority] := sizes[priority] + 1;
      rings := rings[priority := r + [proc]];
      forall i | 0 <= i < NR_PRIORITY
        ensures Queue(i)
      {
        assert old(Queue(i));
      }
    }

    /** queue_remove: takes a process out from anywhere, keeping the others in order. */
    method Remove(proc: Process, ghost k: nat)
      requires Valid() && 0 <= proc.priority < NR_PRIORITY
      requires rings[proc.priority] == [] || (k < |rings[proc.priority]| && rings[proc.priority][k] == proc)
      modifies this, tab, sizes, Members()`next, Members()`prev
      ensures Valid()
      ensures old(rings[proc.priority]) == [] ==> rings == old(rings)
      ensures old(rings[proc.priority]) != [] ==>
                && rings == old(rings)[proc.priority := Without(old(rings[proc.priority]), k)]
                && proc.next == null && proc.prev == null && proc !in rings[proc.priority]
    {
      hide Ring;
      var priority := proc.priority;
      var size := sizes[priority];
      ghost var r := rings[priority];
      assert Queue(priority);
      if size == 0 && tab[priority] == null {
        return;
      }
      InRing(r, k, priority);
      ApartFrom(priority, proc);
      if proc.next == proc && proc.prev == proc && size == 1 {
        proc.next, proc.prev := null, null;
        tab[priority] := null;
        assert Without(r, k) == [];
        RingOf0(priority);
      } else {
        tab[priority] := Detach(tab[priority], proc, r, k);
      }
      sizes[priority] := sizes[priority] - 1;
      rings := rings[priority := Without(r, k)];
      forall i | 0 <= i < NR_PRIORITY
        ensures Queue(i)
      {
        assert old(Queue(i));
      }
    }

    /** queue_read_front with the head as argument: first in, first out. */
    method ReadFront(head: Process) returns (proc: Process)
      requires Valid() && 0 <= head.priority < NR_PRIORITY && tab[head.priority] == head
      modifies this, tab, sizes, Members()`next, Members()`prev
      ensures Valid() && proc == head && proc.next == null && proc.prev == null && proc !in rings[proc.priority]
      ensures old(rings[head.priority]) == [proc] + rings[proc.priority]
      ensures rings == old(rings)[proc.priority := rings[proc.priority]]
    {
      hide Ring;
      var priority := head.priority;
      var size := sizes[priority];
      ghost var r := rings[priority];
      assert Queue(priority);
      InRing(r, 0, priority);
      ApartFrom(priority, head);
      if head.next == head && head.prev == head && size == 1 {
        head.next, head.prev := null, null;
        tab[priority] := null;
        RingOf0(priority);
        assert Without(r, 0) == [];
      } else {
        tab[priority] := DetachHead(tab[priority], head, r);
      }
      sizes[priority] := sizes[priority] - 1;
      rings := rings[priority := Without(r, 0)];
      forall i | 0 <= i < NR_PRIORITY
        ensures Queue(i)
      {
        assert old(Queue(i));
      }
      return head;
    }

    /** queue_size. */
    method Size(q: Process) returns (n: nat)
      requires Valid() && q in Members()
      ensures 0 <= q.priority < NR_PRIORITY && q in rings[q.priority] && n == |rings[q.priority]|
    {
      MemberQueue(q);
      assert Queue(q.priority);
      n := sizes[q.priority];
    }

    lemma ApartFrom(p: nat, proc: Process)
      requires Valid() && p < NR_PRIORITY && (proc in Members() ==> proc.priority == p)
      ensures forall j | 0 <= j < NR_PRIORITY && j != p :: Nodes(rings[p]) !! Nodes(rings[j]) && proc !in rings[j]
    {
      forall j | 0 <= j < NR_PRIORITY && j != p
        ensures Nodes(rings[p]) !! Nodes(rings[j]) && proc !in rings[j]
      {
        Apart(p, j);
        assert Queue(j);
      }
    }
  }

  lemma RingOf1(p: Process)
    requires p.next == p && p.prev == p
    ensures Ring([p], p.priority)
  {
  }

  lemma RingOf0(priority: int)
    ensures Ring([], priority)
  {
  }

  /** A lone node points to itself; in a longer ring no node does. */
  lemma InRing(r: seq<Process>, k: nat, priority: int)
    requires Ring(r, priority) && k < |r|
    ensures r[k].next != null && r[k].prev != null && r[k].priority == priority
    ensures r[k].next == r[k] && r[k].prev == r[k] <==> |r| == 1
    ensures r[k] !in Without(r, k)
  {
  }

  /** The pointer updates of queue_read_front on a ring of two or more. */
  method DetachHead(tmp: Process, proc: Process, ghost r: seq<Process>) returns (head: Process)
    requires |r| >= 2 && tmp == proc == r[0] && Ring(r, proc.priority)
    modifies Nodes(r)`next, Nodes(r)`prev
    ensures Ring(Without(r, 0), proc.priority) && head == Without(r, 0)[0]
    ensures proc.next == null && proc.prev == null
  {
    tmp.prev.next := tmp.next;
    tmp.next.prev := tmp.prev;
    head := tmp.next;
    proc.next, proc.prev := null, null;
    Spliced(r, 0, proc.priority);
  }
}
