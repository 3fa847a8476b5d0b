/**
 schedule() of kernel/scheduler.c: two walks over the linked queues and the switch, proved
 to be one step of SchedulerSpec.
 */
module Scheduler {
  import opened ProcessQueue
  import S = SchedulerSpec

  /** The order in which the walks meet the processes: queue 0 from its head, then queue 1, and so on. */
  ghost function Flat(rings: seq<seq<Process>>): seq<Process>
  {
    if rings == [] then [] else Flat(rings[..|rings| - 1]) + rings[|rings| - 1]
  }

  lemma FlatStep(rings: seq<seq<Process>>, i: nat)
    requires i < |rings|
    ensures Flat(rings[..i + 1]) == Flat(rings[..i]) + rings[i]
  {
    assert rings[..i + 1][..i] == rings[..i];
  }

  lemma FlatPrefix(rings: seq<seq<Process>>, i: nat)
    requires i <= |rings|
    ensures Flat(rings[..i]) <= Flat(rings)
    decreases |rings| - i
  {
    if i == |rings| {
      assert rings[..i] == rings;
    } else {
      FlatStep(rings, i);
      FlatPrefix(rings, i + 1);
    }
  }

  lemma {:induction false} FlatMember(rings: seq<seq<Process>>, n: nat) returns (i: nat, k: nat)
    requires n < |Flat(rings)|
    ensures i < |rings| && k < |rings[i]| && n == |Flat(rings[..i])| + k && Flat(rings)[n] == rings[i][k]
    decreases |rings|
  {
    var last := |rings| - 1;
    var front := rings[..last];
    if n < |Flat(front)| {
      i, k := FlatMember(front, n);
      assert front[..i] == rings[..i];
    } else {
      i, k := last, n - |Flat(front)|;
    }
  }

  /** The selection scan over r, the counts being m: the best so far gives way to a strictly higher count. */
  ghost function BestOf(m: map<Process, int>, best: Process, r: seq<Process>): (b: Process)
    requires best in m && forall p | p in r :: p in m
    ensures b in m && (b == best || b in r)
  {
    if r == [] then best
    else
      var b := BestOf(m, best, r[..|r| - 1]);
      if m[b] < m[r[|r| - 1]] then r[|r| - 1] else b
  }

  lemma {:induction false} BestOfParts(m: map<Process, int>, best: Process, a: seq<Process>, b: seq<Process>)
    requires best in m && forall p | p in a + b :: p in m
    ensures (forall p | p in a :: p in m) && (forall p | p in b :: p in m)
    ensures BestOf(m, best, a + b) == BestOf(m, BestOf(m, best, a), b)
    decreases |b|
  {
    assert forall p | p in a :: p in a + b;
    assert forall p | p in b :: p in a + b;
    if b == [] {
      assert a + b == a;
    } else {
      var front := b[..|b| - 1];
      assert (a + b)[..|a + b| - 1] == a + front;
      BestOfParts(m, best, a, front);
    }
  }

  /** The scan over processes is the choice over their counts. */
  lemma {:induction false} BestIsPick(m: map<Process, int>, o: seq<Process>, c: seq<int>, cur: nat, n: nat)
    requires cur < |o| == |c| && n <= |o| && forall k | 0 <= k < |o| :: o[k] in m && c[k] == m[o[k]]
    ensures BestOf(m, o[cur], o[..n]) == o[S.Pick(c, cur, n)]
  {
    if n > 0 {
      BestIsPick(m, o, c, cur, n - 1);
      assert o[..n][..n - 1] == o[..n - 1];
    }
  }

  class Scheduler {
    const table: ProcessTable
    var current: Process
    var previous: Process?
    var firstTime: bool

    constructor (table: ProcessTable, init: Process)
      ensures this.table == table && current == init && firstTime
    {
      this.table, current, previous, firstTime := table, init, null, true;
    }

    ghost function Order(): seq<Process>
      reads table
    {
      Flat(table.rings)
    }

    ghost predicate Valid()
      reads this, table, table.tab, table.sizes, table.Members()`next, table.Members()`prev, table.Members()`priority
    {
      table.Valid() && current in Order()
    }

    ghost function Counts(): (c: seq<int>)
      reads table, Order()
      ensures |c| == |Order()| && forall n | 0 <= n < |c| :: c[n] == Order()[n].counter
    {
      var o := Order();
      seq(|o|, n requires 0 <= n < |o| reads o => o[n].counter)
    }

    /** Decrements the counter of every process on queue i. */
    method DecrementQueue(i: nat)
      requires table.Valid() && i < NR_PRIORITY
      modifies Nodes(table.rings[i])`counter
      ensures forall k | 0 <= k < |table.rings[i]| :: table.rings[i][k].counter == old(table.rings[i][k].counter) - 1
    {
      ghost var r := table.rings[i];
      assert table.Queue(i);
      var curr := table.tab[i];
      if curr == null {
        return;
      }
      ghost var k := 0;
      while true
        invariant 0 <= k < |r| && curr == r[k]
        invariant forall j | 0 <= j < |r| :: r[j].counter == old(r[j].counter) - (if j < k then 1 else 0)
        decreases |r| - k
      {
        curr.counter := curr.counter - 1;
        curr := curr.next;
        k := k + 1;
        if curr == table.tab[i] {
          break;
        }
      }
    }

    /** The first walk: every process on every queue loses one count. */
    method DecrementAll()
      requires table.Valid()
      modifies table.Members()`counter
      ensures forall i, k | 0 <= i < NR_PRIORITY && 0 <= k < |table.rings[i]| ::
                table.rings[i][k].counter == old(table.rings[i][k].counter) - 1
    {
      ghost var rings: seq<seq<Process>> := table.rings;
      for i := 0 to NR_PRIORITY
        invariant forall j, k | 0 <= j < NR_PRIORITY && 0 <= k < |rings[j]| ::
                    rings[j][k].counter == old(rings[j][k].counter) - (if j < i then 1 else 0)
      {
        forall j | 0 <= j < NR_PRIORITY && j != i
          ensures Nodes(rings[i]) !! Nodes(rings[j])
        {
          table.Apart(i, j);
        }
        DecrementQueue(i);
        assert forall j, k | 0 <= j < NR_PRIORITY && j != i && 0 <= k < |rings[j]| :: rings[j][k] !in Nodes(rings[i]);
      }
    }

    /** The second walk on one queue. */
    method SelectQueue(i: nat, best: Process, ghost m: map<Process, int>) returns (proc: Process)
      requires table.Valid() && i < NR_PRIORITY
      requires (forall p | p in table.rings[i] :: p in m) && best in m && forall p | p in m :: m[p] == p.counter
      ensures table.Valid() && proc == BestOf(m, best, table.rings[i])
    {
      assert table.Queue(i);
      ghost var r := table.rings[i];
      proc := best;
      var curr := table.tab[i];
      var done := curr == null;
      ghost var k := 0;
      while !done
        invariant 0 <= k <= |r| && (done <==> k == |r|) && (!done ==> curr == r[k])
        invariant proc == BestOf(m, best, r[..k])
        decreases |r| - k
      {
        assert r[..k + 1][..k] == r[..k];
        if proc.counter < curr.counter {
          proc := curr;
        }
        curr := curr.next;
        k := k + 1;
        done := curr == table.tab[i];
      }
      assert r[..|r|] == r;
    }

    /** The second walk over all queues, starting from the running process. */
    method Select(ghost cur: nat, ghost m: map<Process, int>) returns (proc: Process)
      requires Valid() && cur < |Order()| && Order()[cur] == current
      requires (forall p | p in Order() :: p in m) && forall p | p in m :: m[p] == p.counter
      ensures table.Valid() && proc == BestOf(m, current, Order()) && forall p | p in m :: m[p] == p.counter
    {
      hide Ring, Flat, BestOf, ProcessTable.Queue;
      ghost var rings, o := table.rings, Order();
      WalkStart(m, current, rings);
      proc := current;
      for i := 0 to NR_PRIORITY
        invariant table.Valid() && (forall p | p in Flat(rings[..i]) :: p in m)
        invariant proc == BestOf(m, current, Flat(rings[..i]))
      {
        WalkStep(m, current, rings, i);
        proc := SelectQueue(i, proc, m);
      }
      assert rings[..NR_PRIORITY] == rings;
    }

    lemma WalkStart(m: map<Process, int>, best: Process, rings: seq<seq<Process>>)
      requires best in m
      ensures Flat(rings[..0]) == [] && BestOf(m, best, []) == best
    {
    }

    lemma WalkStep(m: map<Process, int>, best: Process, rings: seq<seq<Process>>, i: nat)
      requires best in m && i < |rings| && forall p | p in Flat(rings) :: p in m
      ensures (forall p | p in Flat(rings[..i]) :: p in m) && (forall p | p in rings[i] :: p in m)
      ensures forall p | p in Flat(rings[..i + 1]) :: p in m
      ensures BestOf(m, best, Flat(rings[..i + 1])) == BestOf(m, BestOf(m, best, Flat(rings[..i])), rings[i])
    {
      FlatStep(rings, i);
      FlatPrefix(rings, i + 1);
      assert forall p | p in Flat(rings[..i + 1]) :: p in Flat(rings);
      BestOfParts(m, best, Flat(rings[..i]), rings[i]);
    }

    /** No process stands twice in the walk. */
    lemma OrderDistinct(m: nat, n: nat)
      requires table.Valid() && m < |Order()| && n < |Order()| && Order()[m] == Order()[n]
      ensures m == n
    {
      var i, k := FlatMember(table.rings, m);
      var j, l := FlatMember(table.rings, n);
      assert table.Queue(i) && table.Queue(j);
    }

    /** The state the step function works on; cur is the place of the running process in the walk. */
    ghost function State(cur: nat): S.Sched
      reads this, table, Order()
    {
      var o := Order();
      S.Sched(Counts(), cur, seq(|o|, n requires 0 <= n < |o| => o[n].tssSeg != 0), firstTime)
    }

    /** schedule(). */
    method Schedule(ghost cur: nat) returns (ghost cur': nat)
      requires Valid() && cur < |Order()| && Order()[cur] == current
      modifies this, table.Members()`counter
      ensures Valid() && table.rings == old(table.rings)
      ensures cur' < |Order()| && Order()[cur'] == current
      ensures State(cur') == S.Next(old(State(cur)))
      ensures previous == if old(firstTime) || current != old(current) then old(current) else old(previous)
    {
      hide Ring, Flat, S.Pick, Counts, ProcessTable.Queue;
      ghost var c := Counts();
      var proc := TickAndSelect(cur);
      Charge(cur);
      assert Counts() == S.Charged(c, cur);
      cur' := cur;
      if firstTime || (proc != current && current.tssSeg != 0) {
        previous, current, firstTime := current, proc, false;
        cur' := S.Pick(c, cur, |c|);
      }
    }

    /** Both walks. */
    method TickAndSelect(ghost cur: nat) returns (proc: Process)
      requires Valid() && cur < |Order()| && Order()[cur] == current
      modifies table.Members()`counter
      ensures Valid() && |Counts()| == |old(Counts())|
      ensures forall n | 0 <= n < |Counts()| :: Counts()[n] == old(Counts())[n] - 1
      ensures proc == Order()[S.Pick(old(Counts()), cur, |Order()|)]
      ensures proc == current <==> S.Pick(old(Counts()), cur, |Order()|) == cur
    {
      hide Ring, Flat, S.Pick, Counts, BestOf, ProcessTable.Queue;
      ghost var c, o := Counts(), Order();
      Tick();
      ghost var d := Counts();
      S.PickShift(c, d, cur, |o|);
      ghost var m := map p | p in o :: p.counter;
      assert forall k | 0 <= k < |o| :: o[k] in m && d[k] == m[o[k]];
      BestIsPick(m, o, d, cur, |o|);
      assert o[..|o|] == o;
      if o[S.Pick(c, cur, |o|)] == current {
        OrderDistinct(S.Pick(c, cur, |o|), cur);
      }
      proc := Select(cur, m);
      assert Order() == o && forall n | 0 <= n < |o| :: o[n].counter == m[o[n]];
    }

    /** The running process pays a second time. */
    method Charge(ghost cur: nat)
      requires Valid() && cur < |Order()| && Order()[cur] == current
      modifies current`counter
      ensures Valid() && |Counts()| == |old(Counts())|
      ensures forall n | 0 <= n < |Counts()| :: Counts()[n] == old(Counts())[n] - (if n == cur then 1 else 0)
    {
      hide Ring, Flat, ProcessTable.Queue;
      ghost var o := Order();
      forall n | 0 <= n < |o|
        ensures o[n] == current <==> n == cur
      {
        if o[n] == current {
          OrderDistinct(n, cur);
        }
      }
      current.counter := current.counter - 1;
    }

    /** The first walk, seen in walk order. */
    method Tick()
      requires table.Valid()
      modifies table.Members()`counter
      ensures table.Valid() && |Counts()| == |old(Counts())|
      ensures forall n | 0 <= n < |Counts()| :: Counts()[n] == old(Counts())[n] - 1
    {
      hide Ring;
      DecrementAll();
      forall n | 0 <= n < |Counts()|
        ensures Counts()[n] == old(Counts())[n] - 1
      {
        var i, k := FlatMember(table.rings, n);
      }
    }
  }
}
