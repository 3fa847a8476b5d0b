/**
 kernel/scheduler.c as a step function: every process loses one count, the highest count
 wins, and the process that was running loses a second one.
 */
module SchedulerSpec {

  /** c: p_counter in traversal order; seg: p_tss_seg is non-zero; first: the static first_time flag. */
  datatype Sched = Sched(c: seq<int>, cur: nat, seg: seq<bool>, first: bool)
  {
    predicate WellFormed()
    {
      cur < |c| && |seg| == |c|
    }
  }

  /** The selection scan over the first n processes, starting from cur. */
  function Pick(c: seq<int>, cur: nat, n: nat): (r: nat)
    requires cur < |c| && n <= |c|
    ensures r < |c| && c[cur] <= c[r]
    ensures forall k | 0 <= k < n :: c[k] <= c[r]
    ensures r != cur ==> c[cur] < c[r] && r < n && forall k | 0 <= k < r :: c[k] < c[r]
  {
    if n == 0 then cur
    else
      var r := Pick(c, cur, n - 1);
      if c[r] < c[n - 1] then n - 1 else r
  }

  /** Taking one count from everybody does not change the choice. */
  lemma PickShift(c: seq<int>, d: seq<int>, cur: nat, n: nat)
    requires cur < |c| == |d| && n <= |c| && forall k | 0 <= k < |c| :: d[k] == c[k] - 1
    ensures Pick(d, cur, n) == Pick(c, cur, n)
  {
  }

  function Charged(c: seq<int>, cur: nat): (r: seq<int>)
    requires cur < |c|
    ensures |r| == |c| && forall q | 0 <= q < |c| :: r[q] == c[q] - (if q == cur then 2 else 1)
  {
    seq(|c|, q requires 0 <= q < |c| => c[q] - (if q == cur then 2 else 1))
  }

  /** One call of schedule(). */
  function Next(s: Sched): (s': Sched)
    requires s.WellFormed()
    ensures s'.WellFormed() && |s'.c| == |s.c| && s'.seg == s.seg
  {
    var sel := Pick(s.c, s.cur, |s.c|);
    var switch := s.first || (sel != s.cur && s.seg[s.cur]);
    Sched(Charged(s.c, s.cur), if switch then sel else s.cur, s.seg, s.first && !switch)
  }

  function Run(s: Sched, k: nat): (s': Sched)
    requires s.WellFormed()
    ensures s'.WellFormed() && |s'.c| == |s.c| && s'.seg == s.seg
  {
    if k == 0 then s else Next(Run(s, k - 1))
  }

  /** Every process can be switched away from. */
  predicate Switchable(s: Sched)
  {
    s.WellFormed() && forall q | 0 <= q < |s.seg| :: s.seg[q]
  }

  /** The running process is at most one count behind the best. */
  ghost predicate Lead(s: Sched)
  {
    s.WellFormed() && forall q | 0 <= q < |s.c| :: s.c[q] <= s.c[s.cur] + 1
  }

  /** No two counts differ by more than two. */
  ghost predicate Close(s: Sched)
  {
    s.WellFormed() && forall q, r | 0 <= q < |s.c| && 0 <= r < |s.c| :: s.c[q] <= s.c[r] + 2
  }

  /** From any state at all, one call puts the runner within one count of the best. */
  lemma LeadAfterOneCall(s: Sched)
    requires Switchable(s)
    ensures Lead(Next(s)) && Switchable(Next(s))
  {
  }

  lemma {:induction false} LeadForever(s: Sched, k: nat)
    requires Switchable(s) && k > 0
    ensures Lead(Run(s, k)) && Switchable(Run(s, k))
  {
    if k == 1 {
      assert Run(s, 1) == Next(Run(s, 0));
      LeadAfterOneCall(s);
    } else {
      LeadForever(s, k - 1);
      LeadAfterOneCall(Run(s, k - 1));
    }
  }

  /** The very first call puts the best process on, whatever the segments, and only that one is special. */
  lemma FirstCall(s: Sched)
    requires s.WellFormed() && s.first
    ensures !Next(s).first && forall q | 0 <= q < |s.c| :: s.c[q] <= s.c[Next(s).cur]
    ensures (forall q | 0 <= q < |s.c| :: s.c[q] <= s.c[s.cur]) ==> Next(s).cur == s.cur
  {
  }

  // ---------------------------------------------------------------- bounded wait

  /** How many charges q can still take before it falls two behind p. */
  function Slack(c: seq<int>, p: nat, q: nat): nat
    requires p < |c| && q < |c|
  {
    if q == p || c[q] - c[p] + 2 < 0 then 0 else c[q] - c[p] + 2
  }

  function Wait(c: seq<int>, p: nat, n: nat): nat
    requires p < |c| && n <= |c|
  {
    if n == 0 then 0 else Wait(c, p, n - 1) + Slack(c, p, n - 1)
  }

  /** While p is not running, each call uses up exactly one unit of the total slack. */
  lemma {:induction false} WaitShrinks(s: Sched, p: nat, n: nat)
    requires Lead(s) && p < |s.c| && p != s.cur && n <= |s.c|
    ensures Wait(Next(s).c, p, n) == Wait(s.c, p, n) - (if s.cur < n then 1 else 0)
  {
    if n > 0 {
      WaitShrinks(s, p, n - 1);
    }
  }

  lemma {:induction false} WaitCovers(s: Sched, p: nat, n: nat)
    requires Lead(s) && p < |s.c| && p != s.cur && s.cur < n <= |s.c|
    ensures Wait(s.c, p, n) >= 1
  {
    if n > s.cur + 1 {
      WaitCovers(s, p, n - 1);
    }
  }

  /** Any process that is not running gets the processor within Wait calls. */
  lemma {:induction false} BoundedWait(s: Sched, p: nat) returns (k: nat)
    requires Switchable(s) && Lead(s) && p < |s.c| && p != s.cur
    ensures 1 <= k <= Wait(s.c, p, |s.c|) && Run(s, k).cur == p
    decreases Wait(s.c, p, |s.c|)
  {
    hide Next, Lead, Slack, Wait, Pick;
    var t := Next(s);
    WaitShrinks(s, p, |s.c|);
    WaitCovers(s, p, |s.c|);
    LeadAfterOneCall(s);
    assert Run(s, 1) == Next(Run(s, 0));
    if t.cur == p {
      k := 1;
    } else {
      var j := BoundedWait(t, p);
      k := j + 1;
      RunShift(s, j);
    }
  }

  lemma {:induction false} RunShift(s: Sched, j: nat)
    requires s.WellFormed()
    ensures Run(s, j + 1) == Run(Next(s), j)
  {
    hide Next;
    if j > 0 {
      RunShift(s, j - 1);
    } else {
      assert Run(s, 1) == Next(Run(s, 0));
    }
  }

  lemma {:induction false} RunAdd(s: Sched, a: nat, b: nat)
    requires s.WellFormed()
    ensures Run(Run(s, a), b) == Run(s, a + b)
  {
    hide Next;
    if b > 0 {
      var t := Run(s, a);
      RunAdd(s, a, b - 1);
      assert Run(t, b) == Next(Run(t, b - 1));
      assert Run(s, a + b) == Next(Run(s, a + b - 1));
    }
  }

  /** From any state, every process runs again after any number of calls, within the bound of that moment. */
  lemma NeverStarves(s: Sched, p: nat, k: nat) returns (j: nat)
    requires Switchable(s) && p < |s.c|
    ensures k < j <= k + 1 + Wait(Run(s, k + 1).c, p, |s.c|) && Run(s, j).cur == p
  {
    hide Next, Lead, Slack, Wait;
    var t := Run(s, k + 1);
    LeadForever(s, k + 1);
    if t.cur == p {
      return k + 1;
    }
    var m := BoundedWait(t, p);
    RunAdd(s, k + 1, m);
    return k + 1 + m;
  }

  // ---------------------------------------------------------------- fairness over whole runs

  /** How many of the first k calls found q running. */
  function Charges(s: Sched, k: nat, q: nat): nat
    requires s.WellFormed()
  {
    if k == 0 then 0 else Charges(s, k - 1, q) + (if Run(s, k - 1).cur == q then 1 else 0)
  }

  lemma NextCounts(s: Sched)
    requires s.WellFormed()
    ensures forall q | 0 <= q < |s.c| :: Next(s).c[q] == s.c[q] - (if q == s.cur then 2 else 1)
  {
  }

  /** A count is the start value less one per call and one more per call spent running. */
  lemma {:induction false} CountIsCharge(s: Sched, k: nat, q: nat)
    requires s.WellFormed() && q < |s.c|
    ensures Run(s, k).c[q] == s.c[q] - k - Charges(s, k, q)
  {
    hide Next;
    if k > 0 {
      CountIsCharge(s, k - 1, q);
      NextCounts(Run(s, k - 1));
    }
  }

  lemma CloseStep(s: Sched)
    requires Switchable(s) && Close(s) && Lead(s)
    ensures Close(Next(s))
  {
  }

  lemma {:induction false} CloseKept(s: Sched, k: nat)
    requires Switchable(s) && Close(s) && Lead(s)
    ensures Close(Run(s, k)) && Lead(Run(s, k)) && Switchable(Run(s, k))
  {
    hide Next, Close, Lead;
    if k > 0 {
      CloseKept(s, k - 1);
      CloseStep(Run(s, k - 1));
      LeadAfterOneCall(Run(s, k - 1));
    }
  }

  /** Processes created with equal counts have, at every point of every run, run within two calls of each other. */
  lemma FairShares(s: Sched, k: nat, q: nat, r: nat)
    requires Switchable(s) && q < |s.c| && r < |s.c|
    requires forall i, j | 0 <= i < |s.c| && 0 <= j < |s.c| :: s.c[i] == s.c[j]
    ensures Charges(s, k, q) - Charges(s, k, r) <= 2 && Charges(s, k, r) - Charges(s, k, q) <= 2
    ensures Close(Run(s, k))
  {
    CloseKept(s, k);
    CountIsCharge(s, k, q);
    CountIsCharge(s, k, r);
  }

  // ---------------------------------------------------------------- when the promise fails

  /** A runner whose p_tss_seg is zero is never switched away from once the first call is over. */
  lemma {:induction false} StuckForever(s: Sched, k: nat)
    requires s.WellFormed() && !s.first && !s.seg[s.cur]
    ensures Run(s, k).cur == s.cur && !Run(s, k).first
  {
    if k > 0 {
      StuckForever(s, k - 1);
    }
  }

  lemma {:induction false} FirstOnce(s: Sched, k: nat)
    requires s.WellFormed() && k > 0
    ensures !Run(s, k).first
  {
    if k == 1 {
      assert Run(s, 1) == Next(Run(s, 0));
    } else {
      FirstOnce(s, k - 1);
    }
  }

  ghost predicate RunsAgain(s: Sched, p: nat, k: nat)
    requires s.WellFormed()
  {
    exists j :: k < j && Run(s, j).cur == p
  }

  /**
   From any state at all, every process runs again and again exactly when no process has a zero
   p_tss_seg, or there is only one process.
   */
  lemma NeverStarvesExact(s: Sched)
    requires s.WellFormed()
    ensures (forall p: nat, k: nat | p < |s.c| :: RunsAgain(s, p, k)) <==> Switchable(s) || |s.c| == 1
  {
    hide Next, Pick, Run;
    if |s.c| == 1 {
      forall p: nat, k: nat | p < |s.c|
        ensures RunsAgain(s, p, k)
      {
        assert Run(s, k + 1).cur == p;
      }
    } else if Switchable(s) {
      forall p: nat, k: nat | p < |s.c|
        ensures RunsAgain(s, p, k)
      {
        var j := NeverStarves(s, p, k);
      }
    } else if forall p: nat, k: nat | p < |s.c| :: RunsAgain(s, p, k) {
      var q :| 0 <= q < |s.seg| && !s.seg[q];
      assert RunsAgain(s, q, 0);
      var i :| 0 < i && Run(s, i).cur == q;
      FirstOnce(s, i);
      var p := if q == 0 then 1 else 0;
      assert RunsAgain(s, p, i);
      var j :| i < j && Run(s, j).cur == p;
      RunAdd(s, i, j - i);
      StuckForever(Run(s, i), j - i);
    }
  }
}
