/** When a fragment is left pending, and whether mksquashfs, having written its last file, stops waiting for
    fragments. */
module FragmentEnding {
  import opened FragmentAllocator

  /** A deflator that saw fragments locked and has not yet added its own to the pending ones. */
  ghost predicate SomeDeferring(s: State) {
    exists d :: 0 <= d < |s.deflators| && s.deflators[d].Deferring?
  }

  /** Fragments are not locked, none is pending and none is about to be. */
  ghost predicate Clear(s: State) {
    !s.locked && s.pending == [] && !SomeDeferring(s)
  }

  /** When fragments are unlocked, none will be left pending if and only if no deflator is deferring its own. */
  lemma ClearIff(s: State)
    requires Ok(s) && Enabled(s, UnlockDone)
    ensures Clear(Apply(s, UnlockDone)) <==> !SomeDeferring(s)
  {
    hide MutexOk, SpaceOk, WhereOk;
  }

  /** From then on nothing becomes pending until fragments are locked. */
  lemma ClearKept(s: State, step: Step)
    requires Enabled(s, step) && Clear(s) && step != SetLocked
    ensures Clear(Apply(s, step))
  {
  }

  lemma {:induction false} ClearUntilLocked(states: seq<State>, steps: seq<Step>, base: nat, n: nat, j: nat, k: nat)
    requires IsRun(states, steps, base, n) && j <= k < |states| && Clear(states[j]) && SetLocked !in steps[j..k]
    ensures Clear(states[k])
  {
    hide Apply, Clear;
    if j < k {
      assert steps[j..k] == steps[j..k - 1] + [steps[k - 1]];
      ClearUntilLocked(states, steps, base, n, j, k - 1);
      ClearKept(states[k - 1], steps[k - 1]);
    }
  }

  /** A deflator that is deferring then comes too late: its fragment is pending, and fragments are not locked. */
  lemma ComesTooLate(s: State, d: nat)
    requires Ok(s) && Enabled(s, UnlockDone) && d < |s.deflators| && s.deflators[d].Deferring?
    ensures
      var u := Apply(s, UnlockDone);
      && Enabled(u, AddPending(d)) && !u.locked
      && Apply(u, AddPending(d)).pending == [Pending(s.deflators[d].id, s.deflators[d].size)]
      && !Apply(u, AddPending(d)).locked
  {
    hide SpaceOk, WhereOk;
  }

  // ----- The last wait, which fails

  ghost predicate Stuck(s: State) {
    s.main.Ending? && (s.pending != [] || SomeDeferring(s))
  }

  lemma {:induction false} Fewer(n: nat, keys: set<nat>, f: nat)
    requires f < n && f !in keys && forall k :: k in keys ==> k < n
    ensures |keys| < n
  {
    if n == 1 {
      assert keys == {};
    } else if f == n - 1 {
      Below(n - 1, keys);
    } else {
      Fewer(n - 1, keys - {n - 1}, f);
    }
  }

  lemma {:induction false} Below(n: nat, keys: set<nat>)
    requires forall k :: k in keys ==> k < n
    ensures |keys| <= n
  {
    if n == 0 { assert keys == {}; } else { Below(n - 1, keys - {n - 1}); }
  }

  /** While a fragment is on its way, the count of those is not zero. */
  lemma StillOutstanding(s: State, f: nat)
    requires WhereOk(s) && f in s.where && !s.where[f].Placed?
    ensures s.outstanding > 0
  {
    hide QueueOk, DeflatorsOk, PendingOk;
    assert forall k :: k in s.table.Keys ==> k in s.table && k < s.fragments;
    Fewer(s.fragments, s.table.Keys, f);
    assert |s.table.Keys| == |s.table|;
  }

  lemma StuckCounts(s: State)
    requires Ok(s) && Stuck(s)
    ensures s.outstanding > 0
  {
    hide MutexOk, SpaceOk;
    if s.pending != [] {
      StillOutstanding(s, s.pending[0].id);
    } else {
      var d :| 0 <= d < |s.deflators| && s.deflators[d].Deferring?;
      StillOutstanding(s, s.deflators[d].id);
    }
  }

  lemma DeferringStays(s: State, step: Step, d: nat)
    requires s.main.Ending? && Enabled(s, step) && d < |s.deflators| && s.deflators[d].Deferring?
    requires step != AddPending(d)
    ensures |Apply(s, step).deflators| == |s.deflators| && Apply(s, step).deflators[d].Deferring?
  {
  }

  lemma StillEnding(s: State, step: Step)
    requires s.main.Ending? && Enabled(s, step) && step != Finish
    ensures Apply(s, step).main.Ending? && s.pending <= Apply(s, step).pending
  {
  }

  lemma StuckKept(s: State, step: Step)
    requires Ok(s) && Stuck(s) && Enabled(s, step)
    ensures Stuck(Apply(s, step))
  {
    hide Ok;
    StuckCounts(s);
    StillEnding(s, step);
    if s.pending == [] {
      var d :| 0 <= d < |s.deflators| && s.deflators[d].Deferring?;
      if step != AddPending(d) { DeferringStays(s, step, d); }
    }
  }

  /** If a fragment comes after the last unlock_fragments, mksquashfs waits for it for ever. */
  lemma {:induction false} WaitsForEver(states: seq<State>, steps: seq<Step>, base: nat, n: nat, j: nat, k: nat)
    requires IsRun(states, steps, base, n) && j <= k < |states| && Stuck(states[j])
    ensures states[k].main.Ending? && states[k].outstanding > 0 && Stuck(states[k])
  {
    hide Apply, Ok;
    RunOk(states, steps, base, n, k);
    if j < k {
      WaitsForEver(states, steps, base, n, j, k - 1);
      RunOk(states, steps, base, n, k - 1);
      StuckKept(states[k - 1], steps[k - 1]);
    }
    StuckCounts(states[k]);
  }

  // ----- The last wait, which succeeds

  function Rank(p: DeflatorPc): nat {
    match p
    case Waiting => 0
    case Compressing(_) => 4
    case Ready(_, _) => 3
    case Testing(_, _) => 2
    case Committing(_, _, _) => 1
    case Deferring(_, _) => 1
  }

  function Ranks(ds: seq<DeflatorPc>): nat {
    if ds == [] then 0 else Ranks(ds[..|ds| - 1]) + Rank(ds[|ds| - 1])
  }

  /** The steps until every fragment is placed. */
  function Work(s: State): nat {
    5 * |s.queue| + Ranks(s.deflators)
  }

  lemma {:induction false} RanksUpdate(ds: seq<DeflatorPc>, d: nat, p: DeflatorPc)
    requires d < |ds|
    ensures Ranks(ds[d := p]) == Ranks(ds) - Rank(ds[d]) + Rank(p)
  {
    var n := |ds| - 1;
    if d == n {
      assert ds[d := p][..n] == ds[..n];
    } else {
      RanksUpdate(ds[..n], d, p);
      assert ds[d := p][..n] == ds[..n][d := p];
    }
  }

  lemma {:induction false} RanksZero(ds: seq<DeflatorPc>)
    ensures Ranks(ds) == 0 <==> forall d :: 0 <= d < |ds| ==> ds[d].Waiting?
  {
    if ds != [] {
      RanksZero(ds[..|ds| - 1]);
      assert ds == ds[..|ds| - 1] + [ds[|ds| - 1]];
    }
  }

  /** Every step but the last one brings the end nearer by one. */
  lemma WorkDone(s: State, step: Step)
    requires Ok(s) && s.main.Ending? && Clear(s) && Enabled(s, step) && step != Finish
    ensures Apply(s, step).main.Ending? && Work(Apply(s, step)) == Work(s) - 1
  {
    hide SpaceOk, WhereOk, Ranks;
    assert step.Take? || step.Compress? || step.Acquire? || step.Test? || step.Commit?;
    RanksUpdate(s.deflators, step.d, Apply(s, step).deflators[step.d]);
  }

  lemma NothingLeft(s: State)
    requires WhereOk(s) && s.outstanding > 0 && s.pending == [] && s.queue == []
    ensures exists d :: 0 <= d < |s.deflators| && !s.deflators[d].Waiting?
  {
    assert |s.table.Keys| == |s.table|;
    if forall f: nat :: f < s.fragments ==> f in s.table {
      AllThere(s.fragments, s.table.Keys);
    } else {
      var f: nat :| f < s.fragments && f !in s.table;
      assert f in s.where;
      assert !IsPending(s.pending, f);
      assert s.where[f].At? && Carries(s.deflators[s.where[f].d], f);
    }
  }

  lemma {:induction false} AllThere(n: nat, keys: set<nat>)
    requires forall k: nat :: k < n ==> k in keys
    ensures |keys| >= n
  {
    if n > 0 { AllThere(n - 1, keys - {n - 1}); }
  }

  ghost predicate CanGoOn(s: State) {
    exists step :: Enabled(s, step)
  }

  lemma DeflatorGoesOnToo(s: State, d: nat)
    requires MutexOk(s) && s.holder.Nobody? && d < |s.deflators| && !s.deflators[d].Waiting?
    requires !s.deflators[d].Deferring?
    ensures CanGoOn(s)
  {
    assert !Inside(s.deflators[d]);
    if s.deflators[d].Compressing? { assert Enabled(s, Compress(d, 0)); } else { assert Enabled(s, Acquire(d)); }
  }

  /** Until it is over, some step is possible, if there are deflators at all. */
  lemma NoDeadlock(s: State)
    requires Ok(s) && s.main.Ending? && Clear(s) && |s.deflators| > 0
    ensures CanGoOn(s)
  {
    hide SpaceOk, WhereOk, Enabled;
    if s.holder.Deflator? {
      HolderGoesOn(s);
    } else {
      assert s.holder.Nobody?;
      if d: nat :| d < |s.deflators| && !s.deflators[d].Waiting? {
        DeflatorGoesOnToo(s, d);
      } else {
        AllWait(s);
      }
    }
  }

  lemma HolderGoesOn(s: State)
    requires MutexOk(s) && s.holder.Deflator?
    ensures CanGoOn(s)
  {
    var d := s.holder.d;
    assert Inside(s.deflators[d]);
    if s.deflators[d].Testing? { assert Enabled(s, Test(d)); } else { assert Enabled(s, Commit(d)); }
  }

  lemma AllWait(s: State)
    requires Ok(s) && s.main.Ending? && s.pending == [] && |s.deflators| > 0 && s.holder.Nobody?
    requires forall d :: 0 <= d < |s.deflators| ==> s.deflators[d].Waiting?
    ensures CanGoOn(s)
  {
    hide MutexOk, SpaceOk, QueueOk, DeflatorsOk, PendingOk, TableOk;
    if s.queue != [] {
      assert s.deflators[0].Waiting?;
      assert Enabled(s, Take(0));
    } else {
      if s.outstanding > 0 { NothingLeft(s); }
      TableSmall(s);
      assert Enabled(s, Finish);
    }
  }

  lemma TableSmall(s: State)
    requires WhereOk(s)
    ensures s.outstanding >= 0
  {
    hide QueueOk, DeflatorsOk, PendingOk;
    assert forall k :: k in s.table.Keys ==> k in s.table && k < s.fragments;
    Below(s.fragments, s.table.Keys);
    assert |s.table.Keys| == |s.table|;
  }

  /** If no deflator is deferring when the last unlock_fragments ends, mksquashfs finishes: after as many steps as
      there is work it has finished, and until then it can always go on. */
  lemma {:induction false} FinishesInTime(states: seq<State>, steps: seq<Step>, base: nat, n: nat, j: nat, k: nat)
    requires IsRun(states, steps, base, n) && j <= k < |states| && n > 0 && states[j].main.Ending? && Clear(states[j])
    requires Finish !in steps[j..k]
    ensures states[k].main.Ending? && Clear(states[k]) && Work(states[k]) + (k - j) == Work(states[j])
    ensures CanGoOn(states[k])
  {
    hide Apply, Ok, Clear, Enabled;
    RunOk(states, steps, base, n, k);
    if j < k {
      assert steps[j..k] == steps[j..k - 1] + [steps[k - 1]];
      FinishesInTime(states, steps, base, n, j, k - 1);
      RunOk(states, steps, base, n, k - 1);
      NotLocking(states[k - 1], steps[k - 1]);
      ClearKept(states[k - 1], steps[k - 1]);
      WorkDone(states[k - 1], steps[k - 1]);
    }
    AsMany(states, steps, base, n, k);
    NoDeadlock(states[k]);
  }

  lemma NotLocking(s: State, step: Step)
    requires Enabled(s, step) && s.main.Ending?
    ensures step != SetLocked
  {
  }

  lemma {:induction false} AsMany(states: seq<State>, steps: seq<Step>, base: nat, n: nat, k: nat)
    requires IsRun(states, steps, base, n) && k < |states|
    ensures |states[k].deflators| == n
  {
    if k > 0 {
      AsMany(states, steps, base, n, k - 1);
      SameNumber(states[k - 1], steps[k - 1]);
      hide Apply;
    }
  }

  lemma SameNumber(s: State, step: Step)
    requires Enabled(s, step)
    ensures |Apply(s, step).deflators| == |s.deflators|
  {
  }

  /** Which of the two it is, is settled when the last unlock_fragments ends. */
  lemma StuckOrClear(s: State)
    requires Ok(s) && Enabled(s, UnlockDone) && s.main.LastDraining?
    ensures
      var u := Apply(s, UnlockDone);
      (SomeDeferring(s) ==> Stuck(u)) && (!SomeDeferring(s) ==> u.main.Ending? && Clear(u))
  {
    hide SpaceOk, WhereOk;
  }

  /** A run that comes to this: the deflator defers while a file is written, and adds its fragment after all is
      unlocked. */
  lemma LastFragmentLost(base: nat, n: nat) returns (r: Run, s: State)
    ensures EndsIn(r, base, s) && Stuck(s) && s.pending == [Pending(0, n)]
  {
    hide EndsIn;
    r, s := StillDeferring(base, n);
    var s1 := s.(main := LastUnlocking);
    r := OneStep(r, base, s, LastUnlock, s1);
    var s2 := s1.(holder := Main, main := LastDraining);
    r := OneStep(r, base, s1, UnlockAcquire, s2);
    var s3 := s2.(holder := Nobody, main := Ending);
    r := OneStep(r, base, s2, UnlockDone, s3);
    s := s3.(pending := [Pending(0, n)], deflators := [Waiting], where := map[0 := InPending]);
    r := OneStep(r, base, s3, AddPending(0), s);
  }
}
