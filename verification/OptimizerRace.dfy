/** The parallel optimizer of src/compress.rs as a step relation over worker threads and one lock. */
module OptimizerRace {
  import opened Bytes
  import opened Selection

  /** Passes not yet taken, the pass each busy thread works on, the holder of the lock, the shared best. */
  datatype State = State(pending: set<nat>, busy: map<nat, nat>, lock: Option<nat>, best: Option<Best>, done: set<nat>)

  function Init(outcomes: Outcomes): State {
    State(Passes(|outcomes|), map[], None, None, {})
  }

  /** An idle thread takes any pending pass. */
  ghost predicate Take(s: State, t: State, th: nat, p: nat) {
    th !in s.busy && p in s.pending && t == s.(pending := s.pending - {p}, busy := s.busy[th := p])
  }

  /** The encoder returned an error: the thread goes on without touching the shared best. */
  ghost predicate GiveUp(outcomes: Outcomes, s: State, t: State, th: nat) {
    && th in s.busy && s.lock != Some(th) && !Succeeded(outcomes, s.busy[th])
    && t == s.(busy := s.busy - {th}, done := s.done + {s.busy[th]})
  }

  /** A thread with a payload waits until the lock is free. */
  ghost predicate Acquire(outcomes: Outcomes, s: State, t: State, th: nat) {
    && th in s.busy && Succeeded(outcomes, s.busy[th]) && s.lock == None
    && t == s.(lock := Some(th))
  }

  /** Compare, maybe replace, release. */
  ghost predicate Commit(outcomes: Outcomes, s: State, t: State, th: nat) {
    && s.lock == Some(th) && th in s.busy && Succeeded(outcomes, s.busy[th])
    && t == s.(busy := s.busy - {th}, lock := None, done := s.done + {s.busy[th]},
               best := Improve(s.best, s.busy[th], outcomes[s.busy[th]].value))
  }

  ghost predicate Step(outcomes: Outcomes, s: State, t: State) {
    || (exists th, p :: Take(s, t, th, p))
    || (exists th :: GiveUp(outcomes, s, t, th))
    || (exists th :: Acquire(outcomes, s, t, th))
    || (exists th :: Commit(outcomes, s, t, th))
  }

  ghost predicate Inv(outcomes: Outcomes, s: State) {
    && IsBest(outcomes, s.done, s.best)
    && (forall p :: p in Passes(|outcomes|) <==> p in s.pending || p in s.busy.Values || p in s.done)
    && s.pending !! s.done && s.pending !! s.busy.Values && s.done !! s.busy.Values
    && (forall a, b :: a in s.busy && b in s.busy && s.busy[a] == s.busy[b] ==> a == b)
    && (s.lock.Some? ==> s.lock.value in s.busy && Succeeded(outcomes, s.busy[s.lock.value]))
  }

  lemma InitInv(outcomes: Outcomes)
    ensures Inv(outcomes, Init(outcomes))
  {
  }

  lemma TakeInv(outcomes: Outcomes, s: State, t: State, th: nat, p: nat)
    requires Inv(outcomes, s) && Take(s, t, th, p)
    ensures Inv(outcomes, t)
  {
    assert t.busy.Values == s.busy.Values + {p} by {
      assert t.busy[th] == p;
      forall q | q in s.busy.Values ensures q in t.busy.Values {
        var a :| a in s.busy && s.busy[a] == q;
        assert t.busy[a] == q;
      }
    }
  }

  /** The pass a thread has finished leaves the busy map and enters `done`. */
  lemma FinishInv(outcomes: Outcomes, s: State, t: State, th: nat)
    requires Inv(outcomes, s) && (GiveUp(outcomes, s, t, th) || Commit(outcomes, s, t, th))
    ensures Inv(outcomes, t)
  {
    var p := s.busy[th];
    assert t.busy.Values == s.busy.Values - {p} by {
      forall q | q in s.busy.Values && q != p ensures q in t.busy.Values {
        var a :| a in s.busy && s.busy[a] == q;
        assert a in t.busy && t.busy[a] == q;
      }
      assert p in s.busy.Values;
    }
    if Succeeded(outcomes, p) {
      ImproveKeepsBest(outcomes, s.done, s.best, p);
    } else {
      FailureKeepsBest(outcomes, s.done, s.best, p);
    }
  }

  lemma StepInv(outcomes: Outcomes, s: State, t: State)
    requires Inv(outcomes, s) && Step(outcomes, s, t)
    ensures Inv(outcomes, t)
  {
    if th, p :| Take(s, t, th, p) {
      TakeInv(outcomes, s, t, th, p);
    } else if th :| GiveUp(outcomes, s, t, th) {
      FinishInv(outcomes, s, t, th);
    } else if th :| Acquire(outcomes, s, t, th) {
    } else {
      var th :| Commit(outcomes, s, t, th);
      FinishInv(outcomes, s, t, th);
    }
  }

  ghost predicate IsRun(outcomes: Outcomes, run: seq<State>) {
    && run != [] && run[0] == Init(outcomes)
    && forall i :: 0 <= i < |run| - 1 ==> Step(outcomes, run[i], run[i + 1])
  }

  lemma {:induction false} RunInv(outcomes: Outcomes, run: seq<State>, k: nat)
    requires IsRun(outcomes, run) && k < |run|
    ensures Inv(outcomes, run[k])
  {
    if k == 0 {
      InitInv(outcomes);
    } else {
      RunInv(outcomes, run, k - 1);
      assert Step(outcomes, run[k - 1], run[k - 1 + 1]);
      StepInv(outcomes, run[k - 1], run[k]);
    }
  }

  predicate Finished(s: State) {
    s.pending == {} && s.busy == map[]
  }

  /** At every moment of every run the shared best is the lexicographic minimum over the finished passes. */
  lemma AlwaysBestSoFar(outcomes: Outcomes, run: seq<State>, k: nat)
    requires IsRun(outcomes, run) && k < |run|
    ensures IsBest(outcomes, run[k].done, run[k].best)
  {
    RunInv(outcomes, run, k);
  }

  /** However many threads took part and however they interleaved, a finished run ends with the same winner. */
  lemma ScheduleIndependent(outcomes: Outcomes, run: seq<State>)
    requires IsRun(outcomes, run) && Finished(run[|run| - 1])
    ensures run[|run| - 1].best == Winner(outcomes)
  {
    var s := run[|run| - 1];
    RunInv(outcomes, run, |run| - 1);
    assert s.busy.Values == {};
    assert s.done == Passes(|outcomes|);
    BestIsWinner(outcomes, s.best);
  }

  /** No interleaving gets stuck: while work is left, some thread can move. */
  lemma NeverStuck(outcomes: Outcomes, s: State)
    requires Inv(outcomes, s) && !Finished(s)
    ensures exists t :: Step(outcomes, s, t)
  {
    var t;
    if s.lock.Some? {
      var th := s.lock.value;
      t := s.(busy := s.busy - {th}, lock := None, done := s.done + {s.busy[th]},
              best := Improve(s.best, s.busy[th], outcomes[s.busy[th]].value));
      assert Commit(outcomes, s, t, th);
    } else if th: nat :| th in s.busy {
      if Succeeded(outcomes, s.busy[th]) {
        t := s.(lock := Some(th));
        assert Acquire(outcomes, s, t, th);
      } else {
        t := s.(busy := s.busy - {th}, done := s.done + {s.busy[th]});
        assert GiveUp(outcomes, s, t, th);
      }
    } else {
      var p :| p in s.pending;
      t := s.(pending := s.pending - {p}, busy := s.busy[0 := p]);
      assert Take(s, t, 0, p);
    }
    assert Step(outcomes, s, t);
  }

  // ---- Runs end ----

  /** What is left to do: three steps for a pending pass, two for a busy one, one once its thread holds the lock. */
  function Work(s: State): int {
    3 * |s.pending| + 2 * |s.busy| - if s.lock.Some? then 1 else 0
  }

  lemma WorkIsNatural(outcomes: Outcomes, s: State)
    requires Inv(outcomes, s)
    ensures Work(s) >= 0
  {
    if s.lock.Some? {
      assert s.lock.value in s.busy;
    }
  }

  lemma TakeLowersWork(s: State, t: State, th: nat, p: nat)
    requires Take(s, t, th, p)
    ensures Work(t) < Work(s)
  {
    assert t.busy.Keys == s.busy.Keys + {th};
    assert |s.pending| == |t.pending + {p}| == |t.pending| + 1;
    assert |t.busy| == |t.busy.Keys| == |s.busy| + 1;
  }

  /** Every step lowers it, so no run goes on for ever. */
  lemma StepLowersWork(outcomes: Outcomes, s: State, t: State)
    requires Inv(outcomes, s) && Step(outcomes, s, t)
    ensures Work(t) < Work(s)
  {
    if th, p :| Take(s, t, th, p) {
      TakeLowersWork(s, t, th, p);
    } else if th :| GiveUp(outcomes, s, t, th) {
      BusyShrinks(s, t, th);
    } else if th :| Acquire(outcomes, s, t, th) {
    } else {
      var th :| Commit(outcomes, s, t, th);
      BusyShrinks(s, t, th);
    }
  }

  lemma BusyShrinks(s: State, t: State, th: nat)
    requires th in s.busy && t.busy == s.busy - {th}
    ensures |t.busy| == |s.busy| - 1
  {
    assert t.busy.Keys == s.busy.Keys - {th};
    assert |t.busy| == |t.busy.Keys| && |s.busy| == |s.busy.Keys|;
  }

  lemma {:induction false} PassesCount(n: nat)
    ensures |Passes(n)| == n
  {
    if n > 0 {
      PassesCount(n - 1);
      var s := Passes(n - 1);
      assert |s + {n - 1}| == |s| + 1;
    }
  }

  lemma {:induction false} RunIsBounded(outcomes: Outcomes, run: seq<State>, k: nat)
    requires IsRun(outcomes, run) && k < |run|
    ensures k + Work(run[k]) <= 3 * |outcomes|
  {
    if k == 0 {
      PassesCount(|outcomes|);
    } else {
      RunIsBounded(outcomes, run, k - 1);
      RunInv(outcomes, run, k - 1);
      assert Step(outcomes, run[k - 1], run[k - 1 + 1]);
      StepLowersWork(outcomes, run[k - 1], run[k]);
    }
  }

  ghost predicate Stuck(outcomes: Outcomes, s: State) {
    !exists t :: Step(outcomes, s, t)
  }

  /** A run that cannot be extended has finished, with the one winner, after at most three steps a pass. */
  lemma MaximalRunFinishes(outcomes: Outcomes, run: seq<State>)
    requires IsRun(outcomes, run) && Stuck(outcomes, run[|run| - 1])
    ensures Finished(run[|run| - 1]) && run[|run| - 1].best == Winner(outcomes) && |run| <= 3 * |outcomes| + 1
  {
    var s := run[|run| - 1];
    RunInv(outcomes, run, |run| - 1);
    if !Finished(s) {
      NeverStuck(outcomes, s);
    }
    ScheduleIndependent(outcomes, run);
    RunIsBounded(outcomes, run, |run| - 1);
    WorkIsNatural(outcomes, s);
  }
}
