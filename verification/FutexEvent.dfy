/** The futex-based event, as a state machine over the atomic steps of one waiter and any
    number of wakers. */
module FutexEvent {
  /** Where the waiter is. `timed` says whether it waits with a timeout. */
  datatype Waiter =
    | Idle
    | Entered(timed: bool)   // has taken 1 from a counter that was 0 and is about to enter the futex
    | Parked(timed: bool)    // sleeps in the futex
    | Awake(timed: bool)     // has left the futex, or was not let in

  /** `inFlight` counts the wakers between their fetch-and-add and their FUTEX_WAKE. The last
      four fields only count what has happened. */
  datatype State = State(
    counter: int, waiter: Waiter, inFlight: nat,
    wakes: nat, waits: nat, completed: nat, resets: nat)

  const INITIAL := State(0, Idle, 0, 0, 0, 0, 0)

  datatype Action =
    | WaitFetchAdd(timed: bool)
    | FutexWait
    | Timeout
    | Interrupt
    | Finish
    | WakeFetchAdd
    | FutexWake

  predicate Enabled(s: State, a: Action) {
    match a
    case WaitFetchAdd(_) => s.waiter.Idle?
    case FutexWait => s.waiter.Entered?
    case Timeout => s.waiter.Parked? && s.waiter.timed
    case Interrupt => s.waiter.Parked?
    case Finish => s.waiter.Awake?
    case WakeFetchAdd => true
    case FutexWake => s.inFlight > 0
  }

  function Step(s: State, a: Action): State
    requires Enabled(s, a)
  {
    match a
    case WaitFetchAdd(timed) =>
      var t := s.(counter := s.counter - 1, waits := s.waits + 1);
      if s.counter == 0 then t.(waiter := Entered(timed)) else t.(completed := s.completed + 1)
    case FutexWait =>
      if s.counter == -1 then s.(waiter := Parked(s.waiter.timed)) else s.(waiter := Awake(s.waiter.timed))
    case Timeout => s.(waiter := Awake(s.waiter.timed))
    case Interrupt => s.(waiter := Awake(s.waiter.timed))
    case Finish =>
      var t := s.(waiter := Idle, completed := s.completed + 1);
      // The compare-and-swap that only the timed wait makes.
      if s.waiter.timed && s.counter == -1 then t.(counter := 0, resets := s.resets + 1) else t
    case WakeFetchAdd =>
      var t := s.(counter := s.counter + 1, wakes := s.wakes + 1);
      if s.counter != 0 then t.(inFlight := s.inFlight + 1) else t
    case FutexWake =>
      var t := s.(inFlight := s.inFlight - 1);
      if s.waiter.Parked? then t.(waiter := Awake(s.waiter.timed)) else t
  }

  /** A run, with its last action outermost. */
  datatype Run = Start | Then(before: Run, last: Action)

  /** Every action is enabled when it is taken. */
  predicate IsRun(r: Run)
    decreases r, 0
  {
    match r
    case Start => true
    case Then(before, last) => IsRun(before) && Enabled(After(before), last)
  }

  function After(r: Run): State
    requires IsRun(r)
    decreases r, 1
  {
    match r
    case Start => INITIAL
    case Then(before, last) => Step(After(before), last)
  }

  lemma Extend(r: Run, s: State, a: Action) returns (t: Run)
    requires IsRun(r) && After(r) == s && Enabled(s, a)
    ensures t == Then(r, a) && IsRun(t) && After(t) == Step(s, a)
  {
    t := Then(r, a);
  }

  // ------------------------------------------------------- accounting

  predicate Balanced(s: State) {
    && s.counter == s.wakes + s.resets - s.waits
    && s.waits == s.completed + if s.waiter.Idle? then 0 else 1
  }

  lemma StepKeepsBalance(s: State, a: Action)
    requires Enabled(s, a) && Balanced(s)
    ensures Balanced(Step(s, a))
  {}

  /** The counter is what was put in less what was taken out. */
  lemma {:induction false} Accounting(r: Run)
    requires IsRun(r)
    ensures Balanced(After(r))
  {
    if r.Then? {
      Accounting(r.before);
      StepKeepsBalance(After(r.before), r.last);
    }
  }

  // ------------------------------------------------------- no wake-up is lost

  lemma {:induction false} ParkedInvariant(r: Run)
    requires IsRun(r)
    ensures var s := After(r); s.waiter.Parked? ==> s.counter >= -1 && (s.counter >= 0 ==> s.inFlight >= 1)
  {
    if r.Then? { ParkedInvariant(r.before); }
  }

  /** If the waiter sleeps although there is something to take, a waker is about to wake it. */
  lemma {:induction false} NoLostWakeup(r: Run)
    requires IsRun(r) && After(r).waiter.Parked? && After(r).counter != -1
    ensures IsRun(Then(r, FutexWake)) && After(Then(r, FutexWake)).waiter.Awake?
  {
    ParkedInvariant(r);
  }

  /** The waiter can only sleep with no waker under way when every wake-up that was ever
      posted has been used by a wait that completed. */
  lemma SleepsOnlyWhenAllUsed(r: Run)
    requires IsRun(r) && After(r).waiter.Parked? && After(r).inFlight == 0
    ensures After(r).wakes == After(r).completed - After(r).resets
  {
    ParkedInvariant(r);
    Accounting(r);
  }

  /** Every wake-up finds the counter at 0. */
  predicate WakesFindZero(r: Run)
    requires IsRun(r)
  {
    r.Then? ==> WakesFindZero(r.before) && (r.last.WakeFetchAdd? ==> After(r.before).counter == 0)
  }

  /** A wake-up that finds the counter at 0 wakes nobody: if all do, no FUTEX_WAKE is ever under way. */
  lemma {:induction false} NoWakeWithoutWaiter(r: Run)
    requires IsRun(r) && WakesFindZero(r)
    ensures After(r).inFlight == 0
  {
    if r.Then? { NoWakeWithoutWaiter(r.before); }
  }

  /** What one wake-up changes: one token more, and a FUTEX_WAKE to come exactly if the counter was not 0. */
  lemma WakeAdds(s: State)
    ensures var t := Step(s, WakeFetchAdd);
      && t.counter == s.counter + 1 && t.waiter == s.waiter && t.wakes == s.wakes + 1
      && t.inFlight == s.inFlight + (if s.counter != 0 then 1 else 0)
  {}

  // ------------------------------------------------------- conservation

  /** A wait without a timeout ends while the counter is -1: it was woken by a FUTEX_WAKE meant
      for an earlier wait, or interrupted, and takes something that is not there. */
  predicate Overdraws(s: State, a: Action) {
    a.Finish? && s.waiter == Awake(false) && s.counter == -1
  }

  predicate Overdrawn(r: Run)
    requires IsRun(r)
  {
    r.Then? && (Overdrawn(r.before) || Overdraws(After(r.before), r.last))
  }

  /** The counter was at least 0 whenever the waiter was idle. */
  predicate AlwaysSolvent(r: Run)
    requires IsRun(r)
  {
    (r.Then? ==> AlwaysSolvent(r.before)) && (After(r).waiter.Idle? ==> After(r).counter >= 0)
  }

  lemma {:induction false} SolventUnlessOverdrawn(r: Run)
    requires IsRun(r) && !Overdrawn(r)
    ensures After(r).counter >= if After(r).waiter.Idle? then 0 else -1
  {
    if r.Then? { SolventUnlessOverdrawn(r.before); }
  }

  /** Tokens are conserved throughout a run exactly when no untimed wait ends early in it. */
  lemma {:induction false} ConservedIffNotOverdrawn(r: Run)
    requires IsRun(r)
    ensures AlwaysSolvent(r) <==> !Overdrawn(r)
  {
    if r.Then? {
      ConservedIffNotOverdrawn(r.before);
      if !Overdrawn(r) { SolventUnlessOverdrawn(r); }
    }
  }

  // ------------------------------------------------------- when an untimed wait is safe

  /** `t` continues `w` without a further wait, until the wait under way is over and after it; `signals` says
      whether a signal may interrupt it. */
  predicate During(t: Run, w: Run, signals: bool) {
    t == w || (t.Then? && !t.last.WaitFetchAdd? && (signals || !t.last.Interrupt?) && During(t.before, w, signals))
  }

  /** However the untimed wait that is begun after `r` goes on, tokens are conserved. */
  ghost predicate UntimedWaitIsSafe(r: Run, signals: bool)
    requires IsRun(r) && After(r).waiter.Idle?
  {
    forall t | IsRun(t) && During(t, Then(r, WaitFetchAdd(false)), signals) :: AlwaysSolvent(t)
  }

  /** What a caller can check before the wait: there is something to take, or no FUTEX_WAKE is still
      under way and no signal can arrive. */
  predicate SafeToWait(s: State, signals: bool) {
    s.counter > 0 || (!signals && s.inFlight == 0)
  }

  /** What holds while an untimed wait that was safely begun goes on: it has what it takes, or nobody can
      end it without bringing that. */
  predicate Covered(s: State, signals: bool) {
    && (s.waiter.Idle? ==> s.counter >= 0)
    && (!s.waiter.Idle? ==> !s.waiter.timed && s.counter >= -1)
    && (!s.waiter.Idle? && s.counter == -1 ==> !signals && s.inFlight == 0 && !s.waiter.Awake?)
  }

  lemma StepKeepsCover(s: State, a: Action, signals: bool)
    requires Enabled(s, a) && !a.WaitFetchAdd? && (signals || !a.Interrupt?) && Covered(s, signals)
    ensures Covered(Step(s, a), signals)
  {}

  lemma {:induction false} SafeWaitStaysCovered(t: Run, r: Run, signals: bool)
    requires IsRun(r) && After(r).waiter.Idle? && AlwaysSolvent(r) && SafeToWait(After(r), signals)
    requires IsRun(t) && During(t, Then(r, WaitFetchAdd(false)), signals)
    ensures Covered(After(t), signals) && AlwaysSolvent(t)
    decreases t
  {
    if t != Then(r, WaitFetchAdd(false)) {
      SafeWaitStaysCovered(t.before, r, signals);
      StepKeepsCover(After(t.before), t.last, signals);
    }
  }

  /** The continuation that shows an unsafe wait: it is ended by a FUTEX_WAKE for an earlier wait, or by
      a signal. */
  function Ended(r: Run, a: Action): Run {
    Then(Then(Then(Then(r, WaitFetchAdd(false)), FutexWait), a), Finish)
  }

  lemma EarlyEnd(r: Run, a: Action)
    requires IsRun(r) && After(r).waiter.Idle? && After(r).counter == 0
    requires a == Interrupt || (a == FutexWake && After(r).inFlight > 0)
    ensures IsRun(Ended(r, a)) && !AlwaysSolvent(Ended(r, a)) && Overdrawn(Ended(r, a))
    ensures During(Ended(r, a), Then(r, WaitFetchAdd(false)), a == Interrupt)
  {
    var s := After(r);
    var w, p, q, e: Run;
    w := Extend(r, s, WaitFetchAdd(false));
    p := Extend(w, After(w), FutexWait);
    q := Extend(p, After(p), a);
    e := Extend(q, After(q), Finish);
    assert Overdraws(After(q), Finish);
    assert During(p, w, a == Interrupt);
    assert During(q, w, a == Interrupt);
  }

  /** An untimed wait of an idle waiter is safe, in whatever way it and the wakers go on, exactly if the counter
      is positive when it begins, or no FUTEX_WAKE is still under way and no signal can interrupt it. */
  lemma {:induction false} UntimedWaitIsSafeExactly(r: Run, signals: bool)
    requires IsRun(r) && After(r).waiter.Idle? && AlwaysSolvent(r)
    ensures UntimedWaitIsSafe(r, signals) <==> SafeToWait(After(r), signals)
  {
    if SafeToWait(After(r), signals) {
      forall t | IsRun(t) && During(t, Then(r, WaitFetchAdd(false)), signals) ensures AlwaysSolvent(t) {
        SafeWaitStaysCovered(t, r, signals);
      }
    } else {
      assert After(r).counter == 0;
      var a := if signals then Interrupt else FutexWake;
      EarlyEnd(r, a);
      assert IsRun(Ended(r, a)) && During(Ended(r, a), Then(r, WaitFetchAdd(false)), signals);
    }
  }

  /** No signal arrives, and every untimed wait that finds the counter at 0 begins with no FUTEX_WAKE under way. */
  predicate Careful(r: Run)
    requires IsRun(r)
  {
    r.Then? ==>
      && Careful(r.before) && !r.last.Interrupt?
      && (r.last == WaitFetchAdd(false) ==> SafeToWait(After(r.before), false))
  }

  lemma {:induction false} CarefulInvariant(r: Run)
    requires IsRun(r) && Careful(r)
    ensures AlwaysSolvent(r)
    ensures var s := After(r); !s.waiter.Idle? ==>
      s.counter >= -1 && (!s.waiter.timed && s.counter == -1 ==> s.inFlight == 0 && !s.waiter.Awake?)
  {
    if r.Then? { CarefulInvariant(r.before); }
  }

  /** A run may mix both kinds of waits: if every untimed one is begun safely, tokens are conserved throughout, and
      whenever the waiter is idle the counter is the number of wake-ups less the waits that completed
      without a reset. */
  lemma CarefulWaitsConserveTokens(r: Run, s: State)
    requires IsRun(r) && Careful(r) && s == After(r)
    ensures AlwaysSolvent(r)
    ensures s.waiter.Idle? ==> s.counter == s.wakes - (s.completed - s.resets) >= 0
  {
    CarefulInvariant(r);
    Accounting(r);
    if s.waiter.Idle? { IdleBalance(s); }
  }

  predicate OnlyTimed(r: Run) {
    r.Then? ==> OnlyTimed(r.before) && (r.last.WaitFetchAdd? ==> r.last.timed)
  }

  predicate TimedOrIdle(s: State) {
    s.waiter.Idle? || s.waiter.timed
  }

  lemma TimedStep(s: State, a: Action)
    requires Enabled(s, a) && TimedOrIdle(s) && (a.WaitFetchAdd? ==> a.timed)
    ensures TimedOrIdle(Step(s, a)) && !Overdraws(s, a)
  {}

  lemma {:induction false} TimedWaiter(r: Run)
    requires IsRun(r) && OnlyTimed(r)
    ensures TimedOrIdle(After(r)) && !Overdrawn(r)
  {
    hide Step, Overdraws;
    if r.Then? {
      TimedWaiter(r.before);
      TimedStep(After(r.before), r.last);
    }
  }

  lemma IdleBalance(s: State)
    requires Balanced(s) && s.waiter.Idle?
    ensures s.counter == s.wakes - (s.completed - s.resets)
  {}

  /** With timed waits only the counter is never negative while the waiter is idle. */
  lemma TimedWaitsStaySolvent(r: Run)
    requires IsRun(r) && OnlyTimed(r)
    ensures AlwaysSolvent(r)
  {
    assert !Overdrawn(r) by { TimedWaiter(r); }
    ConservedIffNotOverdrawn(r);
  }

  /** With timed waits only, tokens are conserved: whenever the waiter is idle the counter is not
      negative and is the number of wake-ups less the waits that completed without a reset. */
  lemma TimedWaitsConserveTokens(r: Run, s: State)
    requires IsRun(r) && OnlyTimed(r) && s == After(r) && s.waiter.Idle?
    ensures s.counter == s.wakes - (s.completed - s.resets) >= 0
  {
    assert AlwaysSolvent(r) by { TimedWaitsStaySolvent(r); }
    assert Balanced(s) by { Accounting(r); }
    IdleBalance(s);
  }

  /** Without a timeout tokens are not conserved: the FUTEX_WAKE of the second of two wake-ups
      arrives after both have been taken and ends a third wait, which took nothing. */
  lemma UntimedWaitCanEndEarly() returns (r: Run)
    ensures IsRun(r) && After(r) == State(-1, Idle, 0, 2, 3, 3, 0)
  {
    r := Start;
    assert IsRun(r) && After(r) == INITIAL;
    hide IsRun, After;
    r := Extend(r, State(0, Idle, 0, 0, 0, 0, 0), WakeFetchAdd);
    r := Extend(r, State(1, Idle, 0, 1, 0, 0, 0), WakeFetchAdd);
    r := Extend(r, State(2, Idle, 1, 2, 0, 0, 0), WaitFetchAdd(false));
    r := Extend(r, State(1, Idle, 1, 2, 1, 1, 0), WaitFetchAdd(false));
    r := Extend(r, State(0, Idle, 1, 2, 2, 2, 0), WaitFetchAdd(false));
    r := Extend(r, State(-1, Entered(false), 1, 2, 3, 2, 0), FutexWait);
    r := Extend(r, State(-1, Parked(false), 1, 2, 3, 2, 0), FutexWake);
    r := Extend(r, State(-1, Awake(false), 0, 2, 3, 2, 0), Finish);
  }
}
