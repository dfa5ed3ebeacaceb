/** The one-slot guard for delayed power actions: arming, cancelling, confirming and the grace tasks,
    each critical section one atomic step, in every interleaving. */
module PowerGuard {
  import opened Text

  datatype Power = ShutDown | Restart | Sleep | Hibernate

  /** The slot. `fire` says whether the confirm signal has not been handed out yet. */
  datatype Pending = Pending(number: nat, action: Power, fire: bool)

  /** A grace task: asleep, told to go on but not run since, awake and about to claim, past a successful claim,
      done executing, done without executing, or aborted in its sleep. */
  datatype Phase = Waiting | Signalled | Woken | Claimed | Ran | GaveUp | Aborted
  datatype Task = Task(action: Power, phase: Phase)

  /** `aborts` and `signals` are what cancel and confirm still have to deliver. `executed` and
      `cancelled` are history. Task numbers are their arm counters. */
  datatype State = State(
    disabled: bool, counter: nat, slot: Option<Pending>, tasks: map<nat, Task>,
    aborts: set<nat>, signals: set<nat>,
    executed: seq<(nat, Power)>, cancelled: set<nat>)

  function Initial(disabled: bool): State {
    State(disabled, 0, None, map[], {}, {}, [], {})
  }

  datatype Action =
    | Arm(action: Power)
    | CancelTakes            // cancel, under the lock
    | AbortLands(task: nat)  // cancel, after the lock
    | ConfirmTakes           // confirm, under the lock
    | SignalLands(task: nat) // confirm, after the lock
    | Wake(task: nat)        // the grace task runs on: the timer, the signal, or its sender being dropped
    | Claim(task: nat)       // the grace task, under the lock
    | Execute(task: nat)     // the grace task, after the lock

  predicate InPhase(s: State, n: nat, p: Phase) {
    n in s.tasks && s.tasks[n].phase == p
  }

  /** Still at its only await, where an abort can stop it. */
  predicate Asleep(s: State, n: nat) {
    InPhase(s, n, Waiting) || InPhase(s, n, Signalled)
  }

  function Move(s: State, n: nat, p: Phase): State
    requires n in s.tasks
  {
    s.(tasks := s.tasks[n := s.tasks[n].(phase := p)])
  }

  predicate Armable(s: State) {
    !s.disabled && s.slot.None?
  }

  predicate Enabled(s: State, a: Action) {
    match a
    case AbortLands(n) => n in s.aborts && n in s.tasks
    case SignalLands(n) => n in s.signals && n in s.tasks
    case Wake(n) => Asleep(s, n)
    case Claim(n) => InPhase(s, n, Woken)
    case Execute(n) => InPhase(s, n, Claimed)
    case _ => true
  }

  function Step(s: State, a: Action): State
    requires Enabled(s, a)
  {
    match a
    case Arm(action) =>
      if !Armable(s) then s
      else
        var n := s.counter + 1;
        s.(counter := n, slot := Some(Pending(n, action, true)), tasks := s.tasks[n := Task(action, Waiting)])
    case CancelTakes =>
      if s.slot.None? then s
      else
        var n := s.slot.value.number;
        s.(slot := None, aborts := s.aborts + {n}, cancelled := s.cancelled + {n})
    case AbortLands(n) =>
      // A task past its only await runs on to its end.
      var t := s.(aborts := s.aborts - {n});
      if Asleep(s, n) then Move(t, n, Aborted) else t
    case ConfirmTakes =>
      if s.slot.None? || !s.slot.value.fire then s
      else s.(slot := Some(s.slot.value.(fire := false)), signals := s.signals + {s.slot.value.number})
    case SignalLands(n) =>
      var t := s.(signals := s.signals - {n});
      if InPhase(s, n, Waiting) then Move(t, n, Signalled) else t
    case Wake(n) => Move(s, n, Woken)
    case Claim(n) =>
      if s.slot.Some? && s.slot.value.number == n then Move(s.(slot := None), n, Claimed) else Move(s, n, GaveUp)
    case Execute(n) => Move(s.(executed := s.executed + [(n, s.tasks[n].action)]), n, Ran)
  }

  predicate Possible(s: State, run: seq<Action>)
    decreases |run|
  {
    run != [] ==> Enabled(s, run[0]) && Possible(Step(s, run[0]), run[1..])
  }

  function After(s: State, run: seq<Action>): State
    requires Possible(s, run)
    decreases |run|
  {
    if run == [] then s else After(Step(s, run[0]), run[1..])
  }

  // ---------------------------------------------------------------------------
  // The guard's own critical sections

  class Guard {
    const disabled: bool
    var counter: nat
    var pending: Option<Pending>
    ghost var rest: State  // grace tasks and deliveries around the guard

    ghost function View(): State
      reads this
    {
      rest.(disabled := disabled, counter := counter, slot := pending)
    }

    constructor (disabled: bool)
      ensures View() == Initial(disabled)
    {
      this.disabled := disabled;
      counter, pending := 0, None;
      rest := Initial(disabled);
    }

    method Arm(action: Power) returns (armed: bool)
      modifies this
      ensures View() == Step(old(View()), Action.Arm(action))
      ensures armed <==> !disabled && old(pending).None?
      ensures if armed
              then pending == Some(Pending(old(counter) + 1, action, true)) && counter == old(counter) + 1
                   && InPhase(View(), counter, Waiting) && View().tasks[counter].action == action
              else pending == old(pending) && View().tasks == old(View()).tasks
    {
      if disabled { return false; }
      if pending.Some? { return false; }
      counter := counter + 1;
      rest := rest.(tasks := rest.tasks[counter := Task(action, Waiting)]);
      pending := Some(Pending(counter, action, true));
      armed := true;
    }

    /** The locked part of `cancel`; the grace task to abort, if there was one. */
    method Cancel() returns (abort: Option<nat>)
      modifies this
      ensures View() == Step(old(View()), CancelTakes)
      ensures pending.None?
      ensures abort.Some? ==> abort.value in View().cancelled && abort.value in View().aborts
      ensures abort == if old(pending).None? then None else Some(old(pending).value.number)
    {
      abort := None;
      if pending.Some? {
        var n := pending.value.number;
        abort := Some(n);
        pending := None;
        rest := rest.(aborts := rest.aborts + {n}, cancelled := rest.cancelled + {n});
      }
    }

    /** The locked part of `confirm`; the grace task to signal, if its signal was still there. */
    method Confirm() returns (fire: Option<nat>)
      modifies this
      ensures View() == Step(old(View()), ConfirmTakes)
      ensures fire.Some? ==> old(pending).Some? && pending == Some(old(pending).value.(fire := false))
      ensures fire.Some? ==> fire.value in View().signals
      ensures fire.None? ==> pending == old(pending)
      ensures fire == if old(pending).Some? && old(pending).value.fire then Some(old(pending).value.number) else None
    {
      fire := None;
      if pending.Some? && pending.value.fire {
        fire := Some(pending.value.number);
        pending := Some(pending.value.(fire := false));
        rest := rest.(signals := rest.signals + {fire.value});
      }
    }

    /** A woken grace task asking for its own arming. */
    method Claim(n: nat) returns (claimed: bool)
      requires InPhase(View(), n, Woken)
      modifies this
      ensures View() == Step(old(View()), Action.Claim(n))
      ensures claimed <==> old(pending).Some? && old(pending).value.number == n
      ensures if claimed then pending.None? && InPhase(View(), n, Claimed)
              else pending == old(pending) && InPhase(View(), n, GaveUp)
    {
      claimed := pending.Some? && pending.value.number == n;
      if claimed { pending := None; }
      rest := Move(rest, n, if claimed then Claimed else GaveUp);
    }
  }

  // ---------------------------------------------------------------------------
  // Every interleaving

  predicate Alive(s: State, n: nat) {
    Asleep(s, n) || InPhase(s, n, Woken)
  }

  /** Every arming has its task, and that grace task's phase says where the arming went. */
  ghost predicate Placed(s: State) {
    && (forall n :: n in s.tasks <==> 1 <= n <= s.counter)
    && (s.slot.Some? ==>
          var p := s.slot.value;
          Alive(s, p.number) && p.action == s.tasks[p.number].action && p.number !in s.cancelled)
    && s.aborts <= s.cancelled
    && (forall n :: n in s.cancelled ==> n in s.tasks)
    && (forall n :: n in s.tasks ==> Fate(s, n))
  }

  /** The log of executions has one entry for each task that ran. */
  ghost predicate Logged(s: State) {
    && (forall i :: 0 <= i < |s.executed| ==>
          InPhase(s, s.executed[i].0, Ran) && s.executed[i].1 == s.tasks[s.executed[i].0].action)
    && (forall i, j :: 0 <= i < j < |s.executed| ==> s.executed[i].0 != s.executed[j].0)
    && (forall n :: InPhase(s, n, Ran) ==> InLog(s.executed, n))
  }

  predicate InLog(log: seq<(nat, Power)>, n: nat) {
    exists i :: 0 <= i < |log| && log[i].0 == n
  }

  /** Each arming's signal is with the guard, on its way, or has reached a task that slept. */
  ghost predicate Told(s: State) {
    && (forall n :: n in s.signals ==> n in s.tasks && !InPhase(s, n, Signalled))
    && (s.slot.Some? ==>
          var p := s.slot.value;
          if p.fire then p.number !in s.signals && !InPhase(s, p.number, Signalled)
          else p.number in s.signals || !InPhase(s, p.number, Waiting))
  }

  ghost predicate Inv(s: State) {
    Placed(s) && Logged(s) && Told(s)
  }

  /** Where a task's phase leaves its arming: waiting in the slot, cancelled, or claimed. */
  predicate Fate(s: State, n: nat)
    requires n in s.tasks
  {
    match s.tasks[n].phase
    case Waiting => InSlot(s, n) || n in s.cancelled
    case Signalled => InSlot(s, n) || n in s.cancelled
    case Woken => InSlot(s, n) || n in s.cancelled
    case Claimed => n !in s.cancelled
    case Ran => n !in s.cancelled
    case GaveUp => n in s.cancelled
    case Aborted => n in s.cancelled
  }

  predicate InSlot(s: State, n: nat) {
    s.slot.Some? && s.slot.value.number == n
  }

  /** Only task `n` changes phase, and its new phase agrees with where its arming is. */
  lemma PlacedMove(s: State, t: State, n: nat, p: Phase)
    requires Placed(s) && n in s.tasks && t.tasks == Move(s, n, p).tasks
    requires t.counter == s.counter && t.slot == s.slot && t.cancelled == s.cancelled && t.aborts <= s.aborts
    requires Fate(t, n) && (InSlot(s, n) ==> Alive(t, n))
    ensures Placed(t)
  {
    forall m | m in t.tasks && m != n ensures Fate(t, m) { assert Fate(s, m); }
    assert forall m :: m in t.tasks ==> t.tasks[m].action == s.tasks[m].action;
  }

  /** No task changes phase. */
  lemma PlacedStays(s: State, t: State)
    requires Placed(s) && t.tasks == s.tasks
    requires t.counter == s.counter && t.cancelled == s.cancelled && t.aborts <= s.aborts
    requires s.slot.None? <==> t.slot.None?
    requires s.slot.Some? ==> t.slot.value.(fire := s.slot.value.fire) == s.slot.value
    ensures Placed(t)
  {
    forall m | m in t.tasks ensures Fate(t, m) { assert Fate(s, m); }
  }

  lemma PlacedArm(s: State, action: Power)
    requires Placed(s) && Armable(s)
    ensures Placed(Step(s, Arm(action)))
  {
    var t := Step(s, Arm(action));
    forall m | m in t.tasks ensures Fate(t, m) { if m in s.tasks { assert Fate(s, m); } }
  }

  lemma PlacedCancel(s: State)
    requires Placed(s) && s.slot.Some?
    ensures Placed(Step(s, CancelTakes))
  {
    var t := Step(s, CancelTakes);
    forall m | m in t.tasks ensures Fate(t, m) { assert Fate(s, m); }
  }

  lemma PlacedClaim(s: State, n: nat)
    requires Placed(s) && InPhase(s, n, Woken)
    ensures Placed(Step(s, Claim(n)))
  {
    var t := Step(s, Claim(n));
    assert Fate(s, n);
    if InSlot(s, n) {
      forall m | m in t.tasks && m != n ensures Fate(t, m) { assert Fate(s, m); }
    } else {
      PlacedMove(s, t, n, GaveUp);
    }
  }

  lemma PlacedStep(s: State, a: Action)
    requires Placed(s) && Enabled(s, a)
    ensures Placed(Step(s, a))
  {
    hide Placed;
    var t := Step(s, a);
    match a {
      case Arm(action) => if Armable(s) { PlacedArm(s, action); }
      case CancelTakes => if s.slot.Some? { PlacedCancel(s); }
      case ConfirmTakes => PlacedStays(s, t);
      case Claim(m) => PlacedClaim(s, m);
      case AbortLands(m) =>
        PlacedStays(s, s.(aborts := s.aborts - {m}));
        if Asleep(s, m) { PlacedAbort(s, m); }
      case SignalLands(m) =>
        PlacedStays(s, s.(signals := s.signals - {m}));
        if InPhase(s, m, Waiting) { PlacedWake(s, t, m, Signalled); }
      case Wake(m) => PlacedWake(s, t, m, Woken);
      case Execute(m) => PlacedRun(s, m);
    }
  }

  lemma PlacedAbort(s: State, n: nat)
    requires Placed(s) && Asleep(s, n) && n in s.aborts
    ensures Placed(Step(s, AbortLands(n)))
  {
    assert Fate(s, n);
    PlacedMove(s, Step(s, AbortLands(n)), n, Aborted);
  }

  lemma PlacedWake(s: State, t: State, n: nat, p: Phase)
    requires Placed(s) && Asleep(s, n) && (p == Signalled || p == Woken)
    requires t == Move(s, n, p).(signals := t.signals)
    ensures Placed(t)
  {
    assert Fate(s, n);
    PlacedMove(s, t, n, p);
  }

  lemma PlacedRun(s: State, n: nat)
    requires Placed(s) && InPhase(s, n, Claimed)
    ensures Placed(Step(s, Execute(n)))
  {
    assert Fate(s, n);
    PlacedMove(s, Step(s, Execute(n)), n, Ran);
  }

  lemma LoggedExecute(s: State, n: nat)
    requires Logged(s) && Enabled(s, Execute(n))
    ensures Logged(Step(s, Execute(n)))
  {
    var t := Step(s, Execute(n));
    assert t.executed[|s.executed|] == (n, s.tasks[n].action);
    forall m | InPhase(t, m, Ran) ensures InLog(t.executed, m) {
      if m != n {
        assert InPhase(s, m, Ran);
        var i :| 0 <= i < |s.executed| && s.executed[i].0 == m;
        assert t.executed[i].0 == m;
      }
    }
  }

  /** No other step touches a task that ran, or makes one run. */
  lemma RanStays(s: State, a: Action, m: nat)
    requires Placed(s) && Enabled(s, a) && !a.Execute?
    ensures var t := Step(s, a);
            && (InPhase(t, m, Ran) <==> InPhase(s, m, Ran))
            && (InPhase(s, m, Ran) ==> t.tasks[m].action == s.tasks[m].action)
            && t.executed == s.executed
  {
    hide Fate;
  }

  lemma LoggedStep(s: State, a: Action)
    requires Placed(s) && Logged(s) && Enabled(s, a)
    ensures Logged(Step(s, a))
  {
    if a.Execute? {
      LoggedExecute(s, a.task);
    } else {
      hide Step, Placed;
      forall m ensures RanStaysAt(s, Step(s, a), m) { RanStays(s, a, m); }
      RanStays(s, a, 0);
      LoggedSame(s, Step(s, a));
    }
  }

  predicate RanStaysAt(s: State, t: State, m: nat) {
    (InPhase(t, m, Ran) <==> InPhase(s, m, Ran)) && (InPhase(s, m, Ran) ==> t.tasks[m].action == s.tasks[m].action)
  }

  lemma LoggedSame(s: State, t: State)
    requires Logged(s) && t.executed == s.executed && forall m :: RanStaysAt(s, t, m)
    ensures Logged(t)
  {
    forall i | 0 <= i < |t.executed|
      ensures InPhase(t, t.executed[i].0, Ran) && t.executed[i].1 == t.tasks[t.executed[i].0].action
    {
      assert RanStaysAt(s, t, s.executed[i].0);
    }
    forall n | InPhase(t, n, Ran) ensures InLog(t.executed, n) { assert RanStaysAt(s, t, n); }
  }

  lemma ToldStep(s: State, a: Action)
    requires Placed(s) && Told(s) && Enabled(s, a)
    ensures Told(Step(s, a))
  {
    hide Fate;
  }

  lemma {:induction false} InvRun(s: State, run: seq<Action>)
    requires Inv(s) && Possible(s, run)
    ensures Inv(After(s, run))
    decreases |run|
  {
    if run != [] {
      PlacedStep(s, run[0]);
      LoggedStep(s, run[0]);
      ToldStep(s, run[0]);
      InvRun(Step(s, run[0]), run[1..]);
    }
  }

  lemma InitialInv(disabled: bool)
    ensures Inv(Initial(disabled))
  {
  }

  /** The numbers of the successful armings, of the executed ones, and of the one executing now. */
  ghost function Armed(s: State): set<nat> { s.tasks.Keys }

  ghost function Executed(s: State): set<nat> { set i | 0 <= i < |s.executed| :: s.executed[i].0 }

  ghost function Executing(s: State): set<nat> { set n | n in s.tasks && s.tasks[n].phase == Claimed }

  ghost function Slot(s: State): set<nat> { if s.slot.Some? then {s.slot.value.number} else {} }

  /** Every successful arming is in exactly one place: executed, being executed, cancelled, or in the
      slot. None executes twice, and each executes the action it was armed with. */
  lemma ArmingsArePartitioned(disabled: bool, run: seq<Action>)
    requires Possible(Initial(disabled), run)
    ensures var s := After(Initial(disabled), run);
            && Armed(s) == Executed(s) + Executing(s) + s.cancelled + Slot(s)
            && Executed(s) !! Executing(s) !! s.cancelled !! Slot(s)
            && |Executed(s)| == |s.executed|
            && forall i :: 0 <= i < |s.executed| ==>
                s.executed[i].0 in s.tasks && s.executed[i].1 == s.tasks[s.executed[i].0].action
  {
    InitialInv(disabled);
    InvRun(Initial(disabled), run);
    Partitioned(After(Initial(disabled), run));
  }

  lemma Partitioned(s: State)
    requires Inv(s)
    ensures Armed(s) == Executed(s) + Executing(s) + s.cancelled + Slot(s)
    ensures Executed(s) !! Executing(s) !! s.cancelled !! Slot(s)
    ensures |Executed(s)| == |s.executed|
  {
    var all, a, b, c, d := Armed(s), Executed(s), Executing(s), s.cancelled, Slot(s);
    forall n ensures Exclusive(n in all, n in a, n in b, n in c, n in d) { OnePlaceEach(s, n); }
    FourWays(all, a, b, c, d);
    DistinctCount(s.executed);
  }

  predicate Exclusive(any: bool, a: bool, b: bool, c: bool, d: bool) {
    && (any <==> a || b || c || d)
    && !(a && b) && !(a && c) && !(a && d) && !(b && c) && !(b && d) && !(c && d)
  }

  lemma FourWays(all: set<nat>, a: set<nat>, b: set<nat>, c: set<nat>, d: set<nat>)
    requires forall n :: Exclusive(n in all, n in a, n in b, n in c, n in d)
    ensures all == a + b + c + d && a !! b !! c !! d
  {
    forall n
      ensures (n in all <==> n in a + b + c + d) && !(n in a && n in b)
      ensures !(n in a + b && n in c) && !(n in a + b + c && n in d)
    {
      assert Exclusive(n in all, n in a, n in b, n in c, n in d);
    }
  }

  lemma OnePlaceEach(s: State, n: nat)
    requires Inv(s)
    ensures Exclusive(n in s.tasks.Keys, n in Executed(s), n in Executing(s), n in s.cancelled, n in Slot(s))
  {
    ExecutedRan(s, n);
    if n in s.tasks { assert Fate(s, n); }
  }

  lemma ExecutedRan(s: State, n: nat)
    requires Inv(s)
    ensures n in Executed(s) <==> InPhase(s, n, Ran)
  {
    if InPhase(s, n, Ran) { assert InLog(s.executed, n); }
  }

  lemma {:induction false} DistinctCount(es: seq<(nat, Power)>)
    requires forall i, j :: 0 <= i < j < |es| ==> es[i].0 != es[j].0
    ensures |set i | 0 <= i < |es| :: es[i].0| == |es|
  {
    if es != [] {
      var k := |es| - 1;
      var init := es[..k];
      DistinctCount(init);
      var small := set i | 0 <= i < |init| :: init[i].0;
      var all := set i | 0 <= i < |es| :: es[i].0;
      forall n | n in all ensures n in small + {es[k].0} {
        var i :| 0 <= i < |es| && es[i].0 == n;
        if i < k { assert init[i].0 == n; }
      }
      forall n | n in small ensures n in all && n != es[k].0 {
        var i :| 0 <= i < |init| && init[i].0 == n;
        assert es[i].0 == n;
      }
      assert all == small + {es[k].0};
    }
  }

  /** Once cancelled never executed, once executed never cancelled, whatever happens later. */
  lemma CancelIsFinal(disabled: bool, past: seq<Action>, run: seq<Action>, n: nat)
    requires Possible(Initial(disabled), past) && Possible(After(Initial(disabled), past), run)
    ensures var s, t := After(Initial(disabled), past), After(After(Initial(disabled), past), run);
            && (n in s.cancelled ==> n !in Executed(t) && n !in Executing(t))
            && (n in Executed(s) || n in Executing(s) ==> n !in t.cancelled)
  {
    InitialInv(disabled);
    InvRun(Initial(disabled), past);
    var s := After(Initial(disabled), past);
    InvRun(s, run);
    OneWay(s, run, n);
    OnePlaceEach(s, n);
    OnePlaceEach(After(s, run), n);
    ExecutedRan(s, n);
    ExecutedRan(After(s, run), n);
  }

  lemma {:induction false} OneWay(s: State, run: seq<Action>, n: nat)
    requires Placed(s) && Possible(s, run)
    ensures InPhase(s, n, Claimed) || InPhase(s, n, Ran) ==>
              InPhase(After(s, run), n, Claimed) || InPhase(After(s, run), n, Ran)
    ensures s.cancelled <= After(s, run).cancelled
    decreases |run|
  {
    if run != [] {
      PlacedStep(s, run[0]);
      var t := Step(s, run[0]);
      assert InPhase(s, n, Claimed) || InPhase(s, n, Ran) ==> InPhase(t, n, Claimed) || InPhase(t, n, Ran);
      OneWay(t, run[1..], n);
    }
  }

  /** A cancel stops everything armed before it that has not been claimed yet, whatever happens later: told
      without the history of cancels, by the phases of the tasks alone. */
  lemma CancelStops(disabled: bool, past: seq<Action>, later: seq<Action>, n: nat)
    requires Possible(Initial(disabled), past)
    requires Possible(Step(After(Initial(disabled), past), CancelTakes), later)
    ensures var s := After(Initial(disabled), past);
            var u := After(Step(s, CancelTakes), later);
            n in s.tasks && !InPhase(s, n, Claimed) && !InPhase(s, n, Ran) ==> n !in Executed(u) && n !in Executing(u)
    ensures Step(After(Initial(disabled), past), CancelTakes).slot.None?
  {
    InitialInv(disabled);
    InvRun(Initial(disabled), past);
    var s := After(Initial(disabled), past);
    var t := Step(s, CancelTakes);
    if n in s.tasks { assert Fate(s, n); }
    PlacedStep(s, CancelTakes);
    LoggedStep(s, CancelTakes);
    ToldStep(s, CancelTakes);
    InvRun(t, later);
    OneWay(t, later, n);
    OnePlaceEach(After(t, later), n);
  }

  /** The abort of a cancel ends a task that still sleeps. */
  lemma AbortEndsSleep(s: State, n: nat)
    requires Enabled(s, AbortLands(n))
    ensures var t := Step(s, AbortLands(n));
            if Asleep(s, n) then InPhase(t, n, Aborted) else t.tasks == s.tasks
  {
  }

  /** An arming that nobody disturbs executes its action, once, when its task wakes by the timer. */
  lemma UndisturbedExecutes(past: seq<Action>, action: Power)
    requires Possible(Initial(false), past) && After(Initial(false), past).slot.None?
    ensures var s := After(Initial(false), past);
            var n := s.counter + 1;
            var run := [Arm(action), Wake(n), Claim(n), Execute(n)];
            && Possible(s, run)
            && After(s, run).executed == s.executed + [(n, action)] && After(s, run).slot.None?
  {
    hide Step, Enabled, InPhase;
    DisabledNeverArms(Initial(false), past);
    var s := After(Initial(false), past);
    UndisturbedSteps(s, action);
    var n := s.counter + 1;
    var s1 := Step(s, Arm(action));
    var s2 := Step(s1, Wake(n));
    var s3 := Step(s2, Claim(n));
    Unfold(s3, Execute(n), []);
    Unfold(s2, Claim(n), [Execute(n)]);
    Unfold(s1, Wake(n), [Claim(n), Execute(n)]);
    Unfold(s, Arm(action), [Wake(n), Claim(n), Execute(n)]);
  }

  lemma UndisturbedSteps(s: State, action: Power)
    requires !s.disabled && s.slot.None?
    ensures var n := s.counter + 1;
            var s1 := Step(s, Arm(action));
            var s2 := Step(s1, Wake(n));
            var s3 := Step(s2, Claim(n));
            var s4 := Step(s3, Execute(n));
            && Enabled(s, Arm(action)) && Enabled(s1, Wake(n)) && Enabled(s2, Claim(n)) && Enabled(s3, Execute(n))
            && s4.executed == s.executed + [(n, action)] && s4.slot.None?
  {
  }

  /** And so does one that is confirmed, without waiting for the timer. */
  lemma ConfirmedExecutes(past: seq<Action>, action: Power)
    requires Possible(Initial(false), past) && After(Initial(false), past).slot.None?
    ensures var s := After(Initial(false), past);
            var n := s.counter + 1;
            var run := [Arm(action), ConfirmTakes, SignalLands(n), Wake(n), Claim(n), Execute(n)];
            var begun := [Arm(action), ConfirmTakes];
            && Possible(s, run) && Possible(s, begun) && SignalTaken(After(s, begun), n)
            && After(s, run).executed == s.executed + [(n, action)] && After(s, run).slot.None?
  {
    hide Step, Enabled, InPhase;
    DisabledNeverArms(Initial(false), past);
    var s := After(Initial(false), past);
    ConfirmedSteps(s, action);
    var n := s.counter + 1;
    var s1 := Step(s, Arm(action));
    var s2 := Step(s1, ConfirmTakes);
    var s3 := Step(s2, SignalLands(n));
    var s4 := Step(s3, Wake(n));
    var s5 := Step(s4, Claim(n));
    Unfold(s1, ConfirmTakes, []);
    Unfold(s, Arm(action), [ConfirmTakes]);
    Unfold(s5, Execute(n), []);
    Unfold(s4, Claim(n), [Execute(n)]);
    Unfold(s3, Wake(n), [Claim(n), Execute(n)]);
    Unfold(s2, SignalLands(n), [Wake(n), Claim(n), Execute(n)]);
    Unfold(s1, ConfirmTakes, [SignalLands(n), Wake(n), Claim(n), Execute(n)]);
    Unfold(s, Arm(action), [ConfirmTakes, SignalLands(n), Wake(n), Claim(n), Execute(n)]);
  }

  lemma ConfirmedSteps(s: State, action: Power)
    requires !s.disabled && s.slot.None?
    ensures var n := s.counter + 1;
            var s1 := Step(s, Arm(action));
            var s2 := Step(s1, ConfirmTakes);
            var s3 := Step(s2, SignalLands(n));
            var s4 := Step(s3, Wake(n));
            var s5 := Step(s4, Claim(n));
            var s6 := Step(s5, Execute(n));
            && Enabled(s, Arm(action)) && Enabled(s1, ConfirmTakes) && Enabled(s2, SignalLands(n))
            && Enabled(s3, Wake(n)) && Enabled(s4, Claim(n)) && Enabled(s5, Execute(n))
            && SignalTaken(s2, n) && s6.executed == s.executed + [(n, action)] && s6.slot.None?
  {
  }

  predicate Awake(s: State, n: nat) {
    n in s.tasks && !Asleep(s, n) && !InPhase(s, n, Aborted)
  }

  /** What sending the signal reports: whether the receiver was still there. The grace task has not run by then. */
  predicate SignalTaken(s: State, n: nat) {
    InPhase(s, n, Waiting)
  }

  /** The signal of an arming reaches its task, or can no longer matter to it. */
  predicate Reached(s: State, n: nat) {
    n in s.tasks && !InPhase(s, n, Waiting)
  }

  lemma {:induction false} ReachedStays(s: State, run: seq<Action>, n: nat)
    requires Placed(s) && Possible(s, run) && Reached(s, n)
    ensures Reached(After(s, run), n)
    decreases |run|
  {
    if run != [] {
      PlacedStep(s, run[0]);
      assert Reached(Step(s, run[0]), n);
      ReachedStays(Step(s, run[0]), run[1..], n);
    }
  }

  /** A confirm whose signal is taken answers yes: its task never waits for the timer again, and it ends without
      executing only if its arming was cancelled. One whose signal is not taken answers no and has changed no
      task: its task had run on by itself, or its arming was cancelled. */
  lemma ConfirmAnswers(disabled: bool, past: seq<Action>, n: nat, later: seq<Action>)
    requires Possible(Initial(disabled), past) && Enabled(After(Initial(disabled), past), SignalLands(n))
    requires Possible(Step(After(Initial(disabled), past), SignalLands(n)), later)
    ensures var s := After(Initial(disabled), past);
            var t := Step(s, SignalLands(n));
            var u := After(t, later);
            if SignalTaken(s, n)
            then Reached(u, n) && (InPhase(u, n, GaveUp) || InPhase(u, n, Aborted) ==> n in u.cancelled)
            else t.tasks == s.tasks && (Awake(s, n) || n in s.cancelled)
  {
    InitialInv(disabled);
    InvRun(Initial(disabled), past);
    var s := After(Initial(disabled), past);
    assert Fate(s, n);
    var t := Step(s, SignalLands(n));
    PlacedStep(s, SignalLands(n));
    LoggedStep(s, SignalLands(n));
    ToldStep(s, SignalLands(n));
    if SignalTaken(s, n) {
      ReachedStays(t, later, n);
      InvRun(t, later);
      assert Fate(After(t, later), n);
    }
  }

  /** A confirm that finds no signal to hand out answers no and changes nothing: there is no arming, or an
      earlier confirm's signal is on its way, or its grace task no longer waits for one. */
  lemma ConfirmFindsNoSignal(disabled: bool, past: seq<Action>)
    requires Possible(Initial(disabled), past)
    ensures var s := After(Initial(disabled), past);
            s.slot.None? || !s.slot.value.fire ==>
              Step(s, ConfirmTakes) == s &&
              (s.slot.Some? ==> s.slot.value.number in s.signals || Reached(s, s.slot.value.number))
  {
    InitialInv(disabled);
    InvRun(Initial(disabled), past);
  }

  /** Yes is not a promise: a cancel whose abort arrives before the grace task runs on still stops it. */
  lemma YesCanStillBeCancelled(action: Power)
    ensures var run := [Arm(action), ConfirmTakes, SignalLands(1), CancelTakes, AbortLands(1)];
            && Possible(Initial(false), run)
            && SignalTaken(After(Initial(false), [Arm(action), ConfirmTakes]), 1)
            && InPhase(After(Initial(false), run), 1, Aborted)
  {
    var s0 := Initial(false);
    var s1 := Step(s0, Arm(action));
    var s2 := Step(s1, ConfirmTakes);
    var s3 := Step(s2, SignalLands(1));
    var s4 := Step(s3, CancelTakes);
    var s5 := Step(s4, AbortLands(1));
    Unfold(s0, Arm(action), [ConfirmTakes]);
    Unfold(s1, ConfirmTakes, []);
    Unfold(s4, AbortLands(1), []);
    Unfold(s3, CancelTakes, [AbortLands(1)]);
    Unfold(s2, SignalLands(1), [CancelTakes, AbortLands(1)]);
    Unfold(s1, ConfirmTakes, [SignalLands(1), CancelTakes, AbortLands(1)]);
    Unfold(s0, Arm(action), [ConfirmTakes, SignalLands(1), CancelTakes, AbortLands(1)]);
  }

  lemma Unfold(s: State, a: Action, run: seq<Action>)
    requires Enabled(s, a) && Possible(Step(s, a), run)
    ensures Possible(s, [a] + run) && After(s, [a] + run) == After(Step(s, a), run)
  {
    assert ([a] + run)[1..] == run;
  }

  /** A task that wakes late only ever takes its own arming: a claim that succeeds takes the arming of
      that task, a claim that fails leaves the slot alone, and then its own arming was cancelled. */
  lemma ClaimTakesItsOwn(disabled: bool, past: seq<Action>, n: nat)
    requires Possible(Initial(disabled), past) && Enabled(After(Initial(disabled), past), Claim(n))
    ensures var s := After(Initial(disabled), past);
            var t := Step(s, Claim(n));
            if InSlot(s, n) then t.slot == None && InPhase(t, n, Claimed) else t.slot == s.slot && n in s.cancelled
  {
    InitialInv(disabled);
    InvRun(Initial(disabled), past);
    assert Fate(After(Initial(disabled), past), n);
  }

  /** An occupied slot has its task asleep or awake behind it, and no abort on the way to that task; when
      every task has come to its end the slot is free and every arming was executed or cancelled. */
  lemma SlotIsBacked(disabled: bool, run: seq<Action>)
    requires Possible(Initial(disabled), run)
    ensures var s := After(Initial(disabled), run);
            && (s.slot.Some? ==> Alive(s, s.slot.value.number) && s.slot.value.number !in s.aborts)
            && (forall n :: n in s.aborts ==> !InPhase(s, n, Claimed) && !InPhase(s, n, Ran))
            && ((forall n :: n in s.tasks ==> !Alive(s, n) && !InPhase(s, n, Claimed)) ==>
                  s.slot.None? && Armed(s) == Executed(s) + s.cancelled)
            && (s.disabled ==> Armed(s) == {})
  {
    InitialInv(disabled);
    InvRun(Initial(disabled), run);
    Partitioned(After(Initial(disabled), run));
    DisabledNeverArms(Initial(disabled), run);
    var s := After(Initial(disabled), run);
    forall n | n in s.aborts ensures !InPhase(s, n, Claimed) && !InPhase(s, n, Ran) { assert Fate(s, n); }
  }

  lemma {:induction false} DisabledNeverArms(s: State, run: seq<Action>)
    requires Possible(s, run)
    ensures After(s, run).disabled == s.disabled
    ensures s.disabled ==> After(s, run).tasks.Keys == s.tasks.Keys
    decreases |run|
  {
    if run != [] {
      DisabledNeverArms(Step(s, run[0]), run[1..]);
    }
  }
}
