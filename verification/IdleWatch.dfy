/** The shared idle watch: consumers declare demand, one poller samples while there is any, and a
    one-permit doorbell wakes it. Every step below is one atomic action of one task. */
module IdleWatch {
  import opened Text

  datatype Want = Queues | Updates

  function Bit(who: Want): bv8 {
    match who
    case Queues => 1
    case Updates => 2
  }

  /** Where the poll loop is between two of its atomic actions. */
  datatype Poller =
    | Check                          // about to load the mask
    | Park                           // saw no demand, about to publish `None`
    | Await                          // about to ask the doorbell
    | Parked                         // registered with the doorbell
    | Sample                         // about to probe
    | Mark(answer: Option<nat>)      // about to record that the host can answer
    | Publish(answer: Option<nat>)   // about to send the reading
    | Sleep

  /** `ringing` counts consumers between their `fetch_or` and their `notify_one`. `taken` counts probes
      and `shown` is the number of the last probe whose answer was published; both are history. */
  datatype State = State(
    mask: bv8, permit: bool, ringing: nat,
    poller: Poller, reading: Option<nat>, supported: bool,
    taken: nat, shown: nat)

  /** `want` up to its doorbell, the doorbell, and the poller's next action given what a probe would answer. */
  datatype Action = Declare(who: Want, wanted: bool) | Ring | Poll(answer: Option<nat>)

  /** After the first probe, before the poller's first turn. */
  function Initial(first: Option<nat>): State {
    State(0, false, 0, Check, first, first.Some?, 1, 1)
  }

  function Declared(s: State, who: Want, wanted: bool): State {
    var mask := if wanted then s.mask | Bit(who) else s.mask & !Bit(who);
    s.(mask := mask, ringing := if wanted && s.mask == 0 then s.ringing + 1 else s.ringing)
  }

  /** `notify_one`: wake the registered waiter, or leave a permit; permits do not add up. */
  function Rung(s: State): State
    requires s.ringing > 0
  {
    if s.poller.Parked? then s.(ringing := s.ringing - 1, poller := Check)
    else s.(ringing := s.ringing - 1, permit := true)
  }

  function Polled(s: State, answer: Option<nat>): State
    requires !s.poller.Parked?
  {
    match s.poller
    case Check => s.(poller := if s.mask == 0 then Park else Sample)
    case Park => s.(reading := None, poller := Await)
    case Await => if s.permit then s.(permit := false, poller := Check) else s.(poller := Parked)
    case Sample => s.(taken := s.taken + 1, poller := Mark(answer))
    case Mark(x) => s.(supported := s.supported || x.Some?, poller := Publish(x))
    case Publish(x) => s.(reading := x, shown := s.taken, poller := Sleep)
    case Sleep => s.(poller := Check)
  }

  predicate Enabled(s: State, a: Action) {
    match a
    case Declare(_, _) => true
    case Ring => s.ringing > 0
    case Poll(_) => !s.poller.Parked?
  }

  function Step(s: State, a: Action): State
    requires Enabled(s, a)
  {
    match a
    case Declare(who, wanted) => Declared(s, who, wanted)
    case Ring => Rung(s)
    case Poll(answer) => Polled(s, answer)
  }

  /** An interleaving that can happen from `s`. */
  predicate Possible(s: State, run: seq<Action>)
    decreases |run|
  {
    run != [] ==> Enabled(s, run[0]) && Possible(Step(s, run[0]), run[1..])
  }

  function After(s: State, run: seq<Action>): State
    requires Possible(s, run)
    decreases |run|
  {
    if run == [] then s else After(Step(s, run[0]), run[1..])
  }

  // ---------------------------------------------------------------------------
  // Shared state as it is changed

  /** The shared fields and the poller's position, changed in place. */
  class Watch {
    var mask: bv8
    var permit: bool
    var ringing: nat
    var poller: Poller
    var reading: Option<nat>
    var supported: bool
    ghost var taken: nat
    ghost var shown: nat

    ghost function View(): State
      reads this
    {
      State(mask, permit, ringing, poller, reading, supported, taken, shown)
    }

    constructor (first: Option<nat>)
      ensures View() == Initial(first)
    {
      mask, permit, ringing, poller := 0, false, 0, Check;
      reading, supported := first, first.Some?;
      taken, shown := 1, 1;
    }

    /** `want`, up to the point where it may have to ring. */
    method WantReadings(who: Want, wanted: bool)
      modifies this
      ensures View() == Step(old(View()), Declare(who, wanted))
    {
      var before := mask;
      if wanted { mask := mask | Bit(who); } else { mask := mask & !Bit(who); }
      if wanted && before == 0 {
        ringing := ringing + 1;
      }
    }

    method NotifyOne()
      requires ringing > 0
      modifies this
      ensures View() == Step(old(View()), Ring)
    {
      ringing := ringing - 1;
      if poller.Parked? { poller := Check; } else { permit := true; }
    }

    /** One turn of the poll loop. */
    method Turn(answer: Option<nat>)
      requires !poller.Parked?
      modifies this
      ensures View() == Step(old(View()), Poll(answer))
    {
      match poller {
        case Check => if mask == 0 { poller := Park; } else { poller := Sample; }
        case Park => reading := None; poller := Await;
        case Await => if permit { permit := false; poller := Check; } else { poller := Parked; }
        case Sample => taken := taken + 1; poller := Mark(answer);
        case Mark(x) => supported := supported || x.Some?; poller := Publish(x);
        case Publish(x) => reading := x; shown := taken; poller := Sleep;
        case Sleep => poller := Check;
      }
    }
  }

  // ---------------------------------------------------------------------------
  // Every interleaving

  predicate Wants(s: State, who: Want) {
    s.mask & Bit(who) != 0
  }

  predicate Waiting(s: State) {
    s.poller.Await? || s.poller.Parked?
  }

  /** No lost wakeup: with demand, a poller on its way to sleep or asleep has a permit or a ring coming. */
  predicate Wakeable(s: State) {
    (s.poller.Park? || Waiting(s)) && s.mask != 0 ==> s.permit || s.ringing > 0
  }

  predicate Inv(s: State) {
    && s.mask & 0xFC == 0
    && Wakeable(s)
    && (s.poller.Parked? ==> !s.permit)
    && (Waiting(s) ==> s.reading.None?)
    && (s.reading.Some? ==> s.supported)
    && (s.poller.Publish? && s.poller.answer.Some? ==> s.supported)
    && s.shown <= s.taken
    && (!s.poller.Mark? && !s.poller.Publish? ==> s.shown == s.taken)
  }

  lemma InvStep(s: State, a: Action)
    requires Inv(s) && Enabled(s, a)
    ensures Inv(Step(s, a))
    ensures forall who :: Wants(Step(s, a), who) <==> if a.Declare? && a.who == who then a.wanted else Wants(s, who)
  {
    hide Bit;
    if a.Declare? { MaskChange(s.mask, a.who, a.wanted); }
  }

  /** What `fetch_or` and `fetch_and` do to the two bits. */
  lemma MaskChange(mask: bv8, who: Want, wanted: bool)
    requires mask & 0xFC == 0
    ensures var m := if wanted then mask | Bit(who) else mask & !Bit(who);
            && m & 0xFC == 0 && (wanted ==> m != 0) && (mask == 0 && !wanted ==> m == 0)
            && forall w :: (m & Bit(w) != 0) <==> if w == who then wanted else mask & Bit(w) != 0
  {
  }

  lemma {:induction false} InvRun(s: State, run: seq<Action>)
    requires Inv(s) && Possible(s, run)
    ensures Inv(After(s, run))
    decreases |run|
  {
    if run != [] {
      InvStep(s, run[0]);
      InvRun(Step(s, run[0]), run[1..]);
    }
  }

  /** What each consumer asked for last; nobody asks at first. */
  predicate LastDeclared(run: seq<Action>, who: Want) {
    if run == [] then false
    else
      var a := run[|run| - 1];
      if a.Declare? && a.who == who then a.wanted else LastDeclared(run[..|run| - 1], who)
  }

  lemma {:induction false} AfterOneMore(s: State, run: seq<Action>, a: Action)
    requires Possible(s, run + [a])
    ensures Possible(s, run) && Enabled(After(s, run), a) && After(s, run + [a]) == Step(After(s, run), a)
    decreases |run|
  {
    if run == [] {
      assert run + [a] == [a] && [a][1..] == [];
    } else {
      assert (run + [a])[0] == run[0] && (run + [a])[1..] == run[1..] + [a];
      AfterOneMore(Step(s, run[0]), run[1..], a);
    }
  }

  /** The mask holds exactly the last word of every consumer, whatever the others and the poller did. */
  lemma {:induction false} MaskIsLastWord(first: Option<nat>, run: seq<Action>, who: Want)
    requires Possible(Initial(first), run)
    ensures Wants(After(Initial(first), run), who) <==> LastDeclared(run, who)
    decreases |run|
  {
    hide Wants;
    if run == [] {
      NobodyAtFirst(first, who);
    } else {
      var init, a := run[..|run| - 1], run[|run| - 1];
      assert run == init + [a];
      AfterOneMore(Initial(first), init, a);
      MaskIsLastWord(first, init, who);
      InvRun(Initial(first), init);
      InvStep(After(Initial(first), init), a);
    }
  }

  lemma NobodyAtFirst(first: Option<nat>, who: Want)
    ensures !Wants(Initial(first), who)
  {
  }

  /** What the watch promises in every state any interleaving of consumers and poller can reach. */
  lemma WatchSafety(first: Option<nat>, run: seq<Action>)
    requires Possible(Initial(first), run)
    ensures var s := After(Initial(first), run);
            && (s.poller.Parked? && s.mask != 0 ==> Enabled(s, Ring) && Step(s, Ring).poller.Check?)
            && Wakeable(s)
            && (Waiting(s) ==> s.reading == None)
            && (s.reading.Some? ==> s.supported)
            && (s.mask == 0 <==> !LastDeclared(run, Queues) && !LastDeclared(run, Updates))
  {
    InvRun(Initial(first), run);
    MaskIsLastWord(first, run, Queues);
    MaskIsLastWord(first, run, Updates);
    var s := After(Initial(first), run);
    MaskIsDemand(s.mask);
  }

  /** `idle_at_least`. */
  predicate IdleAtLeast(s: State, minutes: nat) {
    s.reading.Some? && s.reading.value >= minutes * 60
  }

  /** Idleness is only ever claimed on a reading: from a host that can answer, while somebody is being watched
      for, and never while the poller is parked; and longer idleness implies shorter. */
  lemma IdleNeedsAReading(first: Option<nat>, run: seq<Action>, minutes: nat, fewer: nat)
    requires Possible(Initial(first), run) && fewer <= minutes
    ensures var s := After(Initial(first), run);
            && (IdleAtLeast(s, minutes) ==> s.supported && !Waiting(s) && IdleAtLeast(s, fewer))
            && (IdleAtLeast(s, minutes) <==> s.reading.Some? && s.reading.value / 60 >= minutes)
  {
    InvRun(Initial(first), run);
  }

  lemma MaskIsDemand(mask: bv8)
    requires mask & 0xFC == 0
    ensures mask == 0 <==> mask & 1 == 0 && mask & 2 == 0
  {
  }

  // ---------------------------------------------------------------------------
  // Demand that stays gets a fresh sample

  function Polls(run: seq<Action>): nat {
    if run == [] then 0 else (if run[0].Poll? then 1 else 0) + Polls(run[1..])
  }

  /** Some consumer wants readings in every state along the run. */
  predicate DemandHeld(s: State, run: seq<Action>)
    requires Possible(s, run)
    decreases |run|
  {
    s.mask != 0 && (run != [] ==> DemandHeld(Step(s, run[0]), run[1..]))
  }

  /** Poller turns still needed until a probe taken after number `base` is on show. */
  function TurnsLeft(s: State, base: nat): nat {
    if s.shown > base then 0
    else match s.poller
      case Parked => 4
      case Check => 4
      case Sleep => 5
      case Await => 5
      case Park => 6
      case Sample => 3
      case Mark(_) => if s.taken > base then 2 else 7
      case Publish(_) => if s.taken > base then 1 else 6
  }

  lemma TurnsLeftStep(s: State, a: Action, base: nat)
    requires Inv(s) && Enabled(s, a) && s.mask != 0 && base <= s.taken
    ensures TurnsLeft(Step(s, a), base) <= TurnsLeft(s, base)
    ensures a.Poll? && s.shown <= base ==> TurnsLeft(Step(s, a), base) < TurnsLeft(s, base)
    ensures Step(s, a).shown >= s.shown && Step(s, a).taken >= s.taken
  {
  }

  lemma {:induction false} TurnsRunOut(s: State, run: seq<Action>, base: nat)
    requires Inv(s) && Possible(s, run) && DemandHeld(s, run) && base <= s.taken
    ensures After(s, run).shown > base || Polls(run) + TurnsLeft(After(s, run), base) <= TurnsLeft(s, base)
    ensures After(s, run).shown >= s.shown
    decreases |run|
  {
    if run != [] {
      TurnsLeftStep(s, run[0], base);
      InvStep(s, run[0]);
      TurnsRunOut(Step(s, run[0]), run[1..], base);
    }
  }

  /** The answers of the probes taken along a run, in order. */
  function Answers(s: State, run: seq<Action>): seq<Option<nat>>
    requires Possible(s, run)
    decreases |run|
  {
    if run == [] then []
    else
      (if run[0].Poll? && s.poller.Sample? then [run[0].answer] else []) + Answers(Step(s, run[0]), run[1..])
  }

  /** `answers` are those of the probes after number `base`; the last one is with the poller until it is shown,
      and once one of them is shown the reading is the one numbered `shown`. */
  predicate Tied(s: State, base: nat, answers: seq<Option<nat>>) {
    && s.taken == base + |answers|
    && ((s.poller.Mark? || s.poller.Publish?) && s.taken > base ==> s.poller.answer == answers[|answers| - 1])
    && s.shown <= s.taken
    && (s.shown > base ==>
          !s.poller.Park? && !Waiting(s) && s.reading == answers[s.shown - base - 1])
  }

  lemma TiedStep(s: State, a: Action, base: nat, answers: seq<Option<nat>>)
    requires Inv(s) && Enabled(s, a) && s.mask != 0 && Tied(s, base, answers)
    ensures Tied(Step(s, a), base, answers + if a.Poll? && s.poller.Sample? then [a.answer] else [])
  {
    assert answers + [] == answers;
  }

  lemma {:induction false} TiedRun(s: State, run: seq<Action>, base: nat, answers: seq<Option<nat>>)
    requires Inv(s) && Possible(s, run) && DemandHeld(s, run) && Tied(s, base, answers)
    ensures Tied(After(s, run), base, answers + Answers(s, run))
    decreases |run|
  {
    hide Inv, Tied;
    if run == [] {
      assert answers + [] == answers;
    } else {
      var more := if run[0].Poll? && s.poller.Sample? then [run[0].answer] else [];
      InvStep(s, run[0]);
      TiedStep(s, run[0], base, answers);
      TiedRun(Step(s, run[0]), run[1..], base, answers + more);
      assert answers + more + Answers(Step(s, run[0]), run[1..]) == answers + Answers(s, run);
    }
  }

  /** With demand held, seven turns of the poller publish the answer of a probe taken after the run began, the
      one numbered `shown`, however the consumers interleave; and the poller is never stuck once every ring has
      landed. */
  lemma DemandIsServed(first: Option<nat>, past: seq<Action>, run: seq<Action>)
    requires Possible(Initial(first), past)
    requires var s := After(Initial(first), past); Possible(s, run) && DemandHeld(s, run)
    ensures var s := After(Initial(first), past);
            var t := After(s, run);
            && (s.ringing == 0 ==> !s.poller.Parked?)
            && (Polls(run) >= 7 ==> t.shown > s.taken)
            && (t.shown > s.taken ==>
                  t.shown - s.taken <= |Answers(s, run)| && t.reading == Answers(s, run)[t.shown - s.taken - 1])
  {
    InvRun(Initial(first), past);
    var s := After(Initial(first), past);
    TurnsRunOut(s, run, s.taken);
    TiedRun(s, run, s.taken, []);
    assert [] + Answers(s, run) == Answers(s, run);
  }

  // ---------------------------------------------------------------------------
  // Rings, and silence

  function Rings(run: seq<Action>): nat {
    if run == [] then 0 else (if run[0].Ring? then 1 else 0) + Rings(run[1..])
  }

  /** How often demand came up where there was none. */
  function Rises(s: State, run: seq<Action>): nat
    requires Possible(s, run)
    decreases |run|
  {
    if run == [] then 0
    else (if s.mask == 0 && Step(s, run[0]).mask != 0 then 1 else 0) + Rises(Step(s, run[0]), run[1..])
  }

  /** The doorbell is rung, or is about to be, once for each time demand came up, and for nothing else. */
  lemma {:induction false} RingsAreRises(s: State, run: seq<Action>)
    requires Inv(s) && Possible(s, run)
    ensures After(s, run).ringing + Rings(run) == s.ringing + Rises(s, run)
    decreases |run|
  {
    hide Inv, Step;
    if run != [] {
      InvStep(s, run[0]);
      RingAtRise(s, run[0]);
      RingsAreRises(Step(s, run[0]), run[1..]);
    }
  }

  lemma RingAtRise(s: State, a: Action)
    requires Inv(s) && Enabled(s, a)
    ensures Step(s, a).ringing + (if a.Ring? then 1 else 0) ==
            s.ringing + (if s.mask == 0 && Step(s, a).mask != 0 then 1 else 0)
  {
    hide Bit;
    if a.Declare? { MaskChange(s.mask, a.who, a.wanted); }
  }

  /** Nobody wants readings in any state along the run. */
  predicate Silence(s: State, run: seq<Action>)
    requires Possible(s, run)
    decreases |run|
  {
    s.mask == 0 && (run != [] ==> Silence(Step(s, run[0]), run[1..]))
  }

  /** Poller turns left before it parks for good: a permit and a ring each cost it one more round. */
  function TurnsToPark(s: State): nat {
    (if s.permit then 3 else 0) + 3 * s.ringing +
    match s.poller
    case Parked => 0
    case Await => 1
    case Park => 2
    case Check => 3
    case Sleep => 4
    case Publish(_) => 5
    case Mark(_) => 6
    case Sample => 7
  }

  /** With nobody asking, the poller takes no probe but the one it was at, runs out of turns and parks, and a
      parked watch shows no reading. */
  lemma {:induction false} SilenceParks(s: State, run: seq<Action>)
    requires Inv(s) && Possible(s, run) && Silence(s, run)
    ensures var t := After(s, run);
            && Polls(run) <= TurnsToPark(s) - TurnsToPark(t)
            && |Answers(s, run)| <= (if s.poller.Sample? then 1 else 0)
            && (t.poller.Parked? || Enabled(t, Poll(None)))
            && (t.poller.Parked? ==> t.reading == None)
    decreases |run|
  {
    if run != [] {
      InvStep(s, run[0]);
      TurnsLost(s, run[0]);
      SilenceParks(Step(s, run[0]), run[1..]);
    }
  }

  lemma TurnsLost(s: State, a: Action)
    requires Inv(s) && Enabled(s, a) && s.mask == 0 && Step(s, a).mask == 0
    ensures TurnsToPark(Step(s, a)) + (if a.Poll? then 1 else 0) <= TurnsToPark(s)
    ensures Step(s, a).poller.Sample? ==> s.poller.Sample? && !a.Poll?
  {
    hide Bit;
    if a.Declare? { MaskChange(s.mask, a.who, a.wanted); }
  }

  /** Once the host has answered it counts as able to, whatever it answers later; and it only does if the first
      probe or a later one had an answer. */
  lemma {:induction false} SupportedStays(s: State, run: seq<Action>)
    requires Possible(s, run)
    ensures s.supported ==> After(s, run).supported
    ensures After(s, run).supported ==>
              s.supported || (s.poller.Mark? && s.poller.answer.Some?) || exists a :: a in Answers(s, run) && a.Some?
    decreases |run|
  {
    if run != [] {
      var t := Step(s, run[0]);
      SupportedStays(t, run[1..]);
      var rest := Answers(t, run[1..]);
      if a :| a in rest && a.Some? { assert a in Answers(s, run); }
      if t.poller.Mark? && t.poller.answer.Some? && s.poller.Sample? { assert t.poller.answer in Answers(s, run); }
    }
  }

  // ---------------------------------------------------------------------------
  // The Windows tick

  const HALF := 0x1_0000_0000

  /** Idle time from the 64-bit tick count and the low 32 bits of the tick of the last input. */
  function TickIdle(now: nat, low: nat): Option<nat>
    requires low < HALF
  {
    var high := now - now % HALF;
    if now % HALF >= low then Some(now - (high + low))
    else if high < HALF then None
    else Some(now - (high - HALF + low))
  }

  lemma HalvesDiffer(now: nat, last: nat) returns (k: nat)
    requires last <= now
    ensures now - last == k * HALF + (now % HALF - last % HALF) && k == now / HALF - last / HALF
  {
    assert now == now / HALF * HALF + now % HALF && last == last / HALF * HALF + last % HALF;
    k := now / HALF - last / HALF;
    assert k * HALF == now / HALF * HALF - last / HALF * HALF;
  }

  /** The reconstruction is exact precisely while the input is less than one wrap in the past. */
  lemma TickIdleExact(now: nat, last: nat)
    requires last <= now
    ensures TickIdle(now, last % HALF) == Some(now - last) <==> now - last < HALF
  {
    var k := HalvesDiffer(now, last);
    var low := last % HALF;
    if now % HALF >= low {
      assert TickIdle(now, low) == Some(now % HALF - low);
    } else if now >= HALF {
      assert TickIdle(now, low) == Some(now % HALF + HALF - low);
    }
  }
}
