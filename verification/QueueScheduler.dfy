/** The scheduler's tick: edges of the start verdict start a queue, and a queue that may not continue is
    stopped. */
module QueueScheduler {
  import opened Text
  import opened Schedule

  datatype Queue = Queue(id: nat, schedule: QueueSchedule)

  /** What one tick sees besides the queues: the clock, the host's conditions, the probe answers (a
      command verdict for each queue that has one), and the queues running at that point. */
  datatype Moment = Moment(now: int, available: set<CondKind>, probes: Probes, commands: map<nat, bool>,
      running: set<nat>)

  datatype Event = Start(id: nat) | Stop(id: nat)

  predicate IsQueues(qs: seq<Queue>) {
    (forall q :: q in qs ==> IsSchedule(q.schedule)) && forall i, j :: 0 <= i < j < |qs| ==> qs[i].id != qs[j].id
  }

  function ProbesFor(q: Queue, m: Moment): Probes {
    m.probes.(command := if q.id in m.commands then Some(m.commands[q.id]) else None)
  }

  predicate Should(q: Queue, m: Moment)
    requires IsSchedule(q.schedule)
  {
    ShouldRun(q.schedule, m.now, m.available, ProbesFor(q, m))
  }

  predicate May(q: Queue, m: Moment)
    requires IsSchedule(q.schedule)
  {
    MayContinue(q.schedule, m.now, m.available, ProbesFor(q, m))
  }

  /** Started by an arriving download, and so unknown to the tick's own memory. */
  predicate ByTrigger(q: Queue, m: Moment) {
    q.schedule.Condition? && q.schedule.conds.onJobAdded && q.id in m.running
  }

  /** What the tick does about one queue, given whether it was active at the previous tick. */
  function Decision(q: Queue, m: Moment, prev: bool): seq<Event>
    requires IsSchedule(q.schedule)
  {
    if Should(q, m) && !prev then [Start(q.id)]
    else if !May(q, m) && (prev || ByTrigger(q, m)) then [Stop(q.id)]
    else []
  }

  function Remembered(last: map<nat, bool>, id: nat): bool {
    id in last && last[id]
  }

  function Decisions(qs: seq<Queue>, m: Moment, last: map<nat, bool>): seq<Event>
    requires forall q :: q in qs ==> IsSchedule(q.schedule)
  {
    if qs == [] then []
    else Decisions(qs[..|qs| - 1], m, last) + Decision(qs[|qs| - 1], m, Remembered(last, qs[|qs| - 1].id))
  }

  lemma DecisionsStep(qs: seq<Queue>, i: nat, m: Moment, last: map<nat, bool>)
    requires IsQueues(qs) && i < |qs|
    ensures forall q :: q in qs[..i + 1] ==> q in qs
    ensures Decisions(qs[..i + 1], m, last) ==
              Decisions(qs[..i], m, last) + Decision(qs[i], m, Remembered(last, qs[i].id))
  {
    assert qs[..i + 1][..i] == qs[..i] && qs[..i + 1][i] == qs[i];
  }

  lemma NoDecisions(m: Moment, last: map<nat, bool>)
    ensures Decisions([], m, last) == []
  {
  }

  class Scheduler {
    var lastActive: map<nat, bool>

    constructor ()
      ensures lastActive == map[]
    {
      lastActive := map[];
    }

    /** One turn of the loop. */
    method Tick(qs: seq<Queue>, m: Moment) returns (events: seq<Event>)
      requires IsQueues(qs)
      modifies this
      ensures events == Decisions(qs, m, old(lastActive))
      ensures lastActive.Keys == set i | 0 <= i < |qs| :: qs[i].id
      ensures forall i :: 0 <= i < |qs| ==> lastActive[qs[i].id] == Should(qs[i], m)
    {
      hide Should, May, ByTrigger, Decisions, IsSchedule;
      events := [];
      NoDecisions(m, lastActive);
      ghost var before := lastActive;
      for i := 0 to |qs|
        invariant (forall q :: q in qs[..i] ==> q in qs) && events == Decisions(qs[..i], m, before)
        invariant forall j :: 0 <= j < i ==> qs[j].id in lastActive && lastActive[qs[j].id] == Should(qs[j], m)
        invariant forall j :: i <= j < |qs| ==> Remembered(lastActive, qs[j].id) == Remembered(before, qs[j].id)
      {
        var q := qs[i];
        DecisionsStep(qs, i, m, before);
        var active := Should(q, m);
        var prev := Remembered(lastActive, q.id);
        if active && !prev {
          events := events + [Start(q.id)];
        } else if !May(q, m) {
          if prev || ByTrigger(q, m) {
            events := events + [Stop(q.id)];
          }
        }
        lastActive := lastActive[q.id := active];
      }
      assert qs[..|qs|] == qs;
      var live := set i | 0 <= i < |qs| :: qs[i].id;
      lastActive := map k | k in live && k in lastActive :: lastActive[k];
    }
  }

  // ---------------------------------------------------------------------------
  // One queue over many ticks

  datatype Tick = Tick(queues: seq<Queue>, moment: Moment)

  predicate IsRun(run: seq<Tick>) {
    forall t :: t in run ==> IsQueues(t.queues)
  }

  /** The scheduler's memory after `k` ticks. */
  function Memory(run: seq<Tick>, k: nat): map<nat, bool>
    requires IsRun(run) && k <= |run|
  {
    if k == 0 then map[]
    else
      var t := run[k - 1];
      map i | 0 <= i < |t.queues| :: t.queues[i].id := Should(t.queues[i], t.moment)
  }

  /** All events of tick `k`. */
  function EventsAt(run: seq<Tick>, k: nat): seq<Event>
    requires IsRun(run) && k < |run|
  {
    Decisions(run[k].queues, run[k].moment, Memory(run, k))
  }

  /** Driving the scheduler through a run of ticks. */
  method Drive(run: seq<Tick>) returns (log: seq<seq<Event>>)
    requires IsRun(run)
    ensures |log| == |run| && forall k :: 0 <= k < |run| ==> log[k] == EventsAt(run, k)
  {
    hide Should, Decisions;
    var s := new Scheduler();
    log := [];
    for k := 0 to |run|
      invariant |log| == k && forall j :: 0 <= j < k ==> log[j] == EventsAt(run, j)
      invariant fresh(s) && s.lastActive == Memory(run, k)
    {
      var t := run[k];
      var events := s.Tick(t.queues, t.moment);
      log := log + [events];
      MemoryIs(run, k + 1, s.lastActive);
    }
  }

  lemma MemoryIs(run: seq<Tick>, k: nat, m: map<nat, bool>)
    requires IsRun(run) && 0 < k <= |run|
    requires var t := run[k - 1];
             m.Keys == (set i | 0 <= i < |t.queues| :: t.queues[i].id) &&
             forall i :: 0 <= i < |t.queues| ==> m[t.queues[i].id] == Should(t.queues[i], t.moment)
    ensures m == Memory(run, k)
  {
    hide Should;
    var t, n := run[k - 1], Memory(run, k);
    forall id | id in m ensures id in n && m[id] == n[id] {
      var i :| 0 <= i < |t.queues| && t.queues[i].id == id;
    }
    forall id | id in n ensures id in m {
      var i :| 0 <= i < |t.queues| && t.queues[i].id == id;
    }
  }

  /** Queue `q` is in the list at tick `k`. */
  predicate Listed(run: seq<Tick>, q: Queue, k: nat)
    requires k < |run|
  {
    q in run[k].queues
  }

  predicate Fires(run: seq<Tick>, e: Event, k: nat)
    requires IsRun(run) && k < |run|
  {
    e in EventsAt(run, k)
  }

  predicate Active(run: seq<Tick>, id: nat, k: int)
    requires IsRun(run) && k < |run|
  {
    k >= 0 && exists q :: q in run[k].queues && q.id == id && Should(q, run[k].moment)
  }

  lemma {:induction false} DecisionsOf(qs: seq<Queue>, m: Moment, last: map<nat, bool>, e: Event)
    requires forall q :: q in qs ==> IsSchedule(q.schedule)
    ensures e in Decisions(qs, m, last) <==>
              exists i :: 0 <= i < |qs| && e in Decision(qs[i], m, Remembered(last, qs[i].id))
  {
    if qs != [] {
      var init := qs[..|qs| - 1];
      DecisionsOf(init, m, last, e);
      if i :| 0 <= i < |qs| && e in Decision(qs[i], m, Remembered(last, qs[i].id)) {
        assert i < |init| ==> init[i] == qs[i];
      }
      if i :| 0 <= i < |init| && e in Decision(init[i], m, Remembered(last, init[i].id)) {
        assert init[i] == qs[i];
      }
    }
  }

  lemma RememberedIsActive(run: seq<Tick>, id: nat, k: nat)
    requires IsRun(run) && k <= |run|
    ensures Remembered(Memory(run, k), id) <==> Active(run, id, k - 1)
  {
    hide Should, Memory, IsSchedule;
    if k == 0 {
      NothingRemembered(run);
    } else {
      var t := run[k - 1];
      assert t in run;
      if q :| q in t.queues && q.id == id && Should(q, t.moment) {
        var i :| 0 <= i < |t.queues| && t.queues[i] == q;
        MemoryEntry(run, k, i);
      }
      if Remembered(Memory(run, k), id) {
        var i := MemoryKey(run, k, id);
        MemoryEntry(run, k, i);
        assert t.queues[i] in t.queues;
      }
    }
  }

  lemma NothingRemembered(run: seq<Tick>)
    requires IsRun(run)
    ensures Memory(run, 0) == map[]
  {
  }

  lemma MemoryEntry(run: seq<Tick>, k: nat, i: nat)
    requires IsRun(run) && 0 < k <= |run| && i < |run[k - 1].queues|
    ensures var t := run[k - 1];
            t.queues[i].id in Memory(run, k) && Memory(run, k)[t.queues[i].id] == Should(t.queues[i], t.moment)
  {
    hide Should;
    assert run[k - 1] in run;
  }

  lemma MemoryKey(run: seq<Tick>, k: nat, id: nat) returns (i: nat)
    requires IsRun(run) && 0 < k <= |run| && id in Memory(run, k)
    ensures i < |run[k - 1].queues| && run[k - 1].queues[i].id == id
  {
    hide Should;
    i :| 0 <= i < |run[k - 1].queues| && run[k - 1].queues[i].id == id;
  }

  /** Events name a queue in the list, and only that queue's decision. */
  lemma FiresExactly(run: seq<Tick>, q: Queue, k: nat)
    requires IsRun(run) && k < |run| && Listed(run, q, k)
    ensures IsSchedule(q.schedule)
    ensures Fires(run, Start(q.id), k) <==> Should(q, run[k].moment) && !Active(run, q.id, k - 1)
    ensures Fires(run, Stop(q.id), k) <==>
            !May(q, run[k].moment) && (Active(run, q.id, k - 1) || ByTrigger(q, run[k].moment))
    ensures Active(run, q.id, k) <==> Should(q, run[k].moment)
  {
    var t := run[k];
    assert t in run;
    var last := Memory(run, k);
    RememberedIsActive(run, q.id, k);
    DecisionsOf(t.queues, t.moment, last, Start(q.id));
    DecisionsOf(t.queues, t.moment, last, Stop(q.id));
    var i :| 0 <= i < |t.queues| && t.queues[i] == q;
    forall j | 0 <= j < |t.queues| && t.queues[j].id == q.id ensures j == i {}
    if Should(q, t.moment) { ShouldImpliesMay(q.schedule, t.moment.now, t.moment.available, ProbesFor(q, t.moment)); }
  }

  lemma OnlyListedFire(run: seq<Tick>, id: nat, k: nat)
    requires IsRun(run) && k < |run| && (Fires(run, Start(id), k) || Fires(run, Stop(id), k))
    ensures exists q :: Listed(run, q, k) && q.id == id
  {
    var t := run[k];
    DecisionsOf(t.queues, t.moment, Memory(run, k), Start(id));
    DecisionsOf(t.queues, t.moment, Memory(run, k), Stop(id));
  }

  /** Over any run, with queues edited, added and deleted between ticks: a queue is started exactly on the
      rising edges of its start verdict, and a tick on which it should run never stops it. */
  lemma StartsAreRisingEdges(run: seq<Tick>, id: nat, k: nat)
    requires IsRun(run) && k < |run|
    ensures Fires(run, Start(id), k) <==> Active(run, id, k) && !Active(run, id, k - 1)
    ensures Active(run, id, k) ==> !Fires(run, Stop(id), k)
  {
    assert run[k] in run;
    if Fires(run, Start(id), k) || Fires(run, Stop(id), k) { OnlyListedFire(run, id, k); }
    if q :| Listed(run, q, k) && q.id == id {
      FiresExactly(run, q, k);
      if Should(q, run[k].moment) {
        ShouldImpliesMay(q.schedule, run[k].moment.now, run[k].moment.available, ProbesFor(q, run[k].moment));
      }
    }
  }

  /** A queue that the tick did not start, and that no arriving download could have started, is never stopped:
      one that the user started by hand goes on. */
  lemma OnlyStartedAreStopped(run: seq<Tick>, q: Queue, k: nat)
    requires IsRun(run) && k < |run| && Listed(run, q, k) && !Active(run, q.id, k - 1)
    requires !q.schedule.Condition? || !q.schedule.conds.onJobAdded || q.id !in run[k].moment.running
    ensures !Fires(run, Stop(q.id), k)
  {
    FiresExactly(run, q, k);
  }

  /** A queue whose arrival trigger is on and that is running is stopped as soon as its conditions fail. */
  lemma TriggeredIsStopped(run: seq<Tick>, q: Queue, k: nat)
    requires IsRun(run) && k < |run| && Listed(run, q, k) && q.schedule.Condition? && q.schedule.conds.onJobAdded
    requires q.id in run[k].moment.running && IsSchedule(q.schedule) && !May(q, run[k].moment)
    ensures Fires(run, Stop(q.id), k)
  {
    FiresExactly(run, q, k);
  }

  /** A queue that waits for a command only is started by the verdict on its own command; without a verdict it
      is not. */
  lemma OwnCommandDecides(q: Queue, m: Moment, c: CondSet)
    requires q.schedule == Condition(Only(c, Command)) && c.command.Some? && Command in m.available
    ensures Should(q, m) <==> q.id in m.commands && m.commands[q.id]
  {
    OneConditionExactly(c, Command, m.now, m.available, ProbesFor(q, m));
  }

  /** The other probes a queue reads are those of the host, at the time of the tick. */
  lemma HostProbesDecide(q: Queue, m: Moment, c: CondSet, k: CondKind)
    requires q.schedule == Condition(Only(c, k)) && IsOn(c, k) && k in m.available
    ensures k == Unmetered ==> (Should(q, m) <==> m.probes.unmetered == Some(true))
    ensures k == AcPower ==> (Should(q, m) <==> m.probes.onAc == Some(true))
    ensures k == Idle ==> (Should(q, m) <==> m.probes.idle.Some? && m.probes.idle.value / 60 >= c.idleMinutes.value)
  {
    OneConditionExactly(c, k, m.now, m.available, ProbesFor(q, m));
  }

  /** Going back from an active tick to the one that started it. */
  lemma {:induction false} StartBehind(run: seq<Tick>, id: nat, i: nat, k: nat) returns (s: nat)
    requires IsRun(run) && i < k < |run| && Active(run, id, k) && !Active(run, id, i)
    ensures i < s <= k && Fires(run, Start(id), s)
    decreases k
  {
    StartsAreRisingEdges(run, id, k);
    if !Active(run, id, k - 1) { s := k; } else { s := StartBehind(run, id, i, k - 1); }
  }

  /** Between two stops of a queue lies a start, unless the second stop is for a download's arrival. */
  lemma StartBetweenStops(run: seq<Tick>, id: nat, i: nat, j: nat)
    requires IsRun(run) && i < j < |run| && Fires(run, Stop(id), i) && Fires(run, Stop(id), j)
    requires forall q :: Listed(run, q, j) && q.id == id ==> !ByTrigger(q, run[j].moment)
    ensures exists s :: i < s < j && Fires(run, Start(id), s)
  {
    OnlyListedFire(run, id, j);
    var q :| Listed(run, q, j) && q.id == id;
    FiresExactly(run, q, j);
    StartsAreRisingEdges(run, id, i);
    var s := StartBehind(run, id, i, j - 1);
  }

  /** The queue keeps one schedule, with no moment in it, on every tick from `i` to `j`. */
  predicate Steady(run: seq<Tick>, q: Queue, i: nat, j: nat)
    requires j < |run|
  {
    forall k :: i <= k <= j ==> Listed(run, q, k) && !StartsOnAMoment(q.schedule, run[k].moment.available)
  }

  /** Going back from an inactive tick to the one that stopped it. */
  lemma {:induction false} StopBehind(run: seq<Tick>, q: Queue, i: nat, k: nat) returns (s: nat)
    requires IsRun(run) && i < k < |run| && Steady(run, q, i, k) && !Active(run, q.id, k) && Active(run, q.id, i)
    ensures i < s <= k && Fires(run, Stop(q.id), s)
    decreases k
  {
    hide Fires, Active, IsSchedule;
    assert Listed(run, q, k) && run[k] in run;
    FiresExactly(run, q, k);
    VerdictsAgreeExactly(q.schedule, run[k].moment.available);
    if Active(run, q.id, k - 1) { s := k; } else { s := StopBehind(run, q, i, k - 1); }
  }

  lemma StopBetweenStarts(run: seq<Tick>, q: Queue, i: nat, j: nat)
    requires IsRun(run) && i < j < |run| && Steady(run, q, i, j)
    requires Fires(run, Start(q.id), i) && Fires(run, Start(q.id), j)
    ensures exists s :: i < s < j && Fires(run, Stop(q.id), s)
  {
    StartsAreRisingEdges(run, q.id, i);
    StartsAreRisingEdges(run, q.id, j);
    var s := StopBehind(run, q, i, j - 1);
  }

  /** While a queue keeps a schedule that does not start on a moment, its starts and stops alternate. A host on
      which the arrival of a download is a condition, as it is on all of them, leaves no exception; elsewhere
      the stop of a run that an arrival began can follow another stop. */
  lemma StartsAndStopsAlternate(run: seq<Tick>, q: Queue, i: nat, j: nat)
    requires IsRun(run) && i < j < |run| && Steady(run, q, i, j)
    ensures Fires(run, Start(q.id), i) && Fires(run, Start(q.id), j) ==>
              exists s :: i < s < j && Fires(run, Stop(q.id), s)
    ensures Fires(run, Stop(q.id), i) && Fires(run, Stop(q.id), j)
            && (JobAdded in run[j].moment.available || !ByTrigger(q, run[j].moment)) ==>
              exists s :: i < s < j && Fires(run, Start(q.id), s)
  {
    if Fires(run, Start(q.id), i) && Fires(run, Start(q.id), j) { StopBetweenStarts(run, q, i, j); }
    if JobAdded in run[j].moment.available { NoTriggerLive(q, run[j].moment); }
    if Fires(run, Stop(q.id), i) && Fires(run, Stop(q.id), j) && !ByTrigger(q, run[j].moment) {
      OneOfItsId(run, q, j);
      StartBetweenStops(run, q.id, i, j);
    }
  }

  lemma NoTriggerLive(q: Queue, m: Moment)
    requires JobAdded in m.available && !StartsOnAMoment(q.schedule, m.available)
    ensures !ByTrigger(q, m)
  {
  }

  lemma OneOfItsId(run: seq<Tick>, q: Queue, k: nat)
    requires IsRun(run) && k < |run| && Listed(run, q, k)
    ensures forall p :: Listed(run, p, k) && p.id == q.id ==> p == q
  {
    assert run[k] in run;
  }
}
