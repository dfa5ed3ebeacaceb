/** When a queue is due: weekday masks, calendar windows, conditions, and the two verdicts read off them.
    Times are local seconds; day 0 is 1 January 1970, a Thursday. */
module Schedule {
  import opened Text

  const DAY := 86_400
  const WEEK := 604_800

  // ---------------------------------------------------------------------------
  // Weekdays

  /** The bit of a weekday, Monday being 0. */
  function DayBit(w: int): bv8
    requires 0 <= w < 7
  {
    if w == 0 then 1 else if w == 1 then 2 else if w == 2 then 4 else if w == 3 then 8
    else if w == 4 then 16 else if w == 5 then 32 else 64
  }

  predicate HasDay(mask: bv8, w: int)
    requires 0 <= w < 7
  {
    mask & DayBit(w) != 0
  }

  class WeekDayMask {
    var bits: bv8

    constructor (bits: bv8)
      ensures this.bits == bits
    {
      this.bits := bits;
    }

    method Set(w: int, on: bool)
      requires 0 <= w < 7
      modifies this
      ensures forall v :: 0 <= v < 7 ==> (HasDay(bits, v) <==> if v == w then on else HasDay(old(bits), v))
      ensures bits & 128 == old(bits) & 128
    {
      if on { bits := bits | DayBit(w); } else { bits := bits & !DayBit(w); }
    }
  }

  /** The bits are those of the mask from the lowest up, the working week first. */
  lemma DayBitsInOrder(mask: bv8, w: int)
    requires 0 <= w < 7
    ensures HasDay(mask, w) <==> (mask >> w) & 1 == 1
    ensures (HasDay(0x1F, w) <==> w < 5) && (HasDay(0x60, w) <==> w >= 5) && HasDay(0x7F, w)
  {
    if w == 0 {} else if w == 1 {} else if w == 2 {} else if w == 3 {} else if w == 4 {} else if w == 5 {} else {}
  }

  function Weekday(day: int): (w: int)
    ensures 0 <= w < 7
  {
    (day + 3) % 7
  }

  /** 1 January 1970 was a Thursday, and the days of the week follow each other. */
  lemma WeekdaysFollow(day: int)
    ensures Weekday(0) == 3
    ensures Weekday(day + 1) == if Weekday(day) == 6 then 0 else Weekday(day) + 1
  {
  }

  predicate Selected(mask: bv8, day: int) {
    HasDay(mask, Weekday(day))
  }

  function One(b: bool): nat { if b then 1 else 0 }

  function SelectedDays(mask: bv8): nat {
    One(HasDay(mask, 0)) + One(HasDay(mask, 1)) + One(HasDay(mask, 2)) + One(HasDay(mask, 3))
    + One(HasDay(mask, 4)) + One(HasDay(mask, 5)) + One(HasDay(mask, 6))
  }

  // ---------------------------------------------------------------------------
  // The daily window

  const GRACE := 15 * 60

  /** How long an occurrence lasts. A stop at or before the start is on the next day. */
  function WindowLen(start: nat, stop: Option<nat>): (len: int)
    requires start < DAY && (stop.Some? ==> stop.value < DAY)
    ensures 0 < len <= DAY
    ensures stop.Some? ==> (start + len) % DAY == stop.value
    ensures stop.None? ==> len == 900
  {
    match stop
    case None => GRACE
    case Some(s) => if s - start > 0 then s - start else s - start + DAY
  }

  /** The occurrence of `day` covers `now`. */
  predicate Covers(mask: bv8, start: nat, len: int, day: int, now: int) {
    Selected(mask, day) && day * DAY + start <= now < day * DAY + start + len
  }

  /** `daily_due`: yesterday's occurrence and today's are looked at. */
  predicate DailyDue(start: nat, stop: Option<nat>, mask: bv8, now: int)
    requires start < DAY && (stop.Some? ==> stop.value < DAY)
  {
    var len := WindowLen(start, stop);
    var today := now / DAY;
    Covers(mask, start, len, today - 1, now) || Covers(mask, start, len, today, now)
  }

  /** Looking at two days is enough, and the occurrence found is the only one. */
  lemma TwoDaysSuffice(start: nat, stop: Option<nat>, mask: bv8, now: int)
    requires start < DAY && (stop.Some? ==> stop.value < DAY)
    ensures DailyDue(start, stop, mask, now) <==> exists day :: Covers(mask, start, WindowLen(start, stop), day, now)
    ensures var len := WindowLen(start, stop);
            forall d, e :: Covers(mask, start, len, d, now) && Covers(mask, start, len, e, now) ==> d == e
  {
    var len := WindowLen(start, stop);
    if day :| Covers(mask, start, len, day, now) {
      assert now / DAY - 1 <= day <= now / DAY;
    }
  }

  // ---------------------------------------------------------------------------
  // How much of a week is due

  datatype Plan = Plan(start: nat, stop: Option<nat>, mask: bv8)

  predicate IsPlan(p: Plan) {
    p.start < DAY && (p.stop.Some? ==> p.stop.value < DAY)
  }

  predicate Due(p: Plan, t: int)
    requires IsPlan(p)
  {
    DailyDue(p.start, p.stop, p.mask, t)
  }

  /** Due seconds among the `n` from `a` on. */
  function DueSeconds(p: Plan, a: int, n: nat): nat
    requires IsPlan(p)
  {
    if n == 0 then 0 else DueSeconds(p, a, n - 1) + One(Due(p, a + n - 1))
  }

  lemma {:induction false} DueSplit(p: Plan, a: int, m: nat, n: nat)
    requires IsPlan(p)
    ensures DueSeconds(p, a, m + n) == DueSeconds(p, a, m) + DueSeconds(p, a + m, n)
  {
    if n > 0 { DueSplit(p, a, m, n - 1); }
  }

  lemma WeekShift(t: int)
    ensures (t + WEEK) / DAY == t / DAY + 7 && Weekday(t / DAY + 7) == Weekday(t / DAY) &&
              Weekday(t / DAY + 6) == Weekday(t / DAY - 1)
  {
  }

  lemma DuePeriodic(p: Plan, t: int)
    requires IsPlan(p)
    ensures Due(p, t + WEEK) <==> Due(p, t)
  {
    WeekShift(t);
  }

  lemma WeekSlides(p: Plan, a: int)
    requires IsPlan(p)
    ensures DueSeconds(p, a + 1, WEEK) == DueSeconds(p, a, WEEK)
  {
    DueSplit(p, a, 1, WEEK);
    DueSplit(p, a, WEEK, 1);
    assert DueSeconds(p, a, 1) == DueSeconds(p, a, 0) + One(Due(p, a));
    assert DueSeconds(p, a + WEEK, 1) == DueSeconds(p, a + WEEK, 0) + One(Due(p, a + WEEK));
    DuePeriodic(p, a);
  }

  lemma {:induction false} WeekAnywhere(p: Plan, a: int, n: nat)
    requires IsPlan(p)
    ensures DueSeconds(p, a + n, WEEK) == DueSeconds(p, a, WEEK)
  {
    if n > 0 {
      WeekAnywhere(p, a, n - 1);
      WeekSlides(p, a + n - 1);
    }
  }

  /** From one start time to the next only that day's occurrence counts. */
  lemma DueWithinDay(p: Plan, day: int, i: nat)
    requires IsPlan(p) && i < DAY
    ensures Due(p, day * DAY + p.start + i) <==> Selected(p.mask, day) && i < WindowLen(p.start, p.stop)
  {
    var now := day * DAY + p.start + i;
    TwoDaysSuffice(p.start, p.stop, p.mask, now);
    var len := WindowLen(p.start, p.stop);
    if d :| Covers(p.mask, p.start, len, d, now) { assert d == day; }
    if Selected(p.mask, day) && i < len { assert Covers(p.mask, p.start, len, day, now); }
  }

  lemma {:induction false} DueInDay(p: Plan, day: int, n: nat)
    requires IsPlan(p) && n <= DAY
    ensures var len := WindowLen(p.start, p.stop);
            DueSeconds(p, day * DAY + p.start, n) == if Selected(p.mask, day) then (if n < len then n else len) else 0
  {
    if n > 0 {
      DueInDay(p, day, n - 1);
      DueWithinDay(p, day, n - 1);
    }
  }

  lemma NothingDue(p: Plan)
    requires IsPlan(p)
    ensures DueSeconds(p, p.start, 0) == 0
  {
  }

  /** Seven days from a start time, one after the other. */
  lemma {:induction false} DueInDays(p: Plan, k: nat)
    requires IsPlan(p) && k <= 7
    ensures DueSeconds(p, p.start, k * DAY) == SelectedUpTo(p.mask, k) * WindowLen(p.start, p.stop)
  {
    hide DueSeconds, WindowLen, Selected;
    if k == 0 {
      NothingDue(p);
    } else {
      DueInDays(p, k - 1);
      DueSplit(p, p.start, (k - 1) * DAY, DAY);
      DueInDay(p, k - 1, DAY);
      OneMore(SelectedUpTo(p.mask, k - 1), One(Selected(p.mask, k - 1)), WindowLen(p.start, p.stop));
    }
  }

  lemma OneMore(n: nat, one: nat, len: int)
    requires one <= 1
    ensures (n + one) * len == n * len + if one == 1 then len else 0
  {
  }

  function SelectedUpTo(mask: bv8, k: nat): nat {
    if k == 0 then 0 else SelectedUpTo(mask, k - 1) + One(Selected(mask, k - 1))
  }

  lemma SelectedInAWeek(mask: bv8)
    ensures SelectedUpTo(mask, 7) == SelectedDays(mask)
  {
    hide HasDay;
    assert SelectedUpTo(mask, 0) == 0;
    assert SelectedUpTo(mask, 1) == SelectedUpTo(mask, 0) + One(HasDay(mask, 3));
    assert SelectedUpTo(mask, 2) == SelectedUpTo(mask, 1) + One(HasDay(mask, 4));
    assert SelectedUpTo(mask, 3) == SelectedUpTo(mask, 2) + One(HasDay(mask, 5));
    assert SelectedUpTo(mask, 4) == SelectedUpTo(mask, 3) + One(HasDay(mask, 6));
    assert SelectedUpTo(mask, 5) == SelectedUpTo(mask, 4) + One(HasDay(mask, 0));
    assert SelectedUpTo(mask, 6) == SelectedUpTo(mask, 5) + One(HasDay(mask, 1));
  }

  /** Any seven days in a row, wherever they begin, hold exactly the selected days times the window. */
  lemma WeekHoldsItsWindows(p: Plan, a: int)
    requires IsPlan(p)
    ensures DueSeconds(p, a, WEEK) == SelectedDays(p.mask) * WindowLen(p.start, p.stop)
  {
    hide DueSeconds, SelectedUpTo, SelectedDays, WindowLen;
    DueInDays(p, 7);
    SelectedInAWeek(p.mask);
    if a >= p.start { WeekAnywhere(p, p.start, a - p.start); } else { WeekAnywhere(p, a, p.start - a); }
  }

  // ---------------------------------------------------------------------------
  // Conditions

  datatype CondKind = JobAdded | Unmetered | Idle | AcPower | Command
  datatype Combine = All | Any
  datatype CondSet = CondSet(combine: Combine, onJobAdded: bool, unmetered: bool, idleMinutes: Option<nat>,
      acPower: bool, command: Option<string>)

  /** The switch of one condition. */
  predicate IsOn(s: CondSet, k: CondKind) {
    match k
    case JobAdded => s.onJobAdded
    case Unmetered => s.unmetered
    case Idle => s.idleMinutes.Some?
    case AcPower => s.acPower
    case Command => s.command.Some?
  }

  /** The builder's display order. */
  function Rank(k: CondKind): nat {
    match k
    case JobAdded => 0
    case Unmetered => 1
    case Idle => 2
    case AcPower => 3
    case Command => 4
  }

  predicate InDisplayOrder(v: seq<CondKind>) {
    forall i, j :: 0 <= i < j < |v| ==> Rank(v[i]) < Rank(v[j])
  }

  /** In order, and with nothing that ranks `n` or higher. */
  predicate OrderedBelow(v: seq<CondKind>, n: nat) {
    InDisplayOrder(v) && forall k :: k in v ==> Rank(k) < n
  }

  /** The next kind in order is pushed or skipped. */
  method PushIf(v: seq<CondKind>, on: bool, k: CondKind) returns (w: seq<CondKind>)
    requires OrderedBelow(v, Rank(k))
    ensures OrderedBelow(w, Rank(k) + 1)
    ensures forall x :: x in w <==> x in v || (on && x == k)
  {
    w := v;
    if on {
      assert forall i :: 0 <= i < |v| ==> v[i] in v;
      w := w + [k];
    }
  }

  /** `enabled`: the kinds that are switched on, each once, in the builder's display order. */
  method EnabledKinds(s: CondSet) returns (v: seq<CondKind>)
    ensures forall k :: k in v <==> IsOn(s, k)
    ensures InDisplayOrder(v)
  {
    v := PushIf([], s.onJobAdded, JobAdded);
    v := PushIf(v, s.unmetered, Unmetered);
    v := PushIf(v, s.idleMinutes.Some?, Idle);
    v := PushIf(v, s.acPower, AcPower);
    v := PushIf(v, s.command.Some?, Command);
  }

  /** So the kinds that are on determine the vector. */
  lemma {:induction false} DisplayOrderUnique(v: seq<CondKind>, w: seq<CondKind>)
    requires InDisplayOrder(v) && InDisplayOrder(w) && forall k :: k in v <==> k in w
    ensures v == w
    decreases |v|
  {
    SameKindsLength(v, w);
    if v != [] {
      assert v[0] in v && v[0] in w;
      assert w[0] in w && w[0] in v;
      assert Rank(v[0]) == Rank(w[0]);
      DropFirstKind(v);
      DropFirstKind(w);
      DisplayOrderUnique(v[1..], w[1..]);
    }
  }

  /** With every switch on, the whole display order. */
  lemma DisplayOrderIs(v: seq<CondKind>)
    requires InDisplayOrder(v) && forall k :: k in v
    ensures v == [JobAdded, Unmetered, Idle, AcPower, Command]
  {
    var all := [JobAdded, Unmetered, Idle, AcPower, Command];
    assert all[0] in all && all[1] in all && all[2] in all && all[3] in all && all[4] in all;
    forall k ensures k in all {
      match k
      case JobAdded => case Unmetered => case Idle => case AcPower => case Command =>
    }
    DisplayOrderUnique(v, all);
  }

  lemma SameKindsLength(v: seq<CondKind>, w: seq<CondKind>)
    requires forall k :: k in v <==> k in w
    ensures v == [] <==> w == []
  {
    if v != [] { assert v[0] in v; }
    if w != [] { assert w[0] in w; }
  }

  lemma DropFirstKind(v: seq<CondKind>)
    requires InDisplayOrder(v) && v != []
    ensures InDisplayOrder(v[1..]) && forall k :: k in v[1..] <==> k in v && k != v[0]
  {
    assert v == [v[0]] + v[1..];
  }

  /** Enabled, and something this host can evaluate. */
  predicate Live(s: CondSet, available: set<CondKind>, k: CondKind) {
    IsOn(s, k) && k in available
  }

  predicate Holds(s: CondSet, available: set<CondKind>, verdict: CondKind -> bool) {
    (exists k | IsOn(s, k) :: k in available) &&
    match s.combine
    case All => forall k | IsOn(s, k) && k in available :: verdict(k)
    case Any => exists k | IsOn(s, k) && k in available :: verdict(k)
  }

  // ---------------------------------------------------------------------------
  // Start and continue

  datatype QueueSchedule =
    | Manual
    | Daily(start: nat, stop: Option<nat>, days: bv8)
    | Once(at: int, until: Option<int>)
    | Condition(conds: CondSet)

  predicate IsSchedule(s: QueueSchedule) {
    s.Daily? ==> s.start < DAY && (s.stop.Some? ==> s.stop.value < DAY)
  }

  /** What the probes answered; `None` is no answer. */
  datatype Probes = Probes(unmetered: Option<bool>, onAc: Option<bool>, idle: Option<nat>, command: Option<bool>)

  const ONESHOT := 12 * 3600
  const NEVER_MINUTES := 65_535

  predicate KindHolds(s: CondSet, p: Probes, running: bool, k: CondKind) {
    match k
    case JobAdded => running
    case Unmetered => p.unmetered == Some(true)
    case AcPower => p.onAc == Some(true)
    case Idle => p.idle.Some? && p.idle.value >= (if s.idleMinutes.Some? then s.idleMinutes.value
        else NEVER_MINUTES) * 60
    case Command => p.command == Some(true)
  }

  predicate Verdict(s: QueueSchedule, now: int, available: set<CondKind>, p: Probes, running: bool)
    requires IsSchedule(s)
  {
    match s
    case Manual => false
    case Daily(start, stop, days) => if stop.None? && running then true else DailyDue(start, stop, days, now)
    case Once(at, until) =>
      if now < at then false
      else (match until
        case Some(u) => now < u
        case None => running || now < at + ONESHOT)
    case Condition(conds) => Holds(conds, available, k => KindHolds(conds, p, running, k))
  }

  predicate ShouldRun(s: QueueSchedule, now: int, available: set<CondKind>, p: Probes)
    requires IsSchedule(s)
  {
    Verdict(s, now, available, p, false)
  }

  // What the verdicts come to, one kind of schedule at a time

  /** A clock schedule starts in the occurrences of its selected days, and only there. Without a stop time what
      it started goes on; with one the occurrence bounds it. */
  lemma DailyExactly(start: nat, stop: Option<nat>, days: bv8, now: int, available: set<CondKind>, p: Probes)
    requires start < DAY && (stop.Some? ==> stop.value < DAY)
    ensures var s := Daily(start, stop, days);
            var due := exists day :: Selected(days, day) && 0 <= now - (day * DAY + start) < WindowLen(start, stop);
            && (ShouldRun(s, now, available, p) <==> due)
            && (MayContinue(s, now, available, p) <==> due || stop.None?)
  {
    TwoDaysSuffice(start, stop, days, now);
    var len := WindowLen(start, stop);
    if day :| Covers(days, start, len, day, now) { assert Selected(days, day); }
    if day :| Selected(days, day) && 0 <= now - (day * DAY + start) < len { assert Covers(days, start, len, day, now); }
  }

  /** A single run starts from its time to its end, or for twelve hours where it has none; in that case what it
      started goes on. A schedule set by hand never starts nor goes on. */
  lemma OnceExactly(at: int, until: Option<int>, now: int, available: set<CondKind>, p: Probes)
    ensures var s := Once(at, until);
            && (ShouldRun(s, now, available, p) <==> at <= now < if until.Some? then until.value else at + 43_200)
            && (MayContinue(s, now, available, p) <==> at <= now && (until.Some? ==> now < until.value))
            && !ShouldRun(Manual, now, available, p) && !MayContinue(Manual, now, available, p)
  {
  }

  /** The conditions of `c`, all of them off but `k`. */
  function Only(c: CondSet, k: CondKind): CondSet {
    CondSet(c.combine, c.onJobAdded && k == JobAdded, c.unmetered && k == Unmetered,
            if k == Idle then c.idleMinutes else None, c.acPower && k == AcPower,
            if k == Command then c.command else None)
  }

  /** A queue with one condition, available on the host, does what that condition's own probe says: a link known
      to be unmetered, mains known to be connected, a reading of at least so many whole minutes, a command known
      to have succeeded. No answer is a no. An arrival starts nothing on a tick and never ends what it started. */
  lemma OneConditionExactly(c: CondSet, k: CondKind, now: int, available: set<CondKind>, p: Probes)
    requires IsOn(c, k) && k in available
    ensures var s := Condition(Only(c, k));
            && (k == JobAdded ==> !ShouldRun(s, now, available, p) && MayContinue(s, now, available, p))
            && (k != JobAdded ==> (ShouldRun(s, now, available, p) <==> MayContinue(s, now, available, p)))
            && (k == Unmetered ==> (ShouldRun(s, now, available, p) <==> p.unmetered == Some(true)))
            && (k == AcPower ==> (ShouldRun(s, now, available, p) <==> p.onAc == Some(true)))
            && (k == Command ==> (ShouldRun(s, now, available, p) <==> p.command == Some(true)))
            && (k == Idle ==>
                  (ShouldRun(s, now, available, p) <==> p.idle.Some? && p.idle.value / 60 >= c.idleMinutes.value))
  {
    var one := Only(c, k);
    assert forall x :: IsOn(one, x) <==> x == k;
    OneLiveKind(one, k, available, x => KindHolds(one, p, false, x));
    OneLiveKind(one, k, available, x => KindHolds(one, p, true, x));
  }

  lemma OneLiveKind(c: CondSet, k: CondKind, available: set<CondKind>, verdict: CondKind -> bool)
    requires k in available && forall x :: IsOn(c, x) <==> x == k
    ensures Holds(c, available, verdict) <==> verdict(k)
  {
  }

  /** Several conditions together: none live is a no; otherwise all of them, or any of them, as the set asks.
      What one of them says is what a queue with that one alone would do. */
  lemma ConditionsCombine(c: CondSet, now: int, available: set<CondKind>, p: Probes, running: bool)
    ensures Verdict(Condition(c), now, available, p, running) <==>
            && (exists k :: Live(c, available, k))
            && (c.combine == All ==>
                  forall k :: Live(c, available, k) ==> Verdict(Condition(Only(c, k)), now, available, p, running))
            && (c.combine == Any ==>
                  exists k :: Live(c, available, k) && Verdict(Condition(Only(c, k)), now, available, p, running))
  {
    forall k | Live(c, available, k)
      ensures Verdict(Condition(Only(c, k)), now, available, p, running) <==> KindHolds(c, p, running, k)
    {
      var one := Only(c, k);
      assert forall x :: IsOn(one, x) <==> x == k;
      OneLiveKind(one, k, available, x => KindHolds(one, p, running, x));
    }
    if k :| IsOn(c, k) && k in available { assert Live(c, available, k); }
    if k :| Live(c, available, k) { assert IsOn(c, k) && k in available; }
  }

  predicate MayContinue(s: QueueSchedule, now: int, available: set<CondKind>, p: Probes)
    requires IsSchedule(s)
  {
    Verdict(s, now, available, p, true)
  }

  /** Whatever would start a queue would also let it go on. */
  lemma ShouldImpliesMay(s: QueueSchedule, now: int, available: set<CondKind>, p: Probes)
    requires IsSchedule(s) && ShouldRun(s, now, available, p)
    ensures MayContinue(s, now, available, p)
  {
    if s.Condition? {
      var c := s.conds;
      forall k | KindHolds(c, p, false, k) ensures KindHolds(c, p, true, k) {}
      if c.combine == Any {
        var k :| IsOn(c, k) && k in available && KindHolds(c, p, false, k);
        assert KindHolds(c, p, true, k);
      }
    }
  }

  /** A schedule that starts on a moment: no stop time, or the arrival of a download among its live
      conditions. */
  predicate StartsOnAMoment(s: QueueSchedule, available: set<CondKind>) {
    match s
    case Manual => false
    case Daily(_, stop, _) => stop.None?
    case Once(_, until) => until.None?
    case Condition(conds) => Live(conds, available, JobAdded)
  }

  /** Probe answers that meet every condition of `c` but the arrival of a download. */
  function AllMet(c: CondSet): Probes {
    var minutes := if c.idleMinutes.Some? then c.idleMinutes.value else NEVER_MINUTES;
    Probes(Some(true), Some(true), Some(minutes * 60), Some(true))
  }

  lemma MomentTellsApart(s: QueueSchedule, available: set<CondKind>) returns (now: int, p: Probes)
    requires IsSchedule(s) && StartsOnAMoment(s, available)
    ensures MayContinue(s, now, available, p) && !ShouldRun(s, now, available, p)
  {
    now, p := 0, Probes(None, None, None, None);
    match s
    case Daily(start, stop, days) =>
      now := start + GRACE;
      TwoDaysSuffice(start, stop, days, now);
    case Once(at, _) => now := at + ONESHOT;
    case Condition(c) =>
      assert IsOn(c, JobAdded) && JobAdded in available;
      if c.combine == All {
        p := AllMet(c);
        assert !KindHolds(c, p, false, JobAdded);
        assert forall k :: KindHolds(c, p, true, k);
      } else {
        assert KindHolds(c, p, true, JobAdded);
        assert forall k :: !KindHolds(c, p, false, k);
      }
  }

  /** The two verdicts agree at every time and for every probe answer exactly when the schedule does not
      start on a moment. */
  lemma VerdictsAgreeExactly(s: QueueSchedule, available: set<CondKind>)
    requires IsSchedule(s)
    ensures !StartsOnAMoment(s, available) <==>
            forall now, p :: MayContinue(s, now, available, p) <==> ShouldRun(s, now, available, p)
  {
    if StartsOnAMoment(s, available) {
      var now, p := MomentTellsApart(s, available);
    } else {
      forall now, p ensures MayContinue(s, now, available, p) <==> ShouldRun(s, now, available, p) {
        if s.Condition? {
          var c := s.conds;
          assert forall k :: k != JobAdded ==> (KindHolds(c, p, true, k) <==> KindHolds(c, p, false, k));
          if ShouldRun(s, now, available, p) { ShouldImpliesMay(s, now, available, p); }
          if MayContinue(s, now, available, p) && c.combine == Any {
            var k :| IsOn(c, k) && k in available && KindHolds(c, p, true, k);
            assert KindHolds(c, p, false, k);
          }
        }
      }
    }
  }
}
