/** Following downloads to their end: what each look at a download means and what it prints. */
module WaitTracker {
  import opened Text

  datatype Phase =
    | Queued | Evaluating | ResolvingConflicts | Downloading | Assembling | Flushing | Verifying
    | Paused | Conflict | Reconnecting | Completed | Failed | Cancelled

  predicate IsFinished(p: Phase) {
    p.Completed? || p.Failed? || p.Conflict? || p.Paused? || p.Cancelled?
  }

  predicate IsPostTransfer(p: Phase) {
    p.Assembling? || p.Flushing? || p.Verifying?
  }

  predicate IsRunning(p: Phase) {
    p.Evaluating? || p.ResolvingConflicts? || p.Downloading? || IsPostTransfer(p) || p.Reconnecting?
  }

  datatype Kind = OtherKind | NetworkKind | ConflictKind | IoKind | StoppedKind

  /** What the daemon reports; `error` is the stored error as it is classified. */
  datatype JobState = JobState(phase: Phase, filename: Option<string>, path: Option<string>, error: Option<Kind>)

  datatype Outcome = Finished | Ended(kind: Kind)

  datatype Line =
    | FilenameLine(name: string)
    | PhaseLine(phase: Phase)
    | ProgressLine(downloaded: nat, total: Option<nat>, speed: nat, savedAs: Option<string>)
    | CompletedLine(path: Option<string>, already: bool)
    | FailedLine(phase: Phase, kind: Kind)
    | StoppedLine(how: Option<Phase>)  // `None`: it was removed

  predicate IsTerminal(l: Line) {
    l.CompletedLine? || l.FailedLine? || l.StoppedLine?
  }

  datatype Track = Track(phase: Option<Phase>, filename: Option<string>, lastProgress: Option<int>,
      lastDownloaded: nat, outcome: Option<Outcome>)

  const NEW_TRACK := Track(None, None, None, 0, None)

  /** One look at one download: its full state, or a tick of live counters. */
  datatype Look =
    | Observe(state: Option<JobState>)
    | Counters(phase: Phase, downloaded: nat, total: Option<nat>, speed: real, now: int)

  datatype Seen = Seen(track: Track, lines: seq<Line>, moved: bool)

  /** What a name change prints: only a name, only a new one, and not with the download's last line. */
  function Named(t: Track, s: JobState): (Track, seq<Line>) {
    if s.filename.Some? && s.filename.value != "" && t.filename != s.filename && !IsFinished(s.phase)
    then (t.(filename := s.filename), [FilenameLine(s.filename.value)])
    else (t, [])
  }

  function FailureKind(s: JobState): Kind {
    if s.phase.Conflict? then ConflictKind else if s.error.Some? then s.error.value else OtherKind
  }

  function Observed(t: Track, already: bool, state: Option<JobState>): Seen {
    if t.outcome.Some? then Seen(t, [], false)
    else match state
      case None => Seen(t.(outcome := Some(Ended(StoppedKind))), [StoppedLine(None)], false)
      case Some(s) =>
        var (u, lines) := Named(t, s);
        var changed := u.phase != Some(s.phase);
        var v := u.(phase := Some(s.phase));
        if s.phase.Completed? then
          Seen(v.(outcome := Some(Finished)), lines + [CompletedLine(s.path, already)], false)
        else if s.phase.Failed? || s.phase.Conflict? then
          Seen(v.(outcome := Some(Ended(FailureKind(s)))), lines + [FailedLine(s.phase, FailureKind(s))], false)
        else if s.phase.Paused? || s.phase.Cancelled? then
          Seen(v.(outcome := Some(Ended(StoppedKind))), lines + [StoppedLine(Some(s.phase))], false)
        else if changed then Seen(v, lines + [PhaseLine(s.phase)], false)
        else Seen(v, lines, false)
  }

  /** `duration_since`, which does not go below zero. */
  function Elapsed(now: int, at: int): nat {
    if now >= at then now - at else 0
  }

  const U64_MAX: nat := 0xFFFF_FFFF_FFFF_FFFF

  /** A speed as it is printed: no less than zero, whole bytes, and capped. */
  function WholeSpeed(speed: real): (n: nat)
    ensures speed <= 0.0 ==> n == 0
    ensures 0.0 <= speed <= U64_MAX as real ==> n as real <= speed < n as real + 1.0
    ensures speed > U64_MAX as real ==> n == U64_MAX
  {
    if speed <= 0.0 then 0 else if speed > U64_MAX as real then U64_MAX else speed.Floor
  }

  predicate ProgressDue(t: Track, every: nat, phase: Phase, downloaded: nat, now: int) {
    && IsRunning(phase) && !IsPostTransfer(phase)
    && (t.lastProgress.Some? ==> Elapsed(now, t.lastProgress.value) >= every)
    && downloaded != t.lastDownloaded
  }

  function Counted(t: Track, every: nat, phase: Phase, downloaded: nat, total: Option<nat>, speed: real,
      now: int): Seen {
    if t.outcome.Some? then Seen(t, [], false)
    else if t.phase != Some(phase) then Seen(t, [], true)
    else if !ProgressDue(t, every, phase, downloaded, now) then Seen(t, [], false)
    else
      Seen(t.(lastProgress := Some(now), lastDownloaded := downloaded),
           [ProgressLine(downloaded, total, WholeSpeed(speed), t.filename)], false)
  }

  function Looked(t: Track, every: nat, already: bool, look: Look): Seen {
    match look
    case Observe(state) => Observed(t, already, state)
    case Counters(phase, downloaded, total, speed, now) => Counted(t, every, phase, downloaded, total, speed, now)
  }

  // ---------------------------------------------------------------------------
  // The tracker

  class Tracker {
    const order: seq<nat>
    const already: set<nat>
    const every: nat
    var tracks: map<nat, Track>

    ghost predicate Valid()
      reads this
    {
      forall id :: id in order <==> id in tracks
    }

    constructor (ids: seq<nat>, already: set<nat>, every: nat)
      ensures Valid() && order == ids && this.already == already && this.every == every
      ensures tracks == map id | id in ids :: NEW_TRACK
    {
      order, this.already, this.every := ids, already, every;
      tracks := map id | id in ids :: NEW_TRACK;
    }

    method ObserveState(id: nat, state: Option<JobState>) returns (lines: seq<Line>)
      requires Valid()
      modifies this
      ensures Valid()
      ensures lines == Emitted(old(tracks), every, already, id, Observe(state)).lines
      ensures tracks == Stepped(old(tracks), every, already, id, Observe(state))
    {
      if id !in tracks { return []; }
      var t := tracks[id];
      if t.outcome.Some? {
        assert tracks == tracks[id := t];
        return [];
      }
      if state.None? {
        tracks := tracks[id := t.(outcome := Some(Ended(StoppedKind)))];
        return [StoppedLine(None)];
      }
      var s := state.value;
      lines := [];
      if s.filename.Some? && s.filename.value != "" && t.filename != s.filename && !IsFinished(s.phase) {
        t := t.(filename := s.filename);
        lines := lines + [FilenameLine(s.filename.value)];
      }
      var changed := t.phase != Some(s.phase);
      t := t.(phase := Some(s.phase));
      match s.phase {
        case Completed =>
          t := t.(outcome := Some(Finished));
          lines := lines + [CompletedLine(s.path, id in already)];
        case Failed =>
          t := t.(outcome := Some(Ended(FailureKind(s))));
          lines := lines + [FailedLine(s.phase, FailureKind(s))];
        case Conflict =>
          t := t.(outcome := Some(Ended(FailureKind(s))));
          lines := lines + [FailedLine(s.phase, FailureKind(s))];
        case Paused =>
          t := t.(outcome := Some(Ended(StoppedKind)));
          lines := lines + [StoppedLine(Some(s.phase))];
        case Cancelled =>
          t := t.(outcome := Some(Ended(StoppedKind)));
          lines := lines + [StoppedLine(Some(s.phase))];
        case _ =>
          if changed { lines := lines + [PhaseLine(s.phase)]; }
      }
      tracks := tracks[id := t];
    }

    method CountersTick(id: nat, phase: Phase, downloaded: nat, total: Option<nat>, speed: real, now: int)
      returns (lines: seq<Line>, moved: bool)
      requires Valid()
      modifies this
      ensures Valid()
      ensures lines == Emitted(old(tracks), every, already, id, Counters(phase, downloaded, total, speed, now)).lines
      ensures moved == Emitted(old(tracks), every, already, id, Counters(phase, downloaded, total, speed, now)).moved
      ensures tracks == Stepped(old(tracks), every, already, id, Counters(phase, downloaded, total, speed, now))
    {
      if id !in tracks { return [], false; }
      var t := tracks[id];
      assert tracks == tracks[id := t];
      if t.outcome.Some? { return [], false; }
      if t.phase != Some(phase) { return [], true; }
      var due := t.lastProgress.None? || Elapsed(now, t.lastProgress.value) >= every;
      if !(IsRunning(phase) && !IsPostTransfer(phase)) || !due || downloaded == t.lastDownloaded {
        return [], false;
      }
      tracks := tracks[id := t.(lastProgress := Some(now), lastDownloaded := downloaded)];
      return [ProgressLine(downloaded, total, WholeSpeed(speed), t.filename)], false;
    }

    method IsDone() returns (done: bool)
      ensures done <==> forall id :: id in tracks ==> tracks[id].outcome.Some?
    {
      done := forall id :: id in tracks ==> tracks[id].outcome.Some?;
    }

    /** The first download in the order named that ended without its file. */
    method Failure() returns (f: Option<(nat, Kind)>)
      requires Valid()
      ensures f.None? <==>
              forall id :: id in tracks && tracks[id].outcome.Some? ==> tracks[id].outcome == Some(Finished)
      ensures f.Some? ==> exists k :: 0 <= k < |order| && IsFirstFailure(tracks, order, k, f.value)
    {
      for k := 0 to |order|
        invariant forall j :: 0 <= j < k ==> !EndedBadly(tracks, order[j])
      {
        assert order[k] in order;
        var o := tracks[order[k]].outcome;
        if o.Some? && o.value.Ended? {
          assert IsFirstFailure(tracks, order, k, (order[k], o.value.kind));
          return Some((order[k], o.value.kind));
        }
      }
      forall id | id in tracks && tracks[id].outcome.Some? ensures tracks[id].outcome == Some(Finished) {
        var j :| 0 <= j < |order| && order[j] == id;
        assert !EndedBadly(tracks, order[j]);
      }
      return None;
    }
  }

  predicate EndedBadly(tracks: map<nat, Track>, id: nat) {
    id in tracks && tracks[id].outcome.Some? && tracks[id].outcome.value.Ended?
  }

  predicate IsFirstFailure(tracks: map<nat, Track>, order: seq<nat>, k: nat, f: (nat, Kind))
    requires k < |order|
  {
    order[k] == f.0 && f.0 in tracks && tracks[f.0].outcome == Some(Ended(f.1))
    && forall j :: 0 <= j < k ==> !EndedBadly(tracks, order[j])
  }

  /** A look at a download nobody is waiting for does nothing. */
  function Emitted(tracks: map<nat, Track>, every: nat, already: set<nat>, id: nat, look: Look): Seen {
    if id in tracks then Looked(tracks[id], every, id in already, look) else Seen(NEW_TRACK, [], false)
  }

  function Stepped(tracks: map<nat, Track>, every: nat, already: set<nat>, id: nat, look: Look): map<nat, Track> {
    if id in tracks then tracks[id := Looked(tracks[id], every, id in already, look).track] else tracks
  }

  /** Done without a failure means that every download has completed, and the other way round. */
  lemma DoneAndCleanMeansCompleted(tracks: map<nat, Track>)
    ensures (forall id :: id in tracks ==> tracks[id].outcome.Some?) &&
              (forall id :: id in tracks ==> !EndedBadly(tracks, id))
            <==> forall id :: id in tracks ==> tracks[id].outcome == Some(Finished)
  {
    if forall id :: id in tracks ==> tracks[id].outcome == Some(Finished) {
      forall id | id in tracks ensures !EndedBadly(tracks, id) {}
    }
    if (forall id :: id in tracks ==> tracks[id].outcome.Some?) &&
        (forall id :: id in tracks ==> !EndedBadly(tracks, id)) {
      forall id | id in tracks ensures tracks[id].outcome == Some(Finished) { assert !EndedBadly(tracks, id); }
    }
  }

  // ---------------------------------------------------------------------------
  // One download over any sequence of looks

  /** The looks at one download, in order, out of all of them. */
  datatype Call = Call(id: nat, look: Look)

  function LooksAt(calls: seq<Call>, id: nat): seq<Look> {
    if calls == [] then []
    else LooksAt(calls[..|calls| - 1], id) + if calls[|calls| - 1].id == id then [calls[|calls| - 1].look] else []
  }

  function AllStepped(tracks: map<nat, Track>, every: nat, already: set<nat>, calls: seq<Call>): map<nat, Track> {
    if calls == [] then tracks
    else
      var c := calls[|calls| - 1];
      Stepped(AllStepped(tracks, every, already, calls[..|calls| - 1]), every, already, c.id, c.look)
  }

  /** The track after `k` looks. */
  function TrackAfter(every: nat, already: bool, looks: seq<Look>, k: nat): Track
    requires k <= |looks|
  {
    if k == 0 then NEW_TRACK else Looked(TrackAfter(every, already, looks, k - 1), every, already, looks[k - 1]).track
  }

  /** What look `k` prints. */
  function LinesAt(every: nat, already: bool, looks: seq<Look>, k: nat): seq<Line>
    requires k < |looks|
  {
    Looked(TrackAfter(every, already, looks, k), every, already, looks[k]).lines
  }

  lemma {:induction false} TrackAfterPrefix(every: nat, already: bool, a: seq<Look>, b: seq<Look>, k: nat)
    requires k <= |a|
    ensures TrackAfter(every, already, a + b, k) == TrackAfter(every, already, a, k)
  {
    if k > 0 {
      TrackAfterPrefix(every, already, a, b, k - 1);
      assert (a + b)[k - 1] == a[k - 1];
    }
  }

  /** Downloads do not disturb each other: each one's track is what its own looks make of it. */
  lemma {:induction false} TracksAreSeparate(ids: set<nat>, every: nat, already: set<nat>, calls: seq<Call>, id: nat)
    requires id in ids
    ensures var tracks := AllStepped(map i | i in ids :: NEW_TRACK, every, already, calls);
            id in tracks && tracks[id] == TrackAfter(every, id in already, LooksAt(calls, id), |LooksAt(calls, id)|)
    decreases |calls|
  {
    if calls != [] {
      var init, c := calls[..|calls| - 1], calls[|calls| - 1];
      TracksAreSeparate(ids, every, already, init, id);
      var looks := LooksAt(init, id);
      if c.id == id {
        TrackAfterPrefix(every, id in already, looks, [c.look], |looks|);
        assert (looks + [c.look])[|looks|] == c.look;
      } else {
        assert looks + [] == looks;
      }
    }
  }

  /** And what a look prints and answers is what the looks at that download alone make of it; a look at a
      download nobody waits for is silent. */
  lemma EveryLookIsHeard(ids: set<nat>, every: nat, already: set<nat>, calls: seq<Call>, id: nat, look: Look)
    ensures var tracks := AllStepped(map i | i in ids :: NEW_TRACK, every, already, calls);
            var looks, done := LooksAt(calls, id), id in already;
            var seen := Emitted(tracks, every, already, id, look);
            if id in ids
            then seen.lines == LinesAt(every, done, looks + [look], |looks|)
                 && seen.moved == Looked(TrackAfter(every, done, looks, |looks|), every, done, look).moved
            else seen.lines == [] && !seen.moved
  {
    if id in ids {
      var looks := LooksAt(calls, id);
      TracksAreSeparate(ids, every, already, calls, id);
      TrackAfterPrefix(every, id in already, looks, [look], |looks|);
      assert (looks + [look])[|looks|] == look;
    } else {
      NobodyWaits(ids, every, already, calls, id);
    }
  }

  lemma {:induction false} NobodyWaits(ids: set<nat>, every: nat, already: set<nat>, calls: seq<Call>, id: nat)
    requires id !in ids
    ensures id !in AllStepped(map i | i in ids :: NEW_TRACK, every, already, calls)
    decreases |calls|
  {
    if calls != [] { NobodyWaits(ids, every, already, calls[..|calls| - 1], id); }
  }

  predicate HasTerminal(lines: seq<Line>) {
    exists l :: l in lines && IsTerminal(l)
  }

  /** A look prints a terminal line, one and last, exactly when it settles the outcome; a settled download
      prints nothing and does not change. */
  lemma LookSettles(t: Track, every: nat, already: bool, look: Look)
    ensures var s := Looked(t, every, already, look);
            && (HasTerminal(s.lines) <==> t.outcome.None? && s.track.outcome.Some?)
            && (forall i :: 0 <= i < |s.lines| - 1 ==> !IsTerminal(s.lines[i]))
            && (t.outcome.Some? ==> s.track == t && s.lines == [])
  {
    var s := Looked(t, every, already, look);
    if t.outcome.None? && s.track.outcome.Some? { assert IsTerminal(s.lines[|s.lines| - 1]); }
  }

  lemma {:induction false} SettledStays(every: nat, already: bool, looks: seq<Look>, i: nat, j: nat)
    requires i <= j <= |looks| && TrackAfter(every, already, looks, i).outcome.Some?
    ensures TrackAfter(every, already, looks, j) == TrackAfter(every, already, looks, i)
    decreases j
  {
    if i < j {
      SettledStays(every, already, looks, i, j - 1);
      LookSettles(TrackAfter(every, already, looks, j - 1), every, already, looks[j - 1]);
    }
  }

  /** Over any sequence of looks a download has at most one terminal line, exactly when its outcome is set,
      and prints nothing after it. */
  lemma OneTerminalLine(every: nat, already: bool, looks: seq<Look>, i: nat, j: nat)
    requires i < j <= |looks|
    ensures HasTerminal(LinesAt(every, already, looks, i)) ==>
              TrackAfter(every, already, looks, j).outcome.Some? &&
              (j < |looks| ==> LinesAt(every, already, looks, j) == [])
    ensures TrackAfter(every, already, looks, j).outcome.Some? <==>
              exists k :: 0 <= k < j && HasTerminal(LinesAt(every, already, looks, k))
  {
    hide HasTerminal, Looked;
    if HasTerminal(LinesAt(every, already, looks, i)) {
      LookSettles(TrackAfter(every, already, looks, i), every, already, looks[i]);
      SettledStays(every, already, looks, i + 1, j);
      if j < |looks| { LookSettles(TrackAfter(every, already, looks, j), every, already, looks[j]); }
    }
    if TrackAfter(every, already, looks, j).outcome.Some? { TerminalBehind(every, already, looks, j); }
    if k :| 0 <= k < j && HasTerminal(LinesAt(every, already, looks, k)) {
      LookSettles(TrackAfter(every, already, looks, k), every, already, looks[k]);
      SettledStays(every, already, looks, k + 1, j);
    }
  }

  lemma {:induction false} TerminalBehind(every: nat, already: bool, looks: seq<Look>, j: nat)
    requires j <= |looks| && TrackAfter(every, already, looks, j).outcome.Some?
    ensures exists k :: 0 <= k < j && HasTerminal(LinesAt(every, already, looks, k))
  {
    LookSettles(TrackAfter(every, already, looks, j - 1), every, already, looks[j - 1]);
    if TrackAfter(every, already, looks, j - 1).outcome.Some? {
      TerminalBehind(every, already, looks, j - 1);
    } else {
      assert HasTerminal(LinesAt(every, already, looks, j - 1));
    }
  }

  // Which look decides

  /** The daemon says that a download is over: it is gone, or in a phase nothing follows by itself. */
  predicate IsEnd(look: Look) {
    look.Observe? && (look.state.None? || IsFinished(look.state.value.phase))
  }

  function FirstEnd(looks: seq<Look>, k: nat): (r: Option<nat>)
    requires k <= |looks|
    ensures r.Some? ==> r.value < k && IsEnd(looks[r.value]) && forall i :: 0 <= i < r.value ==> !IsEnd(looks[i])
    ensures r.None? ==> forall i :: 0 <= i < k ==> !IsEnd(looks[i])
  {
    if k == 0 then None
    else if FirstEnd(looks, k - 1).Some? then FirstEnd(looks, k - 1)
    else if IsEnd(looks[k - 1]) then Some(k - 1)
    else None
  }

  /** What an ending look and its last line have to say. */
  predicate Tells(state: Option<JobState>, o: Outcome, already: bool, last: Line) {
    match state
    case None => o == Ended(StoppedKind) && last == StoppedLine(None)
    case Some(s) =>
      && (s.phase.Completed? <==> o == Finished)
      && (s.phase.Completed? ==> last == CompletedLine(s.path, already))
      && (s.phase.Paused? || s.phase.Cancelled? ==> o == Ended(StoppedKind) && last == StoppedLine(Some(s.phase)))
      && (s.phase.Conflict? ==> o == Ended(ConflictKind))
      && (s.phase.Failed? ==> o == Ended(if s.error.Some? then s.error.value else OtherKind))
      && (s.phase.Failed? || s.phase.Conflict? ==> last == FailedLine(s.phase, o.kind))
  }

  lemma LookDecides(t: Track, every: nat, already: bool, look: Look)
    requires t.outcome.None?
    ensures var s := Looked(t, every, already, look);
            && (s.track.outcome.Some? <==> IsEnd(look))
            && (IsEnd(look) ==> s.lines != [])
            && (IsEnd(look) ==> Tells(look.state, s.track.outcome.value, already, s.lines[|s.lines| - 1]))
  {
  }

  /** A download's outcome is what the first ending look said, whatever came before and after it. */
  lemma {:induction false} OutcomeIsFirstEnd(every: nat, already: bool, looks: seq<Look>, k: nat)
    requires k <= |looks|
    ensures var o := TrackAfter(every, already, looks, k).outcome;
            match FirstEnd(looks, k)
            case None => o == None
            case Some(i) =>
              var lines := LinesAt(every, already, looks, i);
              o.Some? && lines != [] && Tells(looks[i].state, o.value, already, lines[|lines| - 1])
  {
    hide Looked, Tells;
    if k > 0 {
      OutcomeIsFirstEnd(every, already, looks, k - 1);
      var t := TrackAfter(every, already, looks, k - 1);
      if t.outcome.None? { LookDecides(t, every, already, looks[k - 1]); }
          else { LookSettles(t, every, already, looks[k - 1]); }
    }
  }

  // What was printed last, read off the lines alone

  function PhaseIn(lines: seq<Line>): Option<Phase> {
    if lines == [] then None
    else if lines[|lines| - 1].PhaseLine? then Some(lines[|lines| - 1].phase)
    else PhaseIn(lines[..|lines| - 1])
  }

  function LastPhase(every: nat, already: bool, looks: seq<Look>, k: nat): Option<Phase>
    requires k <= |looks|
  {
    if k == 0 then None
    else
      var p := PhaseIn(LinesAt(every, already, looks, k - 1));
      if p.Some? then p else LastPhase(every, already, looks, k - 1)
  }

  function NameIn(lines: seq<Line>): Option<string> {
    if lines == [] then None
    else if lines[|lines| - 1].FilenameLine? then Some(lines[|lines| - 1].name)
    else NameIn(lines[..|lines| - 1])
  }

  function LastName(every: nat, already: bool, looks: seq<Look>, k: nat): Option<string>
    requires k <= |looks|
  {
    if k == 0 then None
    else
      var n := NameIn(LinesAt(every, already, looks, k - 1));
      if n.Some? then n else LastName(every, already, looks, k - 1)
  }

  /** When the last progress line was printed, and what it said. */
  function LastProgress(every: nat, already: bool, looks: seq<Look>, k: nat): Option<(int, nat)>
    requires k <= |looks|
  {
    if k == 0 then None
    else
      var l := LinesAt(every, already, looks, k - 1);
      if looks[k - 1].Counters? && l != [] then Some((looks[k - 1].now, looks[k - 1].downloaded))
      else LastProgress(every, already, looks, k - 1)
  }

  lemma LookPrints(t: Track, every: nat, already: bool, look: Look)
    ensures var s := Looked(t, every, already, look);
            && PhaseIn(s.lines) == (if s.track.phase != t.phase && s.track.outcome.None? then s.track.phase else None)
            && NameIn(s.lines) == (if s.track.filename != t.filename then s.track.filename else None)
            && (s.track.phase != t.phase ==> s.track.phase.Some?)
            && (s.track.filename != t.filename ==> s.track.filename.Some? && s.track.filename.value != "")
            && (look.Counters? && s.lines != [] ==>
                  s.lines == [ProgressLine(look.downloaded, look.total, WholeSpeed(look.speed), t.filename)] &&
                  ProgressDue(t, every, look.phase, look.downloaded, look.now) &&
                  s.track.lastProgress == Some(look.now) && s.track.lastDownloaded == look.downloaded)
            && (!(look.Counters? && s.lines != []) ==>
                  s.track.lastProgress == t.lastProgress && s.track.lastDownloaded == t.lastDownloaded)
  {
    var s := Looked(t, every, already, look);
    if |s.lines| == 2 {
      assert s.lines[..1] == [s.lines[0]] && [s.lines[0]][..0] == [];
    } else if |s.lines| == 1 {
      assert s.lines[..0] == [];
    }
  }

  /** The track remembers exactly what was printed last. */
  lemma {:induction false} TrackRemembers(every: nat, already: bool, looks: seq<Look>, k: nat)
    requires k <= |looks|
    ensures var t := TrackAfter(every, already, looks, k);
            && (t.outcome.None? ==> t.phase == LastPhase(every, already, looks, k))
            && t.filename == LastName(every, already, looks, k)
            && (match LastProgress(every, already, looks, k)
                case None => t.lastProgress == None && t.lastDownloaded == 0
                case Some((at, d)) => t.lastProgress == Some(at) && t.lastDownloaded == d)
  {
    hide Looked;
    if k > 0 {
      TrackRemembers(every, already, looks, k - 1);
      LookPrints(TrackAfter(every, already, looks, k - 1), every, already, looks[k - 1]);
      LookSettles(TrackAfter(every, already, looks, k - 1), every, already, looks[k - 1]);
    }
  }

  /** No phase line repeats the phase line before it, no name line the name line before it; a progress line
      comes no sooner than `every` after the one before it, with another byte count, only while bytes are
      arriving, and under the name printed last. */
  lemma LinesAreNews(every: nat, already: bool, looks: seq<Look>, k: nat)
    requires k < |looks|
    ensures var lines := LinesAt(every, already, looks, k);
            && (PhaseIn(lines).Some? ==> PhaseIn(lines) != LastPhase(every, already, looks, k))
            && (NameIn(lines).Some? ==> NameIn(lines) !in {LastName(every, already, looks, k), Some("")})
            && (looks[k].Counters? && lines != [] ==>
                  && lines == [ProgressLine(looks[k].downloaded, looks[k].total, WholeSpeed(looks[k].speed),
                                            LastName(every, already, looks, k))]
                  && IsRunning(looks[k].phase) && !IsPostTransfer(looks[k].phase)
                  && match LastProgress(every, already, looks, k)
                     case None => looks[k].downloaded != 0
                     case Some((at, d)) => Elapsed(looks[k].now, at) >= every && looks[k].downloaded != d)
  {
    hide Looked;
    TrackRemembers(every, already, looks, k);
    var t := TrackAfter(every, already, looks, k);
    LookPrints(t, every, already, looks[k]);
    LookSettles(t, every, already, looks[k]);
  }

  // ---------------------------------------------------------------------------
  // Every line, told from what was printed and looked at before

  /** Waiting for a slot, running or finished: one of the three. */
  lemma PhasesAreSorted(p: Phase)
    ensures p.Queued? <==> !IsRunning(p) && !IsFinished(p)
    ensures !(IsRunning(p) && IsFinished(p)) && (IsPostTransfer(p) ==> IsRunning(p))
  {
  }

  /** The name line of a look at a state: for a name that is not empty and not the one printed last. */
  predicate NameIsNew(s: JobState, last: Option<string>) {
    s.filename.Some? && s.filename.value != "" && s.filename != last && !IsFinished(s.phase)
  }

  /** What a look at a state prints, given the phase and the name printed last. */
  predicate StateLines(lines: seq<Line>, s: JobState, phase: Option<Phase>, name: Option<string>) {
    if IsFinished(s.phase) then |lines| == 1 && IsTerminal(lines[0])
    else lines == (if NameIsNew(s, name) then [FilenameLine(s.filename.value)] else []) +
                  (if phase != Some(s.phase) then [PhaseLine(s.phase)] else [])
  }

  /** A progress line is due: bytes are arriving, another count than the last one printed, and long enough
      after it. */
  predicate CountIsNew(phase: Phase, downloaded: nat, now: int, every: nat, last: Option<(int, nat)>) {
    && phase in {Evaluating, ResolvingConflicts, Downloading, Reconnecting}
    && match last
       case None => downloaded != 0
       case Some((at, d)) => downloaded != d && (if now >= at then now - at >= every else every == 0)
  }

  lemma ObservedLines(t: Track, already: bool, s: JobState)
    requires t.outcome.None?
    ensures StateLines(Observed(t, already, Some(s)).lines, s, t.phase, t.filename)
  {
  }

  /** Over any sequence of looks, what a look prints and whether it reports a moved phase, both ways round and in
      terms of the earlier looks and the lines printed for them: nothing once a look has ended the download;
      for a state its new name and its new phase, or its end; for counters of the phase printed last a progress
      line if one is due, and for counters of another phase the report that it has moved. */
  lemma LinesExactly(every: nat, already: bool, looks: seq<Look>, k: nat)
    requires k < |looks|
    ensures var seen := Looked(TrackAfter(every, already, looks, k), every, already, looks[k]);
            var phase, name := LastPhase(every, already, looks, k), LastName(every, already, looks, k);
            && seen.lines == LinesAt(every, already, looks, k)
            && (seen.moved <==> FirstEnd(looks, k).None? && looks[k].Counters? && phase != Some(looks[k].phase))
            && if FirstEnd(looks, k).Some? then seen.lines == []
               else match looks[k]
                 case Observe(None) => seen.lines == [StoppedLine(None)]
                 case Observe(Some(s)) => StateLines(seen.lines, s, phase, name)
                 case Counters(p, downloaded, total, speed, now) =>
                   seen.lines ==
                   if phase == Some(p) && CountIsNew(p, downloaded, now, every, LastProgress(every, already, looks, k))
                   then [ProgressLine(downloaded, total, WholeSpeed(speed), name)] else []
  {
    hide Observed, IsFinished, IsRunning, IsPostTransfer;
    OutcomeIsFirstEnd(every, already, looks, k);
    TrackRemembers(every, already, looks, k);
    var t := TrackAfter(every, already, looks, k);
    match looks[k] {
      case Observe(None) => ObservedNothing(t, already);
      case Observe(Some(s)) => ObservedEither(t, already, s);
      case Counters(p, _, _, _, _) => BytesArrive(p);
    }
  }

  lemma BytesArrive(p: Phase)
    ensures IsRunning(p) && !IsPostTransfer(p) <==> p in {Evaluating, ResolvingConflicts, Downloading, Reconnecting}
  {
  }

  lemma ObservedNothing(t: Track, already: bool)
    ensures !Observed(t, already, None).moved
    ensures Observed(t, already, None).lines == if t.outcome.Some? then [] else [StoppedLine(None)]
  {
  }

  lemma ObservedEither(t: Track, already: bool, s: JobState)
    ensures !Observed(t, already, Some(s)).moved
    ensures if t.outcome.Some? then Observed(t, already, Some(s)).lines == []
            else StateLines(Observed(t, already, Some(s)).lines, s, t.phase, t.filename)
  {
    if t.outcome.None? { ObservedLines(t, already, s); }
  }
}
