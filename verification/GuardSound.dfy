/** What the guard promises once it has let a file through, whatever produced the new file. */
module GuardSound {
  import opened Text
  import opened DesktopLines
  import opened GrantGuard

  /** `n` is `o` with the grants `gs` put in one after the other, each anywhere and behind a space. */
  ghost predicate Grown(o: string, n: string, gs: seq<string>) {
    if gs == [] then n == o
    else exists i :: OccursAt(n, " " + gs[0], i) && Grown(o, TakenOut(n, gs[0], i), gs[1..])
  }

  function TakenOut(n: string, t: string, i: int): string
    requires OccursAt(n, " " + t, i)
  {
    n[..i] + n[i + 1 + |t|..]
  }

  /** Some of `tokens`, in their order, none of them more often than listed. */
  predicate Picked(gs: seq<string>, tokens: seq<string>) {
    gs == [] || (tokens != [] && (Picked(gs, tokens[1..]) || (gs[0] == tokens[0] && Picked(gs[1..], tokens[1..]))))
  }

  lemma {:induction false} StrippedMeans(stripped: string, o: string, n: string, tokens: seq<string>)
      returns (gs: seq<string>)
    requires Stripped(stripped, o, n, tokens) == Some(o)
    ensures Picked(gs, tokens) && Grown(o, stripped, gs)
    ensures forall t :: t in tokens ==> Added(o, n, t) <= 1
    decreases |tokens|
  {
    if tokens == [] {
      gs := [];
    } else {
      hide Added, RemoveFirst;
      var t := tokens[0];
      var less := if Added(o, n, t) == 1 then RemoveFirst(stripped, " " + t) else stripped;
      var more := StrippedMeans(less, o, n, tokens[1..]);
      gs := more;
      if less != stripped {
        gs := [t] + more;
        FirstTakenOut(stripped, t);
        assert gs[1..] == more;
      }
      forall u | u in tokens ensures Added(o, n, u) <= 1 { if u != t { assert u in tokens[1..]; } }
    }
  }

  lemma FirstTakenOut(s: string, t: string)
    ensures RemoveFirst(s, " " + t) != s ==>
              exists i :: OccursAt(s, " " + t, i) && TakenOut(s, t, i) == RemoveFirst(s, " " + t)
  {
    match Find(s, " " + t)
    case None =>
    case Some(i) => assert OccursAt(s, " " + t, i) && TakenOut(s, t, i) == RemoveFirst(s, " " + t);
  }

  /** One line the guard lets through. */
  ghost predicate OnlyGained(o: string, n: string, tokens: seq<string>) {
    || n == o
    || (StartsWith(o, "Exec=") && (forall t :: t in tokens ==> Count(n, t) <= Count(o, t) + 1)
        && exists gs :: Picked(gs, tokens) && Grown(o, n, gs))
  }

  lemma LineOnlyGained(o: string, n: string, tokens: seq<string>)
    requires CheckedLine(o, n, tokens) == Accepted
    ensures OnlyGained(o, n, tokens)
  {
    hide Grown, Picked, Stripped;
    if o != n {
      var gs := StrippedMeans(n, o, n, tokens);
      forall t | t in tokens ensures Count(n, t) <= Count(o, t) + 1 { assert Added(o, n, t) <= 1; }
    }
  }

  lemma {:induction false} LinesOnlyGained(os: seq<string>, ns: seq<string>, tokens: seq<string>, i: nat)
    requires |os| == |ns| && CheckedLines(os, ns, tokens) == Accepted && i < |os|
    ensures OnlyGained(os[i], ns[i], tokens)
    decreases i
  {
    hide OnlyGained, CheckedLine;
    LineOnlyGained(os[0], ns[0], tokens);
    if i > 0 { LinesOnlyGained(os[1..], ns[1..], tokens, i - 1); }
  }

  /** Whatever the new file came from: once the guard has accepted it, every line is the old line, or an
      `Exec=` line that gained nothing but grants. */
  lemma AcceptedOnlyGained(before: string, after: string, tokens: seq<string>)
    requires Checked(before, after, tokens) == Accepted
    ensures |BareLines(after)| == |BareLines(before)|
    ensures forall i :: 0 <= i < |BareLines(before)| ==> OnlyGained(BareLines(before)[i], BareLines(after)[i], tokens)
  {
    forall i | 0 <= i < |BareLines(before)| ensures OnlyGained(BareLines(before)[i], BareLines(after)[i], tokens) {
      LinesOnlyGained(BareLines(before), BareLines(after), tokens, i);
    }
  }

  // ---------------------------------------------------------------------------
  // Why a file is refused

  lemma {:induction false} AddedTwice(stripped: string, o: string, n: string, tokens: seq<string>)
    ensures Stripped(stripped, o, n, tokens) == None <==> exists t :: t in tokens && Count(n, t) > Count(o, t) + 1
    decreases |tokens|
  {
    hide Count, RemoveFirst;
    if tokens != [] {
      var t := tokens[0];
      var less := if Added(o, n, t) == 1 then RemoveFirst(stripped, " " + t) else stripped;
      AddedTwice(less, o, n, tokens[1..]);
      assert Added(o, n, t) > 1 <==> Count(n, t) > Count(o, t) + 1;
      if u :| u in tokens && Count(n, u) > Count(o, u) + 1 { assert u == t || u in tokens[1..]; }
      if u :| u in tokens[1..] && Count(n, u) > Count(o, u) + 1 { assert u in tokens; }
    }
  }

  /** The reason a changed line is refused for, told from the two lines. */
  lemma RefusalsExactly(o: string, n: string, tokens: seq<string>)
    ensures var v, exec := CheckedLine(o, n, tokens), StartsWith(o, "Exec=");
            var twice := exists t :: t in tokens && Count(n, t) > Count(o, t) + 1;
            && (v == NotAnExecLine <==> o != n && !exec)
            && (v == AddedMoreThanOnce <==> o != n && exec && twice)
            && (v == ChangedBeyondGrants ==> o != n && exec && !twice)
            && v != LineCountChanged
  {
    hide Count, Stripped;
    AddedTwice(n, o, n, tokens);
  }

  /** The first line that is refused decides for the file. */
  lemma FirstRefusalDecides(before: string, after: string, tokens: seq<string>, i: nat)
    requires |BareLines(before)| == |BareLines(after)| && i < |BareLines(before)|
    requires forall j :: 0 <= j < i ==> CheckedLine(BareLines(before)[j], BareLines(after)[j], tokens) == Accepted
    requires CheckedLine(BareLines(before)[i], BareLines(after)[i], tokens) != Accepted
    ensures Checked(before, after, tokens) == CheckedLine(BareLines(before)[i], BareLines(after)[i], tokens)
  {
    FirstRefused(BareLines(before), BareLines(after), tokens, i);
  }

  lemma {:induction false} FirstRefused(os: seq<string>, ns: seq<string>, tokens: seq<string>, i: nat)
    requires |os| == |ns| && i < |os|
    requires forall j :: 0 <= j < i ==> CheckedLine(os[j], ns[j], tokens) == Accepted
    requires CheckedLine(os[i], ns[i], tokens) != Accepted
    ensures CheckedLines(os, ns, tokens) == CheckedLine(os[i], ns[i], tokens)
    decreases i
  {
    hide CheckedLine;
    if i > 0 { FirstRefused(os[1..], ns[1..], tokens, i - 1); }
  }

  // ---------------------------------------------------------------------------
  // What the check does not look at

  /** Texts as lines that end in `e`. */
  function EndedIn(ts: seq<string>, e: string): (r: seq<string>)
    ensures |r| == |ts| && forall i :: 0 <= i < |ts| ==> r[i] == ts[i] + e
  {
    seq(|ts|, i requires 0 <= i < |ts| => ts[i] + e)
  }

  /** Lines of their own: no newline in them, and no carriage return at their end. */
  predicate IsLineText(t: string) {
    '\n' !in t && (t != "" ==> t[|t| - 1] != '\r')
  }

  lemma BareEnded(ts: seq<string>, e: string)
    requires e == "\n" || e == "\r\n"
    requires forall t :: t in ts ==> IsLineText(t)
    ensures BareLines(Flatten(EndedIn(ts, e))) == ts
  {
    var ls := EndedIn(ts, e);
    forall i | 0 <= i < |ls| ensures IsLine(ls[i]) && EndsLine(ls[i]) && Bare(ls[i]) == ts[i] {
      BareOf(ts[i], e);
      assert ts[i] in ts;
    }
    LinesOfFlatten(ls);
  }

  lemma BareOf(t: string, e: string)
    requires e == "\n" || e == "\r\n"
    ensures IsLineText(t) ==> IsLine(t + e) && EndsLine(t + e) && Bare(t + e) == t
  {
    var l := t + e;
    forall i | 0 <= i < |l| - 1 && '\n' !in t ensures l[i] != '\n' {
      if i < |t| { assert l[i] == t[i] && t[i] in t; }
    }
    assert l[..|l| - 1] == t + e[..|e| - 1];
    if e == "\r\n" {
      assert e[..1] == "\r";
      assert (t + "\r")[..|t|] == t;
    } else {
      assert e[..0] == "" && t + "" == t;
    }
  }

  /** The check takes a file with either kind of line ending for the same file: a change of endings alone is
      accepted, and no verdict depends on them. */
  lemma EndingsAreNotCompared(os: seq<string>, ns: seq<string>, tokens: seq<string>)
    requires forall t :: t in os ==> IsLineText(t)
    requires forall t :: t in ns ==> IsLineText(t)
    ensures var (u, d) := (Flatten(EndedIn(os, "\n")), Flatten(EndedIn(os, "\r\n")));
            var (v, e) := (Flatten(EndedIn(ns, "\n")), Flatten(EndedIn(ns, "\r\n")));
            && Checked(u, d, tokens) == Accepted
            && Checked(u, v, tokens) == Checked(u, e, tokens) == Checked(d, v, tokens) == Checked(d, e, tokens)
  {
    hide CheckedLines;
    BareEnded(os, "\n");
    BareEnded(os, "\r\n");
    BareEnded(ns, "\n");
    BareEnded(ns, "\r\n");
    SameLinesAccepted(os, tokens);
  }

  lemma {:induction false} SameLinesAccepted(ls: seq<string>, tokens: seq<string>)
    ensures CheckedLines(ls, ls, tokens) == Accepted
  {
    if ls != [] { SameLinesAccepted(ls[1..], tokens); }
  }
}
