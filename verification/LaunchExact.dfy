/** The other condition on a launcher: what the edit and the guard do where `run` goes on into a word. */
module LaunchExact {
  import opened Text
  import opened DesktopLines
  import opened LaunchSearch
  import opened GrantSplice
  import opened SpliceExact
  import opened GrantGuard

  // ---------------------------------------------------------------------------
  // The edit, file by file

  lemma PlainIsOneLine(tokens: seq<string>)
    requires AllPlain(tokens)
    ensures forall t :: t in tokens ==> OneLine(t)
  {
    forall t | t in tokens ensures OneLine(t) {
      assert forall i :: 0 <= i < |t| ==> !IsBreak(t[i]);
    }
  }

  /** An edit that is repeated on one line is repeated on the file. */
  lemma RepeatedOnALine(body: string, tokens: seq<string>, i: nat)
    requires AllPlain(tokens) && i < |Lines(body)| && StartsWith(LineText(Lines(body)[i]), "Exec=")
    requires var t := LineText(Lines(body)[i]); SplicedText(SplicedText(t, tokens), tokens) != SplicedText(t, tokens)
    ensures Spliced(Spliced(body, tokens), tokens) != Spliced(body, tokens)
  {
    hide SplicedText, Spliced, Lines, LineText, LineEnding;
    PlainIsOneLine(tokens);
    var once := Spliced(body, tokens);
    SpliceKeepsLines(body, tokens);
    SpliceKeepsLines(once, tokens);
    ExecStays(Lines(body)[i], tokens);
  }

  lemma ExecStays(line: string, tokens: seq<string>)
    requires IsLine(line) && StartsWith(LineText(line), "Exec=") && forall t :: t in tokens ==> OneLine(t)
    ensures StartsWith(SplicedText(LineText(line), tokens), "Exec=")
  {
    hide SplicedText;
    var k := EndingShape(line);
    var text := LineText(line);
    forall j | 0 <= j < |text| ensures text[j] != '\n' { assert text[j] == line[j]; }
    ExecTextShape(text, tokens);
  }

  /** A file settles after one edit, whatever plain grants it is given, exactly when every launch in it ends
      in a break or with its line. */
  lemma FileSettlesExactly(body: string)
    ensures SafeBody(body) <==>
            forall tokens :: AllPlain(tokens) ==> Spliced(Spliced(body, tokens), tokens) == Spliced(body, tokens)
  {
    hide Spliced, SplicedText, SafeLaunch, LineText, Lines, Spliceable;
    if SafeBody(body) {
      forall tokens | AllPlain(tokens) ensures Spliced(Spliced(body, tokens), tokens) == Spliced(body, tokens) {
        PlainIsSpliceable(tokens);
        SpliceIdempotent(body, tokens);
      }
    } else {
      var i := UnsafeLine(body);
      var tokens := UnsafeLaunchRepeats(LineText(Lines(body)[i]));
      RepeatedOnALine(body, tokens, i);
    }
  }

  lemma UnsafeLine(body: string) returns (i: nat)
    requires !SafeBody(body)
    ensures i < |Lines(body)| && StartsWith(LineText(Lines(body)[i]), "Exec=") && !SafeLaunch(LineText(Lines(body)[i]))
  {
    var l :| l in Lines(body) && StartsWith(LineText(l), "Exec=") && !SafeLaunch(LineText(l));
    i :| 0 <= i < |Lines(body)| && Lines(body)[i] == l;
  }

  // ---------------------------------------------------------------------------
  // The guard

  /** Two grants, neither inside the other: the first is an option and the character after the launch, the
      second ends in that option. */
  function Doubling(c: char, n: nat): seq<string> {
    var z := "--" + Repeat('z', n);
    [z + [c], "--" + Repeat('y', n) + z]
  }

  lemma DoublingIsFit(c: char, n: nat)
    requires !IsBreak(c) && n > 0
    ensures AllPlain(Doubling(c, n)) && Independent(Doubling(c, n))
  {
    var z, w := "--" + Repeat('z', n), "--" + Repeat('y', n);
    var t, u := z + [c], w + z;
    forall i | 0 <= i <= |u| ensures !OccursAt(u, t, i) {
      if OccursAt(u, t, i) {
        OccursChar(u, t, i, 2);
      }
    }
    TooLong(t, u);
  }

  /** The run of `y` in the second grant is nowhere on the line once the first stands there. */
  lemma SecondIsNew(p: string, r: string, c: char, n: nat)
    requires |p| < n && |r| + 1 < n
    ensures !Contains(p + Inserted([Doubling(c, n)[0]]) + r, Doubling(c, n)[1])
  {
    var z, u := "--" + Repeat('z', n), Doubling(c, n)[1];
    var m, r' := " " + z, [c] + r;
    InsertedSnoc([], z + [c]);
    assert [] + [z + [c]] == [z + [c]];
    var s := p + m + r';
    assert p + Inserted([z + [c]]) + r == s;
    forall i | 0 <= i <= |s| ensures !OccursAt(s, u, i) {
      if OccursAt(s, u, i) {
        assert u[2..n + 2] == Repeat('y', n);
        var k := RunTouchesMiddle(p, m, r', u, i, 'y', n);
      }
    }
  }

  lemma BothArePlaced(p: string, r: string, c: char, n: nat)
    requires |p + r| + 1 < n
    ensures var ts := Doubling(c, n); Placed(p, [], r, ts) == ts
  {
    hide Contains, Repeat;
    var ts := Doubling(c, n);
    TooLong(p + r, ts[0]);
    SecondIsNew(p, r, c, n);
    PlacedTwoSteps(p, r, ts[0], ts[1]);
  }

  /** The token loop on a list of two. */
  lemma PlacedTwoSteps(p: string, r: string, a: string, b: string)
    requires !Contains(p + r, a) && !Contains(p + Inserted([a]) + r, b)
    ensures Placed(p, [], r, [a, b]) == [a, b]
  {
    assert p + Inserted([]) + r == p + r;
    assert [] + [a] == [a] && [a] + [b] == [a, b] && [a, b][1..] == [b] && [b][1..] == [];
    assert Placed(p, [a], r, [b]) == Placed(p, [a, b], r, []);
  }

  lemma TwoAreCounted(a: string, t: string, b: string, d: string)
    requires t != ""
    ensures Count(a + t + b + t + d, t) >= 2
  {
    var s := a + t + b + t + d;
    var j := |a + t + b|;
    assert s[|a|..|a| + |t|] == t && s[j..j + |t|] == t;
    CountsApart(s, t, |a|, j);
  }

  lemma CountsApart(s: string, t: string, i: nat, j: nat)
    requires t != "" && OccursAt(s, t, i) && OccursAt(s, t, j) && i + |t| <= j
    ensures Count(s, t) >= 2
  {
    hide OccursAt, Contains;
    ThereIs(s, t, i);
    var d := Find(s, t).value + |t|;
    FindFits(s, t, 0);
    OccursShifted(s, t, d, j - d);
    ThereIs(s[d..], t, j - d);
    CountsFirst(s[d..], t);
  }

  lemma ThereIs(s: string, t: string, i: nat)
    requires OccursAt(s, t, i)
    ensures Contains(s, t) && Find(s, t).value <= i
  {
  }

  lemma CountsFirst(s: string, t: string)
    requires t != "" && Contains(s, t)
    ensures Count(s, t) >= 1
  {
  }

  lemma TooLongToCount(s: string, t: string)
    requires |t| > |s|
    ensures Count(s, t) == 0
  {
    assert Find(s, t) == None;
  }

  lemma InsertedTwo(a: string, b: string)
    ensures Inserted([a, b]) == " " + a + " " + b
  {
    InsertedSnoc([], a);
    InsertedSnoc([a], b);
    assert [] + [a] == [a] && [a] + [b] == [a, b];
  }

  /** Where both stand, the second and the character behind it make the first one again. */
  lemma FirstAppearsTwice(p: string, c: char, r: string, n: nat)
    requires r != "" && r[0] == c
    ensures Count(p + Inserted(Doubling(c, n)) + r, Doubling(c, n)[0]) >= 2
  {
    var z, w := "--" + Repeat('z', n), "--" + Repeat('y', n);
    var t, u := z + [c], w + z;
    InsertedTwo(t, u);
    Regroup5(p, z, w, c, r[1..]);
    assert r == [c] + r[1..];
    TwoAreCounted(p + " ", t, " " + w, r[1..]);
  }

  lemma Regroup5(p: string, z: string, w: string, c: char, d: string)
    ensures p + (" " + (z + [c]) + " " + (w + z)) + ([c] + d) == p + " " + (z + [c]) + (" " + w) + (z + [c]) + d
  {
  }

  /** On a line whose launch runs into a word, two independent plain grants that the guard refuses. */
  lemma UnsafeLaunchRefused(text: string, e: string) returns (tokens: seq<string>)
    requires !SafeLaunch(text) && StartsWith(text, "Exec=")
    ensures AllPlain(tokens) && Independent(tokens)
    ensures CheckedLine(text + e, SplicedText(text, tokens) + e, tokens) != Accepted
  {
    hide Count, Contains, Inserted, Placed;
    var cut := Launch(text).value;
    var at := LaunchShape(text, cut);
    var p, r, n := text[..cut], text[cut..], |text + e| + 2;
    var c := r[0];
    tokens := Doubling(c, n);
    DoublingIsFit(c, n);
    assert p + r == text;
    BothArePlaced(p, r, c, n);
    assert p + Inserted(tokens) + r + e == p + Inserted(tokens) + (r + e);
    FirstAppearsTwice(p, c, r + e, n);
    TooLongToCount(text + e, tokens[0]);
    assert (text + e)[..5] == text[..5];
    StrippedRefuses(SplicedText(text, tokens) + e, text + e, tokens);
  }

  lemma StrippedRefuses(n: string, o: string, tokens: seq<string>)
    requires tokens != [] && Added(o, n, tokens[0]) > 1
    ensures Stripped(n, o, n, tokens) == None && n != o
  {
  }

  lemma {:induction false} EveryLineAccepted(os: seq<string>, ns: seq<string>, tokens: seq<string>, i: nat)
    requires |os| == |ns| && i < |os| && CheckedLines(os, ns, tokens) == Accepted
    ensures CheckedLine(os[i], ns[i], tokens) == Accepted
    decreases i
  {
    hide CheckedLine;
    if i > 0 { EveryLineAccepted(os[1..], ns[1..], tokens, i - 1); }
  }

  lemma BareExecLine(line: string, tokens: seq<string>)
    requires IsLine(line) && StartsWith(LineText(line), "Exec=") && forall t :: t in tokens ==> OneLine(t)
    ensures Bare(line) == LineText(line) + Bare(LineEnding(line))
    ensures Bare(SplicedLine(line, tokens)) == SplicedText(LineText(line), tokens) + Bare(LineEnding(line))
  {
    hide SplicedText;
    var k := EndingShape(line);
    var text, e := LineText(line), LineEnding(line);
    assert forall i :: 0 <= i < |e| - 1 ==> e[i] == line[|text| + i];
    forall j | 0 <= j < |text| ensures text[j] != '\n' { assert text[j] == line[j]; }
    BareShape(line, text, e, k);
    ExecTextShape(text, tokens);
    BareShape(SplicedLine(line, tokens), SplicedText(text, tokens), e, k);
  }

  lemma RefusedOnALine(body: string, tokens: seq<string>, i: nat)
    requires AllPlain(tokens) && i < |Lines(body)| && StartsWith(LineText(Lines(body)[i]), "Exec=")
    requires var l := Lines(body)[i];
             var t, e := LineText(l), Bare(LineEnding(l));
             CheckedLine(t + e, SplicedText(t, tokens) + e, tokens) != Accepted
    ensures Checked(body, Spliced(body, tokens), tokens) != Accepted
  {
    hide SplicedText, SplicedLine, Spliced, Lines, LineText, LineEnding, Bare, CheckedLine, CheckedLines;
    PlainIsOneLine(tokens);
    SpliceKeepsLines(body, tokens);
    BareExecLine(Lines(body)[i], tokens);
    var os, ns := BareLines(body), BareLines(Spliced(body, tokens));
    if CheckedLines(os, ns, tokens) == Accepted { EveryLineAccepted(os, ns, tokens, i); }
  }

  /** The guard lets every splice of independent plain grants into a launcher through exactly when every
      launch in it ends in a break or with its line. */
  lemma LauncherAcceptedExactly(body: string)
    ensures SafeBody(body) <==>
            forall tokens :: AllPlain(tokens) && Independent(tokens) ==>
                Checked(body, Spliced(body, tokens), tokens) == Accepted
  {
    hide Checked, CheckedLine, Spliced, SplicedText, SafeLaunch, Independent, LineText, Lines, Bare, Spliceable;
    if SafeBody(body) {
      forall tokens | AllPlain(tokens) && Independent(tokens)
          ensures Checked(body, Spliced(body, tokens), tokens) == Accepted {
        PlainIsSpliceable(tokens);
        GuardAcceptsSplice(body, tokens);
      }
    } else {
      var i := UnsafeLine(body);
      var l := Lines(body)[i];
      var tokens := UnsafeLaunchRefused(LineText(l), Bare(LineEnding(l)));
      RefusedOnALine(body, tokens, i);
    }
  }
}
