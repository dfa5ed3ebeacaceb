/** Splicing sandbox grants into the `Exec=` lines of a desktop file: the loop, and why running it
    again adds nothing. */
module GrantSplice {
  import opened Text
  import opened DesktopLines
  import opened LaunchSearch

  // ---------------------------------------------------------------------------
  // The edit

  /** The grants as they are inserted: a space before each, in order. */
  function Inserted(ss: seq<string>): string {
    if ss == [] then "" else Inserted(ss[..|ss| - 1]) + " " + ss[|ss| - 1]
  }

  lemma InsertedSnoc(ss: seq<string>, t: string)
    ensures Inserted(ss + [t]) == Inserted(ss) + " " + t
  {
    assert (ss + [t])[..|ss|] == ss;
  }

  /** Which grants the loop places, given that `placed` already stand between `p` and `r`: each one
      that occurs nowhere in the line as it is by then. */
  function Placed(p: string, placed: seq<string>, r: string, tokens: seq<string>): seq<string>
    decreases |tokens|
  {
    if tokens == [] then placed
    else if Contains(p + Inserted(placed) + r, tokens[0]) then Placed(p, placed, r, tokens[1..])
    else Placed(p, placed + [tokens[0]], r, tokens[1..])
  }

  /** The text of one `Exec=` line after the edit. A line with no launch is left alone. */
  function SplicedText(text: string, tokens: seq<string>): string {
    match Launch(text)
    case None => text
    case Some(cut) =>
      if cut <= |text| then text[..cut] + Inserted(Placed(text[..cut], [], text[cut..], tokens)) + text[cut..] else text
  }

  function SplicedLine(line: string, tokens: seq<string>): string {
    if StartsWith(LineText(line), "Exec=") then SplicedText(LineText(line), tokens) + LineEnding(line) else line
  }

  function SplicedLines(ls: seq<string>, tokens: seq<string>): (r: seq<string>)
    ensures |r| == |ls| && forall i :: 0 <= i < |ls| ==> r[i] == SplicedLine(ls[i], tokens)
  {
    seq(|ls|, i requires 0 <= i < |ls| => SplicedLine(ls[i], tokens))
  }

  /** `splice_exec`. */
  function Spliced(body: string, tokens: seq<string>): string {
    Flatten(SplicedLines(Lines(body), tokens))
  }

  /** `insert_str` at the end of what has been placed. */
  lemma InsertBehind(p: string, ins: string, r: string, t: string)
    ensures var s, at := p + ins + r, |p + ins|;
            s[..at] + (" " + t) + s[at..] == p + (ins + " " + t) + r && |p + (ins + " " + t)| == at + |t| + 1
  {
  }

  lemma InsertedNothing()
    ensures Inserted([]) == ""
  {
  }

  /** The token loop of `splice_exec`, on the text of one line. */
  method PatchText(text: string, tokens: seq<string>) returns (patched: string)
    ensures patched == SplicedText(text, tokens)
  {
    hide Launch, OccursAt, Contains, Inserted;
    patched := text;
    var cut := AfterFlatpakRun(patched);
    ghost var c := cut;
    ghost var p, r, placed := text, "", [];
    if cut.Some? {
      ghost var at := LaunchShape(text, cut.value);
      p, r := text[..cut.value], text[cut.value..];
    }
    InsertedNothing();
    assert text == p + "" + r && p + "" == p;
    for i := 0 to |tokens|
      invariant c == Launch(text) && (c.None? <==> cut.None?)
      invariant c.None? ==> patched == text
      invariant c.Some? ==> c.value <= |text| && p == text[..c.value] && r == text[c.value..]
      invariant c.Some? ==> cut == Some(|p + Inserted(placed)|) && patched == p + Inserted(placed) + r
      invariant c.Some? ==> Placed(p, placed, r, tokens[i..]) == Placed(p, [], r, tokens)
    {
      var token := tokens[i];
      assert tokens[i..][0] == token && tokens[i..][1..] == tokens[i + 1..];
      if Find(patched, token).Some? {
        continue;
      }
      if cut.None? { break; }
      var addition := " " + token;
      InsertedSnoc(placed, token);
      InsertBehind(p, Inserted(placed), r, token);
      placed := placed + [token];
      patched := patched[..cut.value] + addition + patched[cut.value..];
      cut := Some(cut.value + |addition|);
    }
  }

  lemma NoLinesSpliced(tokens: seq<string>)
    ensures Flatten(SplicedLines([], tokens)) == ""
  {
  }

  lemma OneMoreSpliced(lines: seq<string>, i: nat, tokens: seq<string>)
    requires i < |lines|
    ensures Flatten(SplicedLines(lines[..i + 1], tokens)) ==
            Flatten(SplicedLines(lines[..i], tokens)) + SplicedLine(lines[i], tokens)
  {
    hide SplicedLine, Flatten;
    assert SplicedLines(lines[..i + 1], tokens) == SplicedLines(lines[..i], tokens) + [SplicedLine(lines[i], tokens)];
    FlattenSnoc(SplicedLines(lines[..i], tokens), SplicedLine(lines[i], tokens));
  }

  /** `splice_exec`: every line in turn, and only `Exec=` lines touched. */
  method SpliceExec(body: string, tokens: seq<string>) returns (out: string)
    ensures out == Spliced(body, tokens)
  {
    hide SplicedText, SplicedLines, LineText, LineEnding, Flatten, StartsWith;
    out := "";
    var lines := SplitKeepingEnds(body);
    NoLinesSpliced(tokens);
    for i := 0 to |lines|
      invariant out == Flatten(SplicedLines(lines[..i], tokens))
    {
      var line := lines[i];
      OneMoreSpliced(lines, i, tokens);
      assert (out + SplicedText(LineText(line), tokens)) + LineEnding(line) ==
          out + (SplicedText(LineText(line), tokens) + LineEnding(line));
      if !StartsWith(LineText(line), "Exec=") {
        out := out + line;
        continue;
      }
      var patched := PatchText(LineText(line), tokens);
      out := out + patched + LineEnding(line);
    }
    assert lines[..|lines|] == lines;
  }

  // ---------------------------------------------------------------------------
  // What a list of grants has to be

  /** Characters that end a word of a launch line, or the line. */
  predicate IsBreak(c: char) {
    IsBlank(c) || c == '\r' || c == '\n'
  }

  /** An end of `a` is the beginning of `t`, and `t` goes on with a break: where `a` is followed by a
      break, `t` could stand across the seam. */
  predicate Joins(a: string, t: string) {
    exists k :: 0 < k <= |a| && JoinsAt(a, t, k)
  }

  predicate JoinsAt(a: string, t: string, k: int) {
    0 < k <= |a| && k < |t| && a[|a| - k..] == t[..k] && IsBreak(t[k])
  }

  /** One grant as it may be spliced: an option, or a double-quoted option; one line; not itself a launch. */
  predicate IsGrant(t: string) {
    t != "" && (t[0] == '-' || t[0] == '"') && '\n' !in t && '\r' !in t && Launch(t).None?
  }

  /** Grants that keep out of each other's seams. Containment of one in another is not excluded. */
  predicate Spliceable(tokens: seq<string>) {
    (forall t :: t in tokens ==> IsGrant(t)) && forall s, t :: s in tokens && t in tokens ==> !Joins(s, t)
  }

  /** `run` is a word of its own, or the launch is not spliced at all. */
  predicate SafeLaunch(text: string) {
    match Launch(text)
    case None => true
    case Some(cut) => cut == |text| || (cut < |text| && IsBreak(text[cut]))
  }

  predicate SafeBody(body: string) {
    forall l :: l in Lines(body) && StartsWith(LineText(l), "Exec=") ==> SafeLaunch(LineText(l))
  }

  /** A word without breaks joins nothing, so plain `--option` grants are always spliceable. */
  predicate IsPlain(t: string) {
    StartsWith(t, "--") && forall i :: 0 <= i < |t| ==> !IsBreak(t[i])
  }

  lemma PlainIsSpliceable(tokens: seq<string>)
    requires forall t :: t in tokens ==> IsPlain(t)
    ensures Spliceable(tokens)
  {
    forall t | t in tokens ensures IsGrant(t) {
      assert t[0] == "--"[0];
      if Launch(t).Some? { LaunchHasBlank(t); }
    }
  }

  lemma LaunchHasBlank(t: string)
    requires Launch(t).Some?
    ensures exists i :: 0 <= i < |t| && IsBreak(t[i])
  {
    var p := LaunchShape(t, Launch(t).value);
    assert IsBreak(t[p + 7]);
  }

  // ---------------------------------------------------------------------------
  // Seams

  /** Where the right-hand side starts with a break, an occurrence that crosses shows as a join. */
  lemma CrossingJoins(a: string, b: string, t: string, i: int)
    requires OccursAt(a + b, t, i)
    requires b == "" || IsBreak(b[0])
    ensures i + |t| <= |a| || i >= |a| || Joins(a, t)
  {
    if i < |a| < i + |t| {
      var k := |a| - i;
      OccursChar(a + b, t, i, k);
      assert a[|a| - k..] == (a + b)[i..i + |t|][..k];
      assert JoinsAt(a, t, k);
    }
  }

  lemma ContainsAcross(a: string, b: string, t: string)
    requires t != "" && !Joins(a, t) && (b == "" || IsBreak(b[0]))
    ensures Contains(a + b, t) <==> Contains(a, t) || Contains(b, t)
  {
    if Contains(a + b, t) {
      var i :| 0 <= i <= |a + b| && OccursAt(a + b, t, i);
      CrossingJoins(a, b, t, i);
      OccursInPrefix(a, b, t, i);
      OccursInSuffix(a, b, t, i);
    }
    assert "" + a + b == a + b && a + b + "" == a + b;
    ContainsWiden("", a, b, t);
    ContainsWiden(a, b, "", t);
  }

  lemma JoinsSpaced(a: string, s: string, t: string)
    requires t != "" && t[0] != ' '
    ensures Joins(a + " " + s, t) ==> Joins(a, t) || Joins(s, t)
  {
    var w := a + " " + s;
    if Joins(w, t) {
      var k :| 0 < k <= |w| && JoinsAt(w, t, k);
      assert t[0] == t[..k][0] == w[|w| - k];
      assert k != |s| + 1;
      if k <= |s| {
        assert s[|s| - k..] == w[|w| - k..];
        assert JoinsAt(s, t, k);
      } else {
        var m := k - |s| - 1;
        var u := w[|w| - k..];
        assert u == a[|a| - m..] + " " + s;
        assert t[m] == u[m] == ' ';
        assert a[|a| - m..] == u[..m] == t[..m];
        assert JoinsAt(a, t, m);
      }
    }
  }

  /** Placed grants keep the seams closed. */
  lemma {:induction false} JoinsPlaced(p: string, ss: seq<string>, t: string)
    requires !Joins(p, t) && (forall s :: s in ss ==> !Joins(s, t)) && t != "" && t[0] != ' '
    ensures !Joins(p + Inserted(ss), t)
  {
    if ss == [] {
      assert p + Inserted(ss) == p;
    } else {
      JoinsPlaced(p, ss[..|ss| - 1], t);
      JoinsSpaced(p + Inserted(ss[..|ss| - 1]), ss[|ss| - 1], t);
      assert p + Inserted(ss) == p + Inserted(ss[..|ss| - 1]) + " " + ss[|ss| - 1];
    }
  }

  /** No grant reaches back over the launch. */
  lemma LaunchJoinsNothing(text: string, cut: nat, t: string)
    requires Launch(text) == Some(cut) && IsGrant(t)
    ensures cut <= |text| && !Joins(text[..cut], t)
  {
    var p := LaunchShape(text, cut);
    var a := text[..cut];
    if Joins(a, t) {
      var k :| 0 < k <= |a| && JoinsAt(a, t, k);
      assert t[0] == t[..k][0] == text[cut - k];
      if cut - k >= p {
        assert false;
      } else {
        LaunchInside(text, t, p, cut - k, k);
      }
    }
  }

  /** A grant holding a copy of the line's launch is itself a launch. */
  lemma LaunchInside(text: string, t: string, p: nat, at: nat, k: nat)
    requires LaunchAt(text, p) && at <= p && k <= |t| && at + k == LaunchEnd(text, p) <= |text|
    requires text[at..at + k] == t[..k]
    ensures Launch(t).Some?
  {
    var q := p - at;
    assert forall i :: 0 <= i < k ==> t[i] == text[at..at + k][i] == text[at + i];
    assert t[q..q + 7] == text[p..p + 7];
    SkipCopied(text, t, p + 7, at, k);
    var g := SkipBlanks(text, p + 7);
    assert t[g - at..g - at + 3] == text[g..g + 3];
    assert LaunchAt(t, q);
    FirstLaunchIsLeftmost(t, 0);
  }

  lemma {:induction false} SkipCopied(text: string, t: string, i: nat, at: nat, k: nat)
    requires at <= i <= |text| && k <= |t| && SkipBlanks(text, i) < at + k <= |text|
    requires forall j :: 0 <= j < k ==> t[j] == text[at + j]
    ensures SkipBlanks(t, i - at) == SkipBlanks(text, i) - at
    decreases |text| - i
  {
    assert t[i - at] == text[i];
    if i < |text| && IsBlank(text[i]) {
      SkipCopied(text, t, i + 1, at, k);
    }
  }

  // ---------------------------------------------------------------------------
  // One line

  /** A launch line split at its cut, ready for any grants of `pool`. */
  ghost predicate Ready(p: string, r: string, pool: seq<string>) {
    Spliceable(pool) && (forall t :: t in pool ==> !Joins(p, t)) && (r == "" || IsBreak(r[0]))
  }

  lemma LaunchReady(text: string, cut: nat, pool: seq<string>)
    requires Launch(text) == Some(cut) && SafeLaunch(text) && Spliceable(pool)
    ensures cut <= |text| && Ready(text[..cut], text[cut..], pool)
  {
    var _ := LaunchShape(text, cut);
    forall t | t in pool ensures !Joins(text[..cut], t) { LaunchJoinsNothing(text, cut, t); }
  }

  /** The text to the left of the rest of the line, and the rest, hold everything the line holds. */
  lemma ContainsPlaced(p: string, ss: seq<string>, r: string, pool: seq<string>, t: string)
    requires Ready(p, r, pool) && t in pool && forall s :: s in ss ==> s in pool
    ensures Contains(p + Inserted(ss) + r, t) <==> Contains(p + Inserted(ss), t) || Contains(r, t)
  {
    JoinsPlaced(p, ss, t);
    ContainsAcross(p + Inserted(ss), r, t);
  }

  lemma {:induction false} PlacedGrows(p: string, ss: seq<string>, r: string, tokens: seq<string>)
      returns (more: seq<string>)
    ensures Placed(p, ss, r, tokens) == ss + more
    ensures forall t :: t in more ==> t in tokens
    decreases |tokens|
  {
    if tokens == [] {
      more := [];
    } else if Contains(p + Inserted(ss) + r, tokens[0]) {
      more := PlacedGrows(p, ss, r, tokens[1..]);
    } else {
      var m := PlacedGrows(p, ss + [tokens[0]], r, tokens[1..]);
      more := [tokens[0]] + m;
      assert ss + [tokens[0]] + m == ss + more;
    }
  }

  lemma {:induction false} InsertedAppend(ss: seq<string>, more: seq<string>)
    ensures Inserted(ss + more) == Inserted(ss) + Inserted(more)
    decreases |more|
  {
    if more == [] {
      assert ss + more == ss;
    } else {
      var n := |more| - 1;
      assert ss + more == (ss + more[..n]) + [more[n]];
      InsertedSnoc(ss + more[..n], more[n]);
      InsertedAppend(ss, more[..n]);
    }
  }

  /** What the line held before a later grant was placed, it still holds after. */
  lemma StillContains(p: string, ss: seq<string>, more: seq<string>, r: string, pool: seq<string>, t: string)
    requires Ready(p, r, pool) && t in pool && forall s :: s in ss ==> s in pool
    requires Contains(p + Inserted(ss) + r, t)
    ensures Contains(p + Inserted(ss + more) + r, t)
  {
    ContainsPlaced(p, ss, r, pool, t);
    InsertedAppend(ss, more);
    ContainsGap(p + Inserted(ss), Inserted(more), r, t);
    assert p + Inserted(ss + more) == p + Inserted(ss) + Inserted(more);
  }

  lemma ContainsGap(a: string, gap: string, b: string, t: string)
    requires Contains(a, t) || Contains(b, t)
    ensures Contains(a + gap + b, t)
  {
    ContainsWiden("", a, gap + b, t);
    assert "" + a + (gap + b) == a + gap + b;
    ContainsWiden(a + gap, b, "", t);
    assert a + gap + b + "" == a + gap + b;
  }

  /** After the loop the line holds every grant. */
  lemma {:induction false} HoldsEveryGrant(p: string, ss: seq<string>, r: string, tokens: seq<string>,
      pool: seq<string>)
    requires Ready(p, r, pool) && (forall s :: s in ss ==> s in pool) && forall t :: t in tokens ==> t in pool
    ensures forall t :: t in tokens ==> Contains(p + Inserted(Placed(p, ss, r, tokens)) + r, t)
    decreases |tokens|
  {
    hide Ready, Contains, Inserted;
    if tokens != [] {
      var t := tokens[0];
      var held := Contains(p + Inserted(ss) + r, t);
      var ss' := if held then ss else ss + [t];
      if !held {
        InsertedSnoc(ss, t);
        ContainsSelf(t);
        ContainsWiden(p + Inserted(ss) + " ", t, r, t);
        assert p + Inserted(ss') + r == p + Inserted(ss) + " " + t + r;
      }
      HoldsEveryGrant(p, ss', r, tokens[1..], pool);
      var more := PlacedGrows(p, ss', r, tokens[1..]);
      StillContains(p, ss', more, r, pool, t);
      forall u | u in tokens ensures Contains(p + Inserted(Placed(p, ss, r, tokens)) + r, u) {
        if u != t { assert u in tokens[1..]; }
      }
    }
  }

  lemma ContainsSelf(t: string)
    ensures Contains(t, t)
  {
    assert OccursAt(t, t, 0);
  }

  lemma {:induction false} NothingToPlace(p: string, r: string, tokens: seq<string>)
    requires forall t :: t in tokens ==> Contains(p + r, t)
    ensures Placed(p, [], r, tokens) == []
    decreases |tokens|
  {
    if tokens != [] {
      assert p + Inserted([]) + r == p + r;
      NothingToPlace(p, r, tokens[1..]);
    }
  }

  /** A patched launch line carries every grant, and patching it again adds nothing. */
  lemma TextIdempotent(text: string, tokens: seq<string>)
    requires SafeLaunch(text) && Spliceable(tokens)
    ensures Launch(text).Some? ==> forall t :: t in tokens ==> Contains(SplicedText(text, tokens), t)
    ensures SplicedText(SplicedText(text, tokens), tokens) == SplicedText(text, tokens)
  {
    if Launch(text).Some? {
      var cut := Launch(text).value;
      LaunchReady(text, cut, tokens);
      HoldsEveryGrant(text[..cut], [], text[cut..], tokens, tokens);
      var n := SplicedText(text, tokens);
      if Launch(n).Some? && Launch(n).value <= |n| {
        var c := Launch(n).value;
        assert n == n[..c] + n[c..] == n[..c] + Inserted([]) + n[c..];
        NothingToPlace(n[..c], n[c..], tokens);
      }
    }
  }

  // ---------------------------------------------------------------------------
  // The whole file

  predicate OneLine(s: string) {
    '\n' !in s && '\r' !in s
  }

  lemma {:induction false} InsertedOneLine(ss: seq<string>)
    requires forall s :: s in ss ==> OneLine(s)
    ensures OneLine(Inserted(ss))
  {
    if ss != [] {
      InsertedOneLine(ss[..|ss| - 1]);
      assert OneLine(ss[|ss| - 1]);
    }
  }

  lemma ExecTextShape(text: string, tokens: seq<string>)
    requires IsText(text) && StartsWith(text, "Exec=") && '\n' !in text && forall t :: t in tokens ==> OneLine(t)
    ensures IsText(SplicedText(text, tokens)) && StartsWith(SplicedText(text, tokens), "Exec=")
    ensures '\n' !in SplicedText(text, tokens)
  {
    if Launch(text).Some? {
      var cut := Launch(text).value;
      var p := LaunchShape(text, cut);
      var placed := PlacedGrows(text[..cut], [], text[cut..], tokens);
      assert [] + placed == placed;
      InsertedOneLine(placed);
      var n := SplicedText(text, tokens);
      assert n == text[..cut] + Inserted(placed) + text[cut..];
      assert n[..5] == text[..5];
      if cut == |text| {
        var i := Inserted(placed);
        if i == "" { assert n == text; } else { assert n[|n| - 1] == i[|i| - 1]; assert i[|i| - 1] in i; }
      } else {
        assert n[|n| - 1] == text[|text| - 1];
      }
    }
  }

  /** A line keeps its terminator, its text is edited, and it is still one line. */
  lemma LineShape(line: string, tokens: seq<string>)
    requires IsLine(line) && forall t :: t in tokens ==> OneLine(t)
    ensures IsLine(SplicedLine(line, tokens)) && (EndsLine(line) ==> EndsLine(SplicedLine(line, tokens)))
    ensures LineEnding(SplicedLine(line, tokens)) == LineEnding(line)
    ensures LineText(SplicedLine(line, tokens)) ==
            if StartsWith(LineText(line), "Exec=") then SplicedText(LineText(line), tokens) else LineText(line)
  {
    hide SplicedText, OneLine;
    if StartsWith(LineText(line), "Exec=") {
      var k := EndingShape(line);
      var text, e := LineText(line), LineEnding(line);
      assert '\n' !in text;
      ExecTextShape(text, tokens);
      var n := SplicedText(text, tokens);
      EndingUnique(n, e, k);
      forall i | 0 <= i < |n + e| - 1 ensures (n + e)[i] != '\n' {
        if i >= |n| { assert e[i - |n|] == line[|text| + i - |n|]; }
      }
      assert e != "" ==> (n + e)[|n + e| - 1] == e[|e| - 1] == line[|line| - 1];
      assert e == "" ==> line[|line| - 1] in text;
    }
  }

  /** `splice_exec` maps over the lines of a file: as many as before, each with its own terminator, and
      a line that is not an `Exec=` line byte for byte. */
  lemma SpliceKeepsLines(body: string, tokens: seq<string>)
    requires forall t :: t in tokens ==> OneLine(t)
    ensures |Lines(Spliced(body, tokens))| == |Lines(body)|
    ensures forall i :: 0 <= i < |Lines(body)| ==>
              var o, n := Lines(body)[i], Lines(Spliced(body, tokens))[i];
              && LineEnding(n) == LineEnding(o)
              && (if StartsWith(LineText(o), "Exec=") then LineText(n) == SplicedText(LineText(o), tokens) else n == o)
    ensures Lines(Spliced(body, tokens)) == SplicedLines(Lines(body), tokens)
  {
    var ls := Lines(body);
    var ns := SplicedLines(ls, tokens);
    forall i | 0 <= i < |ls|
      ensures IsLine(ns[i]) && (EndsLine(ls[i]) ==> EndsLine(ns[i]))
      ensures LineEnding(ns[i]) == LineEnding(ls[i])
      ensures StartsWith(LineText(ls[i]), "Exec=") ==> LineText(ns[i]) == SplicedText(LineText(ls[i]), tokens)
    {
      assert ls[i] in ls;
      LineShape(ls[i], tokens);
    }
    LinesOfFlatten(ns);
  }

  /** Running the edit on its own output changes nothing. */
  lemma SpliceIdempotent(body: string, tokens: seq<string>)
    requires Spliceable(tokens) && SafeBody(body)
    ensures Spliced(Spliced(body, tokens), tokens) == Spliced(body, tokens)
  {
    assert forall t :: t in tokens ==> IsGrant(t);
    SpliceKeepsLines(body, tokens);
    var ls := Lines(body);
    var ns := SplicedLines(ls, tokens);
    forall i | 0 <= i < |ns| ensures SplicedLine(ns[i], tokens) == ns[i] {
      assert ls[i] in ls;
      LineShape(ls[i], tokens);
      if StartsWith(LineText(ls[i]), "Exec=") {
        TextIdempotent(LineText(ls[i]), tokens);
      }
    }
    assert SplicedLines(ns, tokens) == ns;
  }
}
