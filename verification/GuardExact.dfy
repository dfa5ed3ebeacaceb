/** Which grants the guard lets through on every launcher. */
module GuardExact {
  import opened Text
  import opened DesktopLines
  import opened LaunchSearch
  import opened GrantSplice
  import opened GrantGuard
  import opened SpliceExact
  import opened LaunchExact

  const STEM := "Exec=flatpak run"

  lemma StemLaunch(tail: string)
    requires tail == "" || tail[0] == ' '
    ensures Launch(STEM + tail) == Some(16) && SafeLaunch(STEM + tail)
  {
    var x := STEM + tail;
    assert x[5..12] == "flatpak" && x[13..16] == "run";
    assert x[12] == ' ' && x[13] == 'r';
    assert SkipBlanks(x, 12) == SkipBlanks(x, 13) == 13;
    assert LaunchAt(x, 5);
    forall k | 0 <= k < 5 ensures !LaunchAt(x, k) {
      OccursHead(x, "flatpak", k);
      assert x[k] == STEM[k] != 'f';
    }
    NoLaunchBetween(x, 0, 5);
  }

  /** A launcher of one line, without a newline, is its own only line. */
  lemma OneLineBody(text: string, tokens: seq<string>)
    requires text != "" && OneLine(text)
    ensures Lines(text) == [text] && LineText(text) == text && LineEnding(text) == "" && Bare(text) == text
  {
    assert IsLine(text);
    LinesOfFlatten([text]);
    assert [text][1..] == [];
    assert Flatten([text]) == text + Flatten([]);
    EndingUnique(text, "", 0);
    assert text + "" == text;
  }

  /** On a launcher of one line the guard looks at exactly that line. */
  lemma CheckedOneLine(text: string, n: string, tokens: seq<string>)
    requires text != "" && OneLine(text) && n != "" && OneLine(n)
    ensures Checked(text, n, tokens) == CheckedLine(text, n, tokens)
  {
    OneLineBody(text, tokens);
    OneLineBody(n, tokens);
    assert BareLines(text) == [text] && BareLines(n) == [n];
    assert [text][1..] == [] && [n][1..] == [] && CheckedLines([], [], tokens) == Accepted;
    assert CheckedLines([text], [n], tokens) == CheckedLine(text, n, tokens);
  }

  lemma SplicedOneLine(text: string, tokens: seq<string>)
    requires StartsWith(text, "Exec=") && OneLine(text) && SafeLaunch(text)
    ensures Spliced(text, tokens) == SplicedText(text, tokens) && SafeBody(text)
  {
    OneLineBody(text, tokens);
    var n := SplicedText(text, tokens);
    assert SplicedLine(text, tokens) == n + "" == n;
    assert SplicedLines([text], tokens) == [n];
    assert [n][1..] == [];
    assert Flatten([n]) == n + Flatten([]) == n;
  }

  lemma StemBody(tail: string, tokens: seq<string>)
    requires (tail == "" || tail[0] == ' ') && OneLine(tail) && forall t :: t in tokens ==> OneLine(t)
    ensures var text := STEM + tail;
            && SafeBody(text)
            && Checked(text, Spliced(text, tokens), tokens) == CheckedLine(text, SplicedText(text, tokens), tokens)
  {
    var text := STEM + tail;
    StemLaunch(tail);
    assert text[..5] == "Exec=";
    StemIsLine(tail, tokens);
    SplicedOneLine(text, tokens);
    CheckedOneLine(text, SplicedText(text, tokens), tokens);
  }

  lemma StemIsLine(tail: string, tokens: seq<string>)
    requires (tail == "" || tail[0] == ' ') && OneLine(tail) && forall t :: t in tokens ==> OneLine(t)
    ensures OneLine(STEM + tail) && SplicedText(STEM + tail, tokens) != "" && OneLine(SplicedText(STEM + tail, tokens))
  {
    hide Inserted;
    StemLaunch(tail);
    SplitBehind(STEM, tail);
    var more := PlacedGrows(STEM, [], tail, tokens);
    assert [] + more == more;
    InsertedOneLine(more);
    StemOneLine();
    OneLineParts(STEM, Inserted(more), tail);
    OneLineParts(STEM, "", tail);
  }

  lemma SplitBehind(a: string, b: string)
    ensures (a + b)[..|a|] == a && (a + b)[|a|..] == b && a + "" + b == a + b
  {
  }

  lemma StemOneLine()
    ensures OneLine(STEM) && |STEM| == 16
  {
  }

  lemma OneLineParts(a: string, b: string, c: string)
    requires OneLine(a) && OneLine(b) && OneLine(c)
    ensures OneLine(a + b + c) && a + "" + c == a + c
  {
  }

  /** Nothing in the stem is an option. */
  lemma StemHasNoOption(t: string)
    requires IsPlain(t)
    ensures !Contains(STEM, t) && !Joins(STEM, t)
  {
    assert t[0] == "--"[0];
    forall i | 0 <= i <= 16 ensures !OccursAt(STEM, t, i) { OccursHead(STEM, t, i); }
  }

  lemma ProperlyInside(b: string, a: string)
    requires IsPlain(a) && IsPlain(b) && a != b && Contains(b, a)
    ensures |b| > |a| && !Contains(a, b) && Count(b, a) >= 1
  {
    var i :| 0 <= i <= |b| && OccursAt(b, a, i);
    assert b[i..i + |a|] == a && b[0..|b|] == b;
  }

  /** A line prefix with neither grant in it or reaching into one. */
  ghost predicate Clear(p: string, a: string, b: string) {
    !Contains(p, a) && !Joins(p, a) && !Contains(p, b) && !Joins(p, b)
  }

  lemma PlainPair(p: string, a: string, b: string)
    requires IsPlain(a) && IsPlain(b) && Clear(p, a, b)
    ensures Ready(p, "", [a, b]) && Ready(p, " " + b, [a, b]) && a in [a, b] && b in [a, b]
    ensures IsGrant(a) && IsGrant(b)
  {
    PlainIsSpliceable([a, b]);
  }

  lemma InsertedOne(a: string)
    ensures Inserted([a]) == " " + a
  {
    InsertedSnoc([], a);
    assert [] + [a] == [a];
  }

  lemma PlacedBoth(p: string, a: string, b: string)
    requires IsPlain(a) && IsPlain(b) && a != b && Contains(b, a) && Clear(p, a, b)
    ensures Placed(p, [], "", [a, b]) == [a, b]
  {
    PlainPair(p, a, b);
    ProperlyInside(b, a);
    InsertedOne(a);
    NotInSpaced(a, b);
    ContainsAcross(p, " " + a, b);
    assert p + Inserted([]) + "" == p && p + Inserted([a]) + "" == p + (" " + a);
    assert [] + [a] == [a] && [a] + [b] == [a, b];
    assert [a, b][1..] == [b] && [b][1..] == [];
    assert Placed(p, [a], "", [b]) == Placed(p, [a, b], "", []);
  }

  lemma CountedTwice(p: string, a: string, b: string)
    requires IsPlain(a) && IsPlain(b) && a != b && Contains(b, a) && Clear(p, a, b)
    ensures Added(p, p + Inserted([a, b]), a) > 1
  {
    PlainPair(p, a, b);
    ProperlyInside(b, a);
    CountPlaced(p, [a, b], a);
    CountSelf(a);
    assert [a, b][..1] == [a] && [a][..0] == [];
    assert CountEach([a, b], a) == CountEach([a], a) + Count(b, a);
    assert Count(p, a) == 0;
  }

  /** The second grant holds the first: on a bare launcher the first is counted twice. */
  lemma RefusesInner(a: string, b: string)
    requires IsPlain(a) && IsPlain(b) && a != b && Contains(b, a)
    ensures CheckedLine(STEM, SplicedText(STEM, [a, b]), [a, b]) == AddedMoreThanOnce
  {
    StemHasNoOption(a);
    StemHasNoOption(b);
    StemLaunch("");
    assert STEM + "" == STEM && STEM[..16] == STEM && STEM[16..] == "";
    PlacedBoth(STEM, a, b);
    CountedTwice(STEM, a, b);
    var n := SplicedText(STEM, [a, b]);
    assert n == STEM + Inserted([a, b]);
    assert StartsWith(STEM, "Exec=");
  }

  // ---------------------------------------------------------------------------
  // Any list in which one grant holds another

  lemma PlainJoinsNothing(a: string, t: string)
    requires IsPlain(t)
    ensures !Joins(a, t)
  {
    forall k ensures !JoinsAt(a, t, k) {}
  }

  function Total(tokens: seq<string>): nat {
    if tokens == [] then 0 else |tokens[0]| + Total(tokens[1..])
  }

  lemma {:induction false} TotalBounds(tokens: seq<string>, t: string)
    requires t in tokens
    ensures |t| <= Total(tokens)
  {
    if t != tokens[0] { TotalBounds(tokens[1..], t); }
  }

  lemma HolderIsLonger(c: string, b: string)
    requires Contains(c, b) && c != b
    ensures |b| < |c|
  {
    var i :| 0 <= i <= |c| && OccursAt(c, b, i);
    assert c[0..|c|] == c;
  }

  /** A grant that holds another one and that no further one holds. */
  lemma {:induction false} Outermost(tokens: seq<string>, c: string, b: string) returns (c': string, b': string)
    requires c in tokens && b in tokens && c != b && Contains(c, b)
    ensures c' in tokens && b' in tokens && c' != b' && Contains(c', b')
    ensures forall t :: t in tokens && t != c' ==> !Contains(t, c')
    decreases Total(tokens) - |c|
  {
    if d :| d in tokens && d != c && Contains(d, c) {
      HolderIsLonger(d, c);
      TotalBounds(tokens, d);
      c', b' := Outermost(tokens, d, c);
    } else {
      c', b' := c, b;
    }
  }

  /** Every grant but `c`. */
  function Others(tokens: seq<string>, c: string): seq<string> {
    if tokens == [] then [] else (if tokens[0] == c then [] else [tokens[0]]) + Others(tokens[1..], c)
  }

  lemma {:induction false} OthersAre(tokens: seq<string>, c: string)
    ensures forall t :: t in Others(tokens, c) <==> t in tokens && t != c
  {
    if tokens != [] { OthersAre(tokens[1..], c); }
  }

  lemma {:induction false} PlacedNoMore(p: string, ss: seq<string>, r: string, tokens: seq<string>)
    requires forall t :: t in tokens ==> Contains(p + Inserted(ss) + r, t)
    ensures Placed(p, ss, r, tokens) == ss
    decreases |tokens|
  {
    hide Contains;
    if tokens != [] { PlacedNoMore(p, ss, r, tokens[1..]); }
  }

  /** A line that has all the grants but one gains that one. */
  lemma {:induction false} PlacedOnly(p: string, r: string, tokens: seq<string>, c: string)
    requires c in tokens && !Contains(p + r, c)
    requires forall t :: t in tokens && t != c ==> Contains(r, t)
    ensures Placed(p, [], r, tokens) == [c]
    decreases |tokens|
  {
    hide Contains;
    assert p + Inserted([]) + r == p + r && [] + [c] == [c];
    if tokens[0] == c {
      InsertedOne(c);
      forall t | t in tokens[1..] ensures Contains(p + Inserted([c]) + r, t) {
        assert t in tokens;
        if t == c { PlacedIsThere(p, c, r); } else { ContainsGap(p, Inserted([c]), r, t); }
      }
      PlacedNoMore(p, [c], r, tokens[1..]);
    } else {
      ContainsGap(p, "", r, tokens[0]);
      assert p + "" + r == p + r;
      assert c in tokens[1..];
      PlacedOnly(p, r, tokens[1..], c);
    }
  }

  lemma PlacedIsThere(p: string, c: string, r: string)
    ensures Contains(p + Inserted([c]) + r, c)
  {
    InsertedHolds(p, [c], r, c);
  }

  // What the guard takes out again

  function Blanks(s: string): nat {
    multiset(s)[' ']
  }

  lemma RemovalCosts(s: string, t: string)
    requires IsPlain(t) && Contains(s, " " + t)
    ensures |RemoveFirst(s, " " + t)| == |s| - |t| - 1 && Blanks(RemoveFirst(s, " " + t)) == Blanks(s) - 1
  {
    var i := Find(s, " " + t).value;
    var a, b := s[..i], s[i + 1 + |t|..];
    assert s == a + ([' '] + t) + b;
    assert forall k :: 0 <= k < |t| ==> !IsBreak(t[k]);
    assert ' ' !in t;
    assert multiset(s) == multiset(a) + multiset([' ']) + multiset(t) + multiset(b);
    assert multiset(a + b) == multiset(a) + multiset(b);
  }

  /** Not the old line, and without the blanks to become it again. */
  predicate Lost(stripped: string, o: string) {
    stripped != o && Blanks(stripped) <= Blanks(o)
  }

  lemma {:induction false} LostForever(stripped: string, o: string, n: string, tokens: seq<string>)
    requires AllPlain(tokens) && Lost(stripped, o)
    ensures Stripped(stripped, o, n, tokens) != Some(o)
    decreases |tokens|
  {
    hide Added, RemoveFirst, Blanks, Contains, IsPlain;
    if tokens != [] {
      var t := tokens[0];
      var next := RemoveFirst(stripped, " " + t);
      NothingRemoved(stripped, t);
      if Contains(stripped, " " + t) { RemovalCosts(stripped, t); }
      LostForever(next, o, n, tokens[1..]);
      LostForever(stripped, o, n, tokens[1..]);
    }
  }

  lemma NothingRemoved(s: string, t: string)
    ensures !Contains(s, " " + t) ==> RemoveFirst(s, " " + t) == s
  {
  }

  /** `b` stands at `x` as a word of its own. */
  predicate WordAt(s: string, b: string, x: nat) {
    OccursAt(s, " " + b, x) && (x + 1 + |b| == |s| || s[x + 1 + |b|] == ' ')
  }

  lemma WordIsThere(s: string, b: string, x: nat)
    requires WordAt(s, b, x)
    ensures Contains(s, " " + b)
  {
  }

  lemma {:induction false} InsertedWord(p: string, us: seq<string>, b: string) returns (x: nat)
    requires b in us
    ensures WordAt(p + Inserted(us), b, x)
    decreases |us|
  {
    var init, u := us[..|us| - 1], us[|us| - 1];
    var a, s := p + Inserted(init), p + Inserted(us);
    assert s == a + (" " + u);
    if u == b {
      x := |a|;
      assert s[x..x + |" " + b|] == " " + b;
    } else {
      x := InsertedWord(p, init, b);
      OccursInPrefix(a, " " + u, " " + b, x);
      assert s[|a|] == ' ' && forall k :: 0 <= k < |a| ==> s[k] == a[k];
    }
  }

  /** Taking a longer option out of the line leaves the word alone. */
  lemma WordSurvives(s: string, b: string, x: nat, t: string)
    requires IsPlain(b) && IsPlain(t) && |t| > |b| && WordAt(s, b, x) && Contains(s, " " + t)
    ensures Contains(RemoveFirst(s, " " + t), " " + b)
  {
    var i := Find(s, " " + t).value;
    WordsKeepApart(s, b, x, t, i);
    SurvivesCut(s, " " + b, x, i, 1 + |t|);
  }

  /** What stands clear of a cut is there after it. */
  lemma SurvivesCut(s: string, w: string, x: nat, i: nat, n: nat)
    requires OccursAt(s, w, x) && i + n <= |s| && (x + |w| <= i || i + n <= x)
    ensures Contains(s[..i] + s[i + n..], w)
  {
    var l, r := s[..i], s[i + n..];
    var y := if x + |w| <= i then x else x - n;
    assert (l + r)[y..y + |w|] == s[x..x + |w|];
    assert OccursAt(l + r, w, y);
  }

  lemma WordsKeepApart(s: string, b: string, x: nat, t: string, i: nat)
    requires IsPlain(b) && IsPlain(t) && |t| > |b| && WordAt(s, b, x) && OccursAt(s, " " + t, i)
    ensures x + 1 + |b| <= i || i + 1 + |t| <= x
  {
    hide OccursAt;
    NoBlankInside(s, t, i, x);
    NoBlankInside(s, b, x, i);
    NoBlankInside(s, t, i, i + 1 + |b|);
    OccursHead(s, " " + b, x);
    OccursHead(s, " " + t, i);
  }

  /** No blank stands inside a plain grant. */
  lemma NoBlankInside(s: string, t: string, i: nat, x: nat)
    requires IsPlain(t) && OccursAt(s, " " + t, i)
    ensures i + 1 + |t| <= |s| && (i < x < i + 1 + |t| ==> s[x] != ' ')
  {
    if i < x < i + 1 + |t| { OccursChar(s, " " + t, i, x - i); }
  }

  /** Nothing taken out yet and `b` a word of the line, or one grant taken out and `b` still to be had. */
  predicate Owed(stripped: string, o: string, n: string, b: string, x: nat) {
    (stripped == n && WordAt(n, b, x)) || (Blanks(stripped) == Blanks(o) && Contains(stripped, " " + b))
  }

  lemma OwedStep(stripped: string, o: string, n: string, b: string, x: nat, t: string)
    requires IsPlain(b) && IsPlain(t) && Owed(stripped, o, n, b, x)
    requires Blanks(n) == Blanks(o) + 1 && |n| - |o| > |b| + 1
    ensures Owed(RemoveFirst(stripped, " " + t), o, n, b, x) || Lost(RemoveFirst(stripped, " " + t), o)
    ensures t == b ==> Lost(RemoveFirst(stripped, " " + t), o)
  {
    hide RemoveFirst, Blanks, Contains, WordAt, IsPlain;
    NothingRemoved(stripped, t);
    if stripped == n && WordAt(n, b, x) { WordIsThere(n, b, x); }
    if Contains(stripped, " " + t) {
      RemovalCosts(stripped, t);
      if stripped == n && WordAt(n, b, x) && |t| == |n| - |o| - 1 { WordSurvives(n, b, x, t); }
    }
  }

  /** As long as `b` is owed and counted, the old line does not come back. */
  lemma {:induction false} NeverRestored(stripped: string, o: string, n: string, tokens: seq<string>, b: string, x: nat)
    requires AllPlain(tokens) && b in tokens && Added(o, n, b) >= 1 && Owed(stripped, o, n, b, x)
    requires Blanks(n) == Blanks(o) + 1 && |n| - |o| > |b| + 1
    ensures Stripped(stripped, o, n, tokens) != Some(o)
    decreases |tokens|
  {
    hide Added, RemoveFirst, Owed, Lost, Blanks, IsPlain;
    var t := tokens[0];
    if Added(o, n, t) == 1 {
      var next := RemoveFirst(stripped, " " + t);
      OwedStep(stripped, o, n, b, x, t);
      if Lost(next, o) {
        LostForever(next, o, n, tokens[1..]);
      } else {
        NeverRestored(next, o, n, tokens[1..], b, x);
      }
    } else if Added(o, n, t) == 0 {
      NeverRestored(stripped, o, n, tokens[1..], b, x);
    }
  }

  lemma CountsInner(p: string, c: string, b: string, us: seq<string>)
    requires IsPlain(c) && IsPlain(b) && Contains(c, b)
    ensures var r := Inserted(us); Added(p + r, p + Inserted([c]) + r, b) >= 1
  {
    hide Count;
    var r, pool := Inserted(us), [c, b];
    InsertedHead(us);
    PlainIsSpliceable(pool);
    forall t | t in pool ensures !Joins(p, t) { PlainJoinsNothing(p, t); }
    assert c in pool && b in pool;
    CountLine(p, [c], r, pool, b);
    assert [c][..0] == [] && CountEach([], b) == 0;
    assert CountEach([c], b) == Count(c, b);
    HeldCounts(c, b);
  }

  lemma HeldCounts(c: string, b: string)
    requires Contains(c, b)
    ensures Count(c, b) >= 1
  {
  }

  lemma {:induction false} InsertedHead(us: seq<string>)
    ensures Inserted(us) == "" || Inserted(us)[0] == ' '
  {
    if us != [] { InsertedHead(us[..|us| - 1]); }
  }

  /** On a line that has every grant but the outermost, the guard does not find the old line again. */
  lemma NotRestored(p: string, tokens: seq<string>, c: string, b: string)
    requires AllPlain(tokens) && c in tokens && b in tokens && c != b && Contains(c, b)
    ensures var r := Inserted(Others(tokens, c));
            Stripped(p + Inserted([c]) + r, p + r, p + Inserted([c]) + r, tokens) != Some(p + r)
  {
    hide Stripped, Added, Inserted, Others, WordAt, IsPlain, Contains;
    var us := Others(tokens, c);
    var r := Inserted(us);
    var o, n := p + r, p + Inserted([c]) + r;
    OthersAre(tokens, c);
    HolderIsLonger(c, b);
    CountsInner(p, c, b, us);
    InsertedOne(c);
    OneBlankMore(p, c, r);
    var x := InsertedWord(p + Inserted([c]), us, b);
    NeverRestored(n, o, n, tokens, b, x);
  }

  lemma OneBlankMore(p: string, c: string, r: string)
    requires IsPlain(c)
    ensures Blanks(p + (" " + c) + r) == Blanks(p + r) + 1
  {
    assert forall k :: 0 <= k < |c| ==> !IsBreak(c[k]);
    assert ' ' !in c;
    assert multiset(p + ([' '] + c) + r) == multiset(p) + multiset([' ']) + multiset(c) + multiset(r);
    assert multiset(p + r) == multiset(p) + multiset(r);
  }

  /** A launcher that has every grant but the outermost: the splice adds that one, and the guard refuses. */
  lemma RefusesNested(tokens: seq<string>, c: string, b: string)
    requires AllPlain(tokens) && c in tokens && b in tokens && c != b && Contains(c, b)
    requires forall t :: t in tokens && t != c ==> !Contains(t, c)
    ensures var o := STEM + Inserted(Others(tokens, c));
            CheckedLine(o, SplicedText(o, tokens), tokens) != Accepted
  {
    hide Stripped, Inserted, Others, Contains, IsPlain, Launch;
    var us := Others(tokens, c);
    var r := Inserted(us);
    var o := STEM + r;
    OthersAre(tokens, c);
    InsertedHead(us);
    StemLaunch(r);
    StemOneLine();
    SplitBehind(STEM, r);
    OnlyOuterMissing(tokens, c);
    PlacedOnly(STEM, r, tokens, c);
    InsertedOne(c);
    NotRestored(STEM, tokens, c, b);
    assert SplicedText(o, tokens) == STEM + Inserted([c]) + r;
    assert |SplicedText(o, tokens)| > |o|;
  }

  lemma OnlyOuterMissing(tokens: seq<string>, c: string)
    requires AllPlain(tokens) && c in tokens && forall t :: t in tokens && t != c ==> !Contains(t, c)
    ensures var r := Inserted(Others(tokens, c));
            !Contains(STEM + r, c) && forall t :: t in tokens && t != c ==> Contains(r, t)
  {
    var us := Others(tokens, c);
    var r := Inserted(us);
    OthersAre(tokens, c);
    StemHasNoOption(c);
    forall u | u in us ensures !Contains(u, c) && !Joins(u, c) { PlainJoinsNothing(u, c); }
    assert c[0] == "--"[0];
    NotAmong(STEM, us, c);
    forall t | t in tokens && t != c ensures Contains(r, t) {
      InsertedHolds("", us, "", t);
      assert "" + r + "" == r;
    }
  }

  /** A list of plain grants passes the guard on every launcher the splice can be given exactly when none
      of them occurs inside another. */
  lemma AcceptedExactly(tokens: seq<string>)
    requires AllPlain(tokens)
    ensures Independent(tokens) <==>
            forall body :: SafeBody(body) ==> Checked(body, Spliced(body, tokens), tokens) == Accepted
  {
    hide Checked, CheckedLine, Spliced, SplicedText, SafeBody, Inserted, Others, Contains, IsPlain;
    PlainIsSpliceable(tokens);
    if Independent(tokens) {
      forall body | SafeBody(body) ensures Checked(body, Spliced(body, tokens), tokens) == Accepted {
        GuardAcceptsSplice(body, tokens);
      }
    } else {
      var s, t :| s in tokens && t in tokens && s != t && Contains(s, t);
      var c, b := Outermost(tokens, s, t);
      RefusesNested(tokens, c, b);
      var us := Others(tokens, c);
      OthersAre(tokens, c);
      PlainIsOneLine(tokens);
      InsertedOneLine(us);
      InsertedHead(us);
      StemBody(Inserted(us), tokens);
    }
  }
}
