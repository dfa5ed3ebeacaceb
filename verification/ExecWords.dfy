/** What a spliced launcher means to the program that starts it: the words of its `Exec` value. */
module ExecWords {
  import opened Text
  import opened LaunchSearch
  import opened GrantSplice
  import opened GrantGuard
  import opened Quoting
  import opened ExecValue
  import opened GuardExact

  // ---------------------------------------------------------------------------
  // Words of the patched line

  predicate Printable(arg: string) {
    arg != "" && '\n' !in arg
  }

  /** In the middle of an unquoted word, or just after one that is complete. */
  predicate AtWordEnd(r: Reader<DesktopMode>) {
    r.mode == Plain || r.mode == Closed
  }

  /** Each placed argument ends the word before it and becomes the word under way. */
  lemma {:induction false} ReadsInserted(args: seq<string>, r: Reader<DesktopMode>)
    requires AtWordEnd(r) && forall a :: a in args ==> Printable(a)
    ensures var r' := DesktopRun(Inserted(DesktopQuoteAll(args)), r);
            r'.Some? && AtWordEnd(r'.value) && r'.value.words + [r'.value.cur] == r.words + [r.cur] + args
    decreases |args|
  {
    hide DesktopRun, DesktopStep, DesktopQuote, Printable;
    var qs := DesktopQuoteAll(args);
    if args == [] {
      ReadsNothing(r);
      assert qs == [];
      assert r.words + [r.cur] + args == r.words + [r.cur];
    } else {
      var n := |args| - 1;
      var rest, a := args[..n], args[n];
      assert qs[..n] == DesktopQuoteAll(rest);
      ReadsInserted(rest, r);
      var mid := DesktopRun(Inserted(qs[..n]), r).value;
      ReadsOneMore(mid, a);
      DesktopRunAppend(Inserted(qs[..n]), " " + qs[n], r);
      assert Inserted(qs) == Inserted(qs[..n]) + (" " + qs[n]);
      assert r.words + [r.cur] + args == r.words + [r.cur] + rest + [a];
    }
  }

  lemma ReadsNothing(r: Reader<DesktopMode>)
    ensures DesktopRun("", r) == Some(r)
  {
  }

  lemma ReadsOneMore(r: Reader<DesktopMode>, a: string)
    requires AtWordEnd(r) && Printable(a)
    ensures var r' := DesktopRun(" " + DesktopQuote(a), r);
            r'.Some? && AtWordEnd(r'.value) && r'.value.words == r.words + [r.cur] && r'.value.cur == a
  {
    DesktopReadsQuoted(a, r.words + [r.cur]);
    assert (" " + DesktopQuote(a))[1..] == DesktopQuote(a);
  }

  /** From the end of a word the reader goes on as it would with any other words behind it. */
  lemma {:induction false} ReadsBehind(s: string, r1: Reader<DesktopMode>, r2: Reader<DesktopMode>, a: seq<string>,
      b: seq<string>)
    requires r1.mode == r2.mode && r1.cur == r2.cur
    requires |a| <= |r1.words| && r1.words == a + r1.words[|a|..] && r2.words == b + r1.words[|a|..]
    ensures var f1, f2 := DesktopFinish(DesktopRun(s, r1)), DesktopFinish(DesktopRun(s, r2));
            f1.Some? == f2.Some? && (f1.Some? ==> exists w :: f1.value == a + w && f2.value == b + w)
    decreases |s|
  {
    var w := r1.words[|a|..];
    if s == "" {
      assert r1.words + [r1.cur] == a + (w + [r1.cur]) && r2.words + [r2.cur] == b + (w + [r1.cur]);
    } else {
      var n1, n2 := DesktopStep(r1, s[0]), DesktopStep(r2, s[0]);
      if n1.Some? {
        var w' := n1.value.words[|a|..];
        assert n1.value.words == a + w' && n2.value.words == b + w';
        ReadsBehind(s[1..], n1.value, n2.value, a, b);
      }
    }
  }

  /** By the quoting rule: where the text left of the cut ends on a word and the rest starts with a space,
      inserting printed arguments adds exactly those arguments to the words, right after that word. */
  lemma InsertAddsWords(p: string, args: seq<string>, r: string)
    requires forall a :: a in args ==> Printable(a)
    requires var s := DesktopRun(p, Reader([], "", Outside)); s.Some? && AtWordEnd(s.value)
    requires (r == "" || r[0] == ' ') && DesktopWords(p + r).Some?
    ensures exists before, after ::
              DesktopWords(p) == Some(before) && DesktopWords(p + r) == Some(before + after) &&
              DesktopWords(p + Inserted(DesktopQuoteAll(args)) + r) == Some(before + args + after)
  {
    var start := Reader([], "", Outside);
    var s := DesktopRun(p, start).value;
    var before := s.words + [s.cur];
    var ins := Inserted(DesktopQuoteAll(args));
    assert DesktopWords(p) == Some(before);
    DesktopRunAppend(p, r, start);
    DesktopRunAppend(p, ins, start);
    DesktopRunAppend(p + ins, r, start);
    ReadsInserted(args, s);
    var t := DesktopRun(ins, s).value;
    if r == "" {
      assert p + r == p && p + ins + r == p + ins;
      assert before + [] == before && before + args + [] == before + args;
      assert DesktopWords(p + r) == Some(before + []);
    } else {
      var s1, t1 := Reader(before, "", Outside), Reader(before + args, "", Outside);
      assert DesktopStep(s, ' ') == Some(s1) && DesktopStep(t, ' ') == Some(t1);
      assert s1.words[|before|..] == [] && before + [] == before && before + args + [] == before + args;
      ReadsBehind(r[1..], s1, t1, before, before + args);
    }
  }

  // ---------------------------------------------------------------------------
  // Which arguments are added

  /** The arguments whose printed form the line does not hold, in the order given. */
  function Missing(text: string, args: seq<string>): seq<string> {
    if args == [] then []
    else if Contains(text, DesktopQuote(args[0])) then Missing(text, args[1..])
    else [args[0]] + Missing(text, args[1..])
  }

  lemma {:induction false} MissingAre(text: string, args: seq<string>)
    ensures forall a :: a in Missing(text, args) <==> a in args && !Contains(text, DesktopQuote(a))
  {
    if args != [] { MissingAre(text, args[1..]); }
  }

  /** Placing other grants does not make the line hold this one. */
  lemma HeldAsBefore(p: string, ss: seq<string>, r: string, pool: seq<string>, t: string)
    requires Ready(p, r, pool) && Independent(pool) && t in pool && t !in ss && forall s :: s in ss ==> s in pool
    ensures Contains(p + Inserted(ss) + r, t) <==> Contains(p + r, t)
  {
    ContainsAcross(p, r, t);
    ContainsPlaced(p, ss, r, pool, t);
    if Contains(p, t) {
      ContainsGap(p, Inserted(ss), "", t);
      assert p + Inserted(ss) + "" == p + Inserted(ss);
    } else {
      NotInPlaced(p, ss, pool, t);
    }
  }

  lemma QuoteIsInjective(a: string, b: string)
    requires Printable(a) && Printable(b) && DesktopQuote(a) == DesktopQuote(b)
    ensures a == b
  {
    DesktopQuoteReadsBack(a);
    DesktopQuoteReadsBack(b);
  }

  /** The placed grants are the printed missing arguments, in the order they were given. */
  lemma {:induction false} PlacedAreMissing(p: string, ss: seq<string>, r: string, args: seq<string>, pool: seq<string>)
    requires Ready(p, r, pool) && Independent(pool) && Distinct(args)
    requires forall s :: s in ss ==> s in pool
    requires forall a :: a in args ==> Printable(a) && DesktopQuote(a) in pool && DesktopQuote(a) !in ss
    ensures Placed(p, ss, r, DesktopQuoteAll(args)) == ss + DesktopQuoteAll(Missing(p + r, args))
    decreases |args|
  {
    if args == [] {
      assert DesktopQuoteAll(args) == [];
      assert ss + [] == ss;
    } else {
      var a, rest := args[0], args[1..];
      var t := DesktopQuote(a);
      assert DesktopQuoteAll(args)[1..] == DesktopQuoteAll(rest);
      HeldAsBefore(p, ss, r, pool, t);
      var held := Contains(p + r, t);
      forall b | b in rest ensures DesktopQuote(b) != t {
        assert b in args && b != a;
        if DesktopQuote(b) == t { QuoteIsInjective(a, b); }
      }
      PlacedAreMissing(p, if held then ss else ss + [t], r, rest, pool);
      if !held {
        QuoteAllCons(a, Missing(p + r, rest));
        Regrouped(ss, t, DesktopQuoteAll(Missing(p + r, rest)));
      }
    }
  }

  lemma QuoteAllCons(a: string, m: seq<string>)
    ensures DesktopQuoteAll([a] + m) == [DesktopQuote(a)] + DesktopQuoteAll(m)
  {
  }

  lemma Regrouped(ss: seq<string>, t: string, m: seq<string>)
    ensures ss + [t] + m == ss + ([t] + m)
  {
  }

  /** `run` ends an unquoted word of the value, and a space or nothing follows it. */
  predicate RunIsAWord(text: string, keeps: bool) {
    StartsWith(text, "Exec=") && Launch(text).Some? && 5 <= Launch(text).value <= |text| &&
    var cut := Launch(text).value;
    var p := Unescaped(text[5..cut], keeps);
    p.Some? && EndsAWord(p.value) && (cut == |text| || text[cut] == ' ')
  }

  predicate EndsAWord(p: string) {
    var s := DesktopRun(p, Reader([], "", Outside));
    s.Some? && s.value.mode == Plain
  }

  // ---------------------------------------------------------------------------
  // From the file to the program

  /** Printed arguments that survive are read off the file as they stand there. */
  lemma {:induction false} InsertedIsRead(args: seq<string>, keeps: bool)
    requires forall a :: a in args ==> Survives(a, keeps)
    ensures var ins := Inserted(DesktopQuoteAll(args));
            Unescaped(ins, keeps) == Some(ins) && (ins == "" || ins[|ins| - 1] != '\\')
    decreases |args|
  {
    hide Survives, DesktopQuote, Unescaped;
    var qs := DesktopQuoteAll(args);
    if args == [] {
      assert qs == [];
      NoEscapes("", keeps);
    } else {
      var n := |args| - 1;
      assert qs[..n] == DesktopQuoteAll(args[..n]);
      InsertedIsRead(args[..n], keeps);
      SurvivorsAreRead(args[n], keeps);
      QuoteEndsPlain(args[n], keeps);
      NoEscapes(" ", keeps);
      UnescapedAppend(" ", qs[n], keeps);
      UnescapedAppend(Inserted(qs[..n]), " " + qs[n], keeps);
      assert Inserted(qs) == Inserted(qs[..n]) + (" " + qs[n]);
    }
  }

  lemma QuoteEndsPlain(a: string, keeps: bool)
    requires Survives(a, keeps)
    ensures DesktopQuote(a) != "" && DesktopQuote(a)[|DesktopQuote(a)| - 1] != '\\'
  {
    if !NeedsQuotes(a) { assert !Reserved(a[|a| - 1]); }
  }

  lemma RestIsRead(r: string, keeps: bool)
    requires (r == "" || r[0] == ' ') && Unescaped(r, keeps).Some?
    ensures var v := Unescaped(r, keeps).value; v == "" || v[0] == ' '
  {
  }

  /** The value before and after the insertion, as it is read off the file. */
  lemma ValueIsRead(p: string, args: seq<string>, r: string, keeps: bool)
    requires p == "" || p[|p| - 1] != '\\'
    requires Unescaped(p, keeps).Some? && Unescaped(p + r, keeps).Some? && forall a :: a in args ==> Survives(a, keeps)
    ensures Unescaped(r, keeps).Some?
    ensures var p', r', ins := Unescaped(p, keeps).value, Unescaped(r, keeps).value, Inserted(DesktopQuoteAll(args));
            Unescaped(p + r, keeps) == Some(p' + r') && Unescaped(p + ins + r, keeps) == Some(p' + ins + r')
  {
    hide Survives, Unescaped, Inserted;
    var ins := Inserted(DesktopQuoteAll(args));
    InsertedIsRead(args, keeps);
    UnescapedAppend(p, r, keeps);
    UnescapedAppend(p, ins, keeps);
    assert ins == "" ==> p + ins == p;
    LastOf(p, ins);
    UnescapedAppend(p + ins, r, keeps);
  }

  lemma LastOf(a: string, b: string)
    ensures b != "" ==> (a + b)[|a + b| - 1] == b[|b| - 1]
    ensures b == "" ==> a + b == a
  {
  }

  lemma WordsExpand(before: seq<string>, m: seq<string>, after: seq<string>, codes: FieldCodes)
    requires ExpandWords(before + after, codes).Some? && forall a :: a in m ==> '%' !in a
    ensures exists b, a ::
              ExpandWords(before, codes) == Some(b) && ExpandWords(before + after, codes) == Some(b + a) &&
              ExpandWords(before + m + after, codes) == Some(b + m + a)
  {
    hide ExpandWords;
    ExpandAppend(before, after, codes);
    ExpandAppend(before, m, codes);
    ExpandAppend(before + m, after, codes);
    ExpandPlain(m, codes);
    var b, a := ExpandWords(before, codes).value, ExpandWords(after, codes).value;
    assert ExpandWords(before, codes) == Some(b) && ExpandWords(before + after, codes) == Some(b + a);
    assert ExpandWords(before + m + after, codes) == Some(b + m + a);
  }

  /** Splicing printed arguments that survive into a launcher adds to what the program is started with
      exactly those whose printed form the line did not hold, in order, right behind what it is started with up
      to `run`; every argument it had is still there, and so is what the launcher fills in. */
  lemma LauncherGainsMissing(text: string, args: seq<string>, keeps: bool, codes: FieldCodes)
    requires RunIsAWord(text, keeps) && LaunchWords(text[5..], keeps, codes).Some?
    requires Distinct(args) && forall a :: a in args ==> Survives(a, keeps)
    requires Spliceable(DesktopQuoteAll(args)) && Independent(DesktopQuoteAll(args))
    ensures exists before, after ::
              LaunchWords(text[5..Launch(text).value], keeps, codes) == Some(before) &&
              LaunchWords(text[5..], keeps, codes) == Some(before + after) &&
              LaunchWords(SplicedText(text, DesktopQuoteAll(args))[5..], keeps, codes) ==
              Some(before + Missing(text, args) + after)
  {
    hide Inserted, Unescaped, DesktopWords, DesktopQuote, ExpandWords, Missing, SplicedText, Spliceable, Independent;
    var cut, m := Launch(text).value, Missing(text, args);
    var p, r, ins := text[5..cut], text[cut..], Inserted(DesktopQuoteAll(m));
    MissingAre(text, args);
    SplicedMissing(text, args);
    ValueParts(text, cut, ins);
    RunEndsPlain(text, cut);
    ValueIsRead(p, m, r, keeps);
    RestIsRead(r, keeps);
    var p', r' := Unescaped(p, keeps).value, Unescaped(r, keeps).value;
    InsertAddsWords(p', m, r');
    var before, after :| DesktopWords(p') == Some(before) && DesktopWords(p' + r') == Some(before + after) &&
        DesktopWords(p' + ins + r') == Some(before + m + after);
    WordsExpand(before, m, after, codes);
  }

  /** After the edit the program is started with every argument exactly when it was started before with each
      one whose printed form the line already held: an argument that is only part of another word is lost. */
  lemma EveryArgumentArrivesExactly(text: string, args: seq<string>, keeps: bool, codes: FieldCodes)
    requires RunIsAWord(text, keeps) && LaunchWords(text[5..], keeps, codes).Some?
    requires Distinct(args) && forall a :: a in args ==> Survives(a, keeps)
    requires Spliceable(DesktopQuoteAll(args)) && Independent(DesktopQuoteAll(args))
    ensures var had := LaunchWords(text[5..], keeps, codes).value;
            var gets := LaunchWords(SplicedText(text, DesktopQuoteAll(args))[5..], keeps, codes);
            gets.Some? &&
            ((forall a :: a in args ==> a in gets.value) <==>
             forall a :: a in args && Contains(text, DesktopQuote(a)) ==> a in had)
  {
    hide LaunchWords, RunIsAWord, SplicedText, Survives, Spliceable, Independent, Contains, Missing, DesktopQuote;
    LauncherGainsMissing(text, args, keeps, codes);
    MissingAre(text, args);
  }

  /** A bare option stuck to the end of another word: the edit takes it for present, and the program is never
      started with it. */
  lemma HiddenArgumentLost(a: string, keeps: bool, codes: FieldCodes)
    requires IsPlain(a) && !NeedsQuotes(a) && Survives(a, keeps)
    ensures var text := STEM + (" x" + a);
            && SplicedText(text, DesktopQuoteAll([a])) == text
            && LaunchWords(text[5..], keeps, codes) == Some(["flatpak", "run", "x" + a])
            && a !in ["flatpak", "run", "x" + a]
  {
    hide LaunchWords, SplicedText, Survives, NeedsQuotes;
    assert DesktopQuoteAll([a]) == [a];
    StuckIsHeld(a);
    StuckValue(a);
    StuckIsRead(a, keeps, codes);
    assert a[0] == "--"[0];
  }

  lemma StuckValue(a: string)
    ensures (STEM + (" x" + a))[5..] == "flatpak" + " run" + (" " + ("x" + a))
  {
  }

  lemma StuckIsHeld(a: string)
    ensures SplicedText(STEM + (" x" + a), [a]) == STEM + (" x" + a)
  {
    hide Contains, Launch;
    var tail := " x" + a;
    StemLaunch(tail);
    StemOneLine();
    SplitBehind(STEM, tail);
    ContainsSelf(a);
    ContainsWiden(STEM + " x", a, "", a);
    assert STEM + " x" + a + "" == STEM + tail;
    NothingToPlace(STEM, tail, [a]);
    InsertedNothing();
  }

  lemma StuckIsRead(a: string, keeps: bool, codes: FieldCodes)
    requires !NeedsQuotes(a) && Survives(a, keeps)
    ensures LaunchWords("flatpak" + " run" + (" " + ("x" + a)), keeps, codes) == Some(["flatpak", "run", "x" + a])
  {
    var w := "x" + a;
    var value := "flatpak" + " run" + (" " + w);
    forall i | 0 <= i < |w| ensures !Reserved(w[i]) { if i > 0 { assert w[i] == a[i - 1]; } }
    assert !NeedsQuotes(w) && Printable(w);
    assert !NeedsQuotes("flatpak") && !NeedsQuotes("run");
    assert '\\' !in value;
    NoEscapes(value, keeps);
    ThreeWords("flatpak", "run", w);
    assert " run" == " " + "run";
    ExpandPlain(["flatpak", "run", w], codes);
  }

  lemma ThreeWords(a: string, b: string, c: string)
    requires Printable(a) && Printable(b) && Printable(c) && !NeedsQuotes(a) && !NeedsQuotes(b) && !NeedsQuotes(c)
    ensures DesktopWords(a + (" " + b) + (" " + c)) == Some([a, b, c])
  {
    hide NeedsQuotes, DesktopRun;
    var start := Reader([], "", Outside);
    DesktopReadsQuoted(a, []);
    var r1 := DesktopRun(a, start).value;
    ReadsOneMore(r1, b);
    var r2 := DesktopRun(" " + b, r1).value;
    ReadsOneMore(r2, c);
    DesktopRunAppend(a, " " + b, start);
    DesktopRunAppend(a + (" " + b), " " + c, start);
    assert [] + [a] + [b] + [c] == [a, b, c];
  }

  /** One such launcher. */
  lemma HiddenArgumentExample(keeps: bool, codes: FieldCodes)
    ensures var text := "Exec=flatpak run x--a";
            && SplicedText(text, ["--a"]) == text
            && LaunchWords(text[5..], keeps, codes) == Some(["flatpak", "run", "x--a"])
  {
    var a := "--a";
    assert IsPlain(a) && !NeedsQuotes(a) && Survives(a, keeps);
    HiddenArgumentLost(a, keeps, codes);
    assert STEM + (" x" + a) == "Exec=flatpak run x--a" && "x" + a == "x--a" && DesktopQuoteAll([a]) == [a];
  }

  lemma RunEndsPlain(text: string, cut: nat)
    requires Launch(text) == Some(cut)
    ensures cut <= |text| && (5 <= cut ==> text[5..cut] == "" || text[5..cut][|text[5..cut]| - 1] != '\\')
  {
    var p := LaunchShape(text, cut);
    assert LaunchChar(text[cut - 1]);
  }

  lemma ValueParts(text: string, cut: nat, ins: string)
    requires 5 <= cut <= |text|
    ensures text[5..] == text[5..cut] + text[cut..]
    ensures (text[..cut] + ins + text[cut..])[5..] == text[5..cut] + ins + text[cut..]
  {
  }

  lemma SplicedMissing(text: string, args: seq<string>)
    requires Launch(text).Some? && SafeLaunch(text) && Distinct(args) && forall a :: a in args ==> Printable(a)
    requires Spliceable(DesktopQuoteAll(args)) && Independent(DesktopQuoteAll(args))
    ensures var cut := Launch(text).value;
            cut <= |text| &&
            SplicedText(text, DesktopQuoteAll(args)) ==
            text[..cut] + Inserted(DesktopQuoteAll(Missing(text, args))) + text[cut..]
  {
    hide DesktopQuote, Missing, Inserted, Launch, Independent, Spliceable, Printable, SafeLaunch, Distinct;
    var cut := Launch(text).value;
    RunEndsPlain(text, cut);
    var p, r := text[..cut], text[cut..];
    var pool := DesktopQuoteAll(args);
    assert p + r == text;
    LaunchReady(text, cut, pool);
    forall a | a in args ensures DesktopQuote(a) in pool {
      var i :| 0 <= i < |args| && args[i] == a;
      assert pool[i] in pool;
    }
    PlacedAreMissing(p, [], r, args, pool);
    assert [] + DesktopQuoteAll(Missing(text, args)) == DesktopQuoteAll(Missing(text, args));
  }
}
