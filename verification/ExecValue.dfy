/** The whole reading of an `Exec` value: the escape rule of string values, then the quoting rule, then the
    field codes; and which printed arguments come through it. */
module ExecValue {
  import opened Text
  import opened Quoting

  // ---------------------------------------------------------------------------
  // The escape rule of string values

  function EscapeMeaning(c: char): Option<char> {
    match c
    case 's' => Some(' ')
    case 'n' => Some('\n')
    case 't' => Some('\t')
    case 'r' => Some('\r')
    case '\\' => Some('\\')
    case _ => None
  }

  function Before(head: string, rest: Option<string>): Option<string> {
    match rest
    case None => None
    case Some(t) => Some(head + t)
  }

  /** A string value as it is read off the file. The rule lists five escapes and does not say what another
      one is: a reader `keeps` it as it stands or refuses the value. */
  function Unescaped(s: string, keeps: bool): Option<string>
    decreases |s|
  {
    if s == "" then Some("")
    else if s[0] != '\\' then Before([s[0]], Unescaped(s[1..], keeps))
    else if |s| == 1 then if keeps then Some(s) else None
    else if EscapeMeaning(s[1]).Some? then Before([EscapeMeaning(s[1]).value], Unescaped(s[2..], keeps))
    else if keeps then Before(s[..2], Unescaped(s[2..], keeps))
    else None
  }

  /** Read up to a point that is not inside an escape, a value is read in two parts. */
  lemma {:induction false} UnescapedAppend(a: string, b: string, keeps: bool)
    requires a == "" || a[|a| - 1] != '\\'
    ensures Unescaped(a + b, keeps) ==
              if Unescaped(a, keeps).Some? then Before(Unescaped(a, keeps).value, Unescaped(b, keeps)) else None
    decreases |a|
  {
    hide EscapeMeaning;
    if a == "" {
      assert a + b == b;
      BeforeNothing(Unescaped(b, keeps));
    } else {
      var k := if a[0] == '\\' then 2 else 1;
      assert (a + b)[k..] == a[k..] + b && (a + b)[..k] == a[..k];
      UnescapedAppend(a[k..], b, keeps);
      if Unescaped(a, keeps).Some? {
        var head :=
          if k == 1 then [a[0]] else if EscapeMeaning(a[1]).Some? then [EscapeMeaning(a[1]).value] else a[..2];
        BeforeBoth(head, Unescaped(a[k..], keeps).value, Unescaped(b, keeps));
      }
    }
  }

  lemma BeforeNothing(o: Option<string>)
    ensures Before("", o) == o
  {
    if o.Some? { assert "" + o.value == o.value; }
  }

  lemma BeforeBoth(a: string, b: string, o: Option<string>)
    ensures Before(a, Before(b, o)) == Before(a + b, o)
  {
    if o.Some? { assert a + (b + o.value) == a + b + o.value; }
  }

  lemma {:induction false} NoEscapes(s: string, keeps: bool)
    requires '\\' !in s
    ensures Unescaped(s, keeps) == Some(s)
  {
    if s != "" {
      assert s[0] in s && s == [s[0]] + s[1..];
      NoEscapes(s[1..], keeps);
    }
  }

  // What the rule makes of a printed argument

  /** Escaped, and not a backslash: the escapes the rule does not list. */
  predicate Unlisted(c: char) {
    Escaped(c) && c != '\\'
  }

  /** The backslashes that were doubled are single again; the others stay. */
  function Halved(arg: string): string {
    if arg == "" then "" else (if Unlisted(arg[0]) then ['\\', arg[0]] else [arg[0]]) + Halved(arg[1..])
  }

  function Backslashes(arg: string): nat {
    if arg == "" then 0 else (if arg[0] == '\\' then 1 else 0) + Backslashes(arg[1..])
  }

  lemma {:induction false} HalvedLength(arg: string)
    ensures |Halved(arg)| + Backslashes(arg) == |EscapeOnce(arg)|
    ensures Backslashes(arg) == 0 <==> '\\' !in arg
    ensures '\\' !in arg ==> Halved(arg) == EscapeOnce(arg)
  {
    if arg != "" {
      assert arg == [arg[0]] + arg[1..];
      HalvedLength(arg[1..]);
    }
  }

  predicate HasUnlisted(arg: string) {
    exists c :: c in arg && Unlisted(c)
  }

  lemma {:induction false} UnescapePrinted(arg: string, tail: string, keeps: bool)
    ensures Unescaped(EscapeOnce(arg) + tail, keeps) ==
            if !keeps && HasUnlisted(arg) then None else Before(Halved(arg), Unescaped(tail, keeps))
    decreases |arg|
  {
    if arg == "" {
      assert EscapeOnce(arg) + tail == tail;
      BeforeNothing(Unescaped(tail, keeps));
    } else {
      var c, rest := arg[0], arg[1..];
      var s := EscapeOnce(arg) + tail;
      UnescapePrinted(rest, tail, keeps);
      UnlistedFirst(arg);
      PrintedHead(c, EscapeOnce(rest), tail);
      BeforeBoth(if Unlisted(c) then ['\\', c] else [c], Halved(rest), Unescaped(tail, keeps));
    }
  }

  lemma UnlistedFirst(arg: string)
    requires arg != ""
    ensures HasUnlisted(arg) <==> Unlisted(arg[0]) || HasUnlisted(arg[1..])
  {
    assert arg == [arg[0]] + arg[1..];
    assert arg[0] in arg;
    if c :| c in arg[1..] && Unlisted(c) { assert c in arg; }
  }

  lemma PrintedHead(c: char, e: string, tail: string)
    ensures var s := (if Escaped(c) then ['\\', c] else [c]) + e + tail;
            if Escaped(c) then s[..2] == ['\\', c] && s[2..] == e + tail else s[0] == c && s[1..] == e + tail
  {
  }

  // ---------------------------------------------------------------------------
  // Field codes

  /** What the launcher has to fill in: for a code inside an argument, and for one that is a whole argument.
      `None` is a code that is not listed, which makes the command line invalid. */
  datatype FieldCodes = FieldCodes(within: char -> Option<string>, alone: char -> Option<seq<string>>)

  function ExpandText(w: string, codes: FieldCodes): Option<string>
    decreases |w|
  {
    if w == "" then Some("")
    else if w[0] != '%' then Before([w[0]], ExpandText(w[1..], codes))
    else if |w| == 1 then None
    else if w[1] == '%' then Before("%", ExpandText(w[2..], codes))
    else if codes.within(w[1]).None? then None
    else Before(codes.within(w[1]).value, ExpandText(w[2..], codes))
  }

  function ExpandWord(w: string, codes: FieldCodes): Option<seq<string>> {
    if |w| == 2 && w[0] == '%' && w[1] != '%' then codes.alone(w[1])
    else match ExpandText(w, codes)
      case None => None
      case Some(t) => Some([t])
  }

  function Joined(a: Option<seq<string>>, b: Option<seq<string>>): Option<seq<string>> {
    if a.Some? && b.Some? then Some(a.value + b.value) else None
  }

  function ExpandWords(ws: seq<string>, codes: FieldCodes): Option<seq<string>> {
    if ws == [] then Some([]) else Joined(ExpandWord(ws[0], codes), ExpandWords(ws[1..], codes))
  }

  lemma {:induction false} ExpandAppend(a: seq<string>, b: seq<string>, codes: FieldCodes)
    ensures ExpandWords(a + b, codes) == Joined(ExpandWords(a, codes), ExpandWords(b, codes))
    decreases |a|
  {
    hide ExpandWord;
    if a == [] {
      assert a + b == b;
      if ExpandWords(b, codes).Some? { assert [] + ExpandWords(b, codes).value == ExpandWords(b, codes).value; }
    } else {
      assert (a + b)[1..] == a[1..] + b;
      ExpandAppend(a[1..], b, codes);
      JoinedThree(ExpandWord(a[0], codes), ExpandWords(a[1..], codes), ExpandWords(b, codes));
    }
  }

  lemma JoinedThree(a: Option<seq<string>>, b: Option<seq<string>>, c: Option<seq<string>>)
    ensures Joined(a, Joined(b, c)) == Joined(Joined(a, b), c)
  {
    if a.Some? && b.Some? && c.Some? { assert a.value + (b.value + c.value) == a.value + b.value + c.value; }
  }

  lemma {:induction false} NothingToExpand(w: string, codes: FieldCodes)
    requires '%' !in w
    ensures ExpandText(w, codes) == Some(w)
  {
    if w != "" {
      assert w[0] in w && w == [w[0]] + w[1..];
      NothingToExpand(w[1..], codes);
    }
  }

  lemma {:induction false} ExpandPlain(ws: seq<string>, codes: FieldCodes)
    requires forall w :: w in ws ==> '%' !in w
    ensures ExpandWords(ws, codes) == Some(ws)
  {
    if ws != [] {
      NothingToExpand(ws[0], codes);
      ExpandPlain(ws[1..], codes);
      assert ws == [ws[0]] + ws[1..];
    }
  }

  /** A launcher that has nothing to fill in. */
  const NO_CODES := FieldCodes(_ => None, _ => None)

  /** Where nothing is filled in, expanding only shortens, and leaves what needs escaping. */
  lemma {:induction false} ExpandShortens(w: string)
    requires ExpandText(w, NO_CODES).Some?
    ensures var t := ExpandText(w, NO_CODES).value;
            && |t| <= |w| && (|t| == |w| ==> t == w && '%' !in w)
            && |EscapeOnce(t)| - |t| == |EscapeOnce(w)| - |w|
    decreases |w|
  {
    if w != "" {
      assert w == [w[0]] + w[1..];
      if w[0] != '%' {
        ExpandShortens(w[1..]);
        assert ([w[0]] + ExpandText(w[1..], NO_CODES).value)[1..] == ExpandText(w[1..], NO_CODES).value;
      } else {
        ExpandShortens(w[2..]);
        assert w[1..][1..] == w[2..];
        assert ("%" + ExpandText(w[2..], NO_CODES).value)[1..] == ExpandText(w[2..], NO_CODES).value;
      }
    }
  }

  lemma {:induction false} ExpandKeepsCount(ws: seq<string>)
    requires ExpandWords(ws, NO_CODES).Some?
    ensures |ExpandWords(ws, NO_CODES).value| == |ws|
  {
    if ws != [] { ExpandKeepsCount(ws[1..]); }
  }

  lemma OneWordExpands(w: string, arg: string)
    requires ExpandWords([w], NO_CODES) == Some([arg])
    ensures ExpandText(w, NO_CODES) == Some(arg)
  {
    assert [w][1..] == [] && ExpandWords([], NO_CODES) == Some([]);
    var one := ExpandWord(w, NO_CODES).value;
    assert one + [] == one;
  }

  // ---------------------------------------------------------------------------
  // The whole reading

  /** The arguments a launcher is started with. */
  function LaunchWords(value: string, keeps: bool, codes: FieldCodes): Option<seq<string>> {
    match Unescaped(value, keeps)
    case None => None
    case Some(v) =>
      match DesktopWords(v)
      case None => None
      case Some(ws) => ExpandWords(ws, codes)
  }

  /** Arguments that come through: no percent sign and no backslash, and where unlisted escapes are refused
      nothing that has to be escaped at all. */
  predicate Survives(arg: string, keeps: bool) {
    arg != "" && '\n' !in arg && '%' !in arg && '\\' !in arg && (keeps || !HasUnlisted(arg))
  }

  lemma UnquotedHasNoEscapes(arg: string)
    requires !NeedsQuotes(arg)
    ensures '\\' !in arg
  {
  }

  /** A printed argument as it is read off the file. */
  lemma PrintedIsRead(arg: string, keeps: bool)
    ensures Unescaped(DesktopQuote(arg), keeps) ==
            if !NeedsQuotes(arg) then Some(arg)
            else if !keeps && HasUnlisted(arg) then None
            else Some("\"" + Halved(arg) + "\"")
  {
    hide NeedsQuotes, EscapeOnce, EscapeChain, HasUnlisted, Halved;
    if NeedsQuotes(arg) {
      ChainIsOnePass(arg);
      UnescapePrinted(arg, "\"", keeps);
      NoEscapes("\"", keeps);
      var s := EscapeOnce(arg) + "\"";
      assert ("\"" + EscapeOnce(arg) + "\"")[1..] == s;
      assert Unescaped("\"" + s, keeps) == Before("\"", Unescaped(s, keeps)) by { assert ("\"" + s)[1..] == s; }
      assert "\"" + EscapeOnce(arg) + "\"" == "\"" + s && "\"" + (Halved(arg) + "\"") == "\"" + Halved(arg) + "\"";
    } else {
      UnquotedHasNoEscapes(arg);
      NoEscapes(arg, keeps);
    }
  }

  lemma SurvivorsAreRead(arg: string, keeps: bool)
    requires Survives(arg, keeps)
    ensures Unescaped(DesktopQuote(arg), keeps) == Some(DesktopQuote(arg))
  {
    PrintedIsRead(arg, keeps);
    HalvedLength(arg);
    ChainIsOnePass(arg);
  }

  // Inside quotes the reader takes nothing but the printed form

  lemma {:induction false} FinishExtends(s: string, r: Reader<DesktopMode>)
    ensures var f := DesktopFinish(DesktopRun(s, r)); f.Some? ==> r.words <= f.value
    decreases |s|
  {
    if s != "" && DesktopStep(r, s[0]).Some? { FinishExtends(s[1..], DesktopStep(r, s[0]).value); }
  }

  lemma SameLast(ws: seq<string>, a: string, b: string)
    requires ws + [a] <= ws + [b]
    ensures a == b
  {
    var x, y := ws + [a], ws + [b];
    assert x[|ws|] == a && y[|ws|] == b;
    assert x == y[..|x|];
  }

  lemma ClosedEnds(s: string, r: Reader<DesktopMode>, w: string)
    requires r.mode == Closed && DesktopFinish(DesktopRun(s, r)) == Some(r.words + [w])
    ensures w == r.cur
  {
    if s != "" { FinishExtends(s[1..], DesktopStep(r, s[0]).value); }
    SameLast(r.words, r.cur, w);
  }

  lemma {:induction false} QuotedLength(s: string, r: Reader<DesktopMode>, w: string)
    requires r.mode == Quoted && DesktopFinish(DesktopRun(s, r)) == Some(r.words + [w])
    ensures r.cur <= w && |EscapeOnce(w[|r.cur|..])| + 1 <= |s|
    decreases |s|
  {
    var n := DesktopStep(r, s[0]).value;
    if s[0] == '"' {
      ClosedEnds(s[1..], n, w);
      assert w[|w|..] == "";
    } else if s[0] == '\\' {
      assert s[1..] != "" && s[1..][1..] == s[2..];
      var m := DesktopStep(n, s[1]).value;
      QuotedLength(s[2..], m, w);
      OneMore(w, |r.cur|, s[1]);
    } else {
      QuotedLength(s[1..], n, w);
      OneMore(w, |r.cur|, s[0]);
    }
  }

  lemma OneMore(w: string, k: nat, c: char)
    requires k < |w| && w[k] == c
    ensures |EscapeOnce(w[k..])| == |EscapeOnce(w[k + 1..])| + if Escaped(c) then 2 else 1
  {
    assert w[k..][0] == c && w[k..][1..] == w[k + 1..];
  }

  /** If a quoted argument comes back, none of its characters was lost on the way. */
  lemma QuotedComesBack(arg: string, keeps: bool)
    requires NeedsQuotes(arg) && LaunchWords(DesktopQuote(arg), keeps, NO_CODES) == Some([arg])
    ensures Survives(arg, keeps)
  {
    hide NeedsQuotes, EscapeOnce, HasUnlisted;
    PrintedIsRead(arg, keeps);
    var v := "\"" + Halved(arg) + "\"";
    var ws := DesktopWords(v).value;
    ExpandKeepsCount(ws);
    var w := ws[0];
    assert ws == [w];
    OneWordExpands(w, arg);
    ExpandShortens(w);
    var start := Reader([], "", Outside);
    assert v[1..] == Halved(arg) + "\"" && DesktopStep(start, '"') == Some(start.(mode := Quoted));
    assert [] + [w] == [w];
    QuotedLength(v[1..], start.(mode := Quoted), w);
    assert w[0..] == w;
    HalvedLength(arg);
    assert w == arg && '\\' !in arg;
    ChainIsOnePass(arg);
    assert v == DesktopQuote(arg);
    DesktopQuoteReadsBack(arg);
  }

  /** A printed argument reaches the program as it was, whatever the launcher fills in for its field codes,
      exactly when it survives. */
  lemma ReadsBackExactly(arg: string, keeps: bool)
    ensures Survives(arg, keeps) <==> forall codes :: LaunchWords(DesktopQuote(arg), keeps, codes) == Some([arg])
  {
    hide EscapeOnce, Halved, HasUnlisted, DesktopQuote;
    if Survives(arg, keeps) {
      SurvivorsAreRead(arg, keeps);
      DesktopQuoteReadsBack(arg);
      forall codes ensures LaunchWords(DesktopQuote(arg), keeps, codes) == Some([arg]) {
        ExpandPlain([arg], codes);
      }
    } else if LaunchWords(DesktopQuote(arg), keeps, NO_CODES) == Some([arg]) {
      if NeedsQuotes(arg) { QuotedComesBack(arg, keeps); } else { UnquotedComesBack(arg, keeps); }
    }
  }

  lemma UnquotedComesBack(arg: string, keeps: bool)
    requires !NeedsQuotes(arg) && LaunchWords(DesktopQuote(arg), keeps, NO_CODES) == Some([arg])
    ensures Survives(arg, keeps)
  {
    PrintedIsRead(arg, keeps);
    UnquotedHasNoEscapes(arg);
    forall c | c in arg ensures !Unlisted(c) {
      var i :| 0 <= i < |arg| && arg[i] == c;
      assert !Reserved(arg[i]);
    }
    if arg != "" {
      DesktopReadsQuoted(arg, []);
      assert [] + [arg] == [arg];
      OneWordExpands(arg, arg);
      ExpandShortens(arg);
    }
  }

  const PERCENT := "--filesystem=/mnt/50%off:ro"
  const BACKSLASH := "--filesystem=/mnt/a\\b:ro"

  /** Ordinary folders that do not survive: one with a percent sign, one with a backslash. */
  lemma OrdinaryArgumentsLost(keeps: bool)
    ensures exists codes :: LaunchWords(DesktopQuote(PERCENT), keeps, codes) != Some([PERCENT])
    ensures exists codes :: LaunchWords(DesktopQuote(BACKSLASH), keeps, codes) != Some([BACKSLASH])
  {
    hide LaunchWords, DesktopQuote;
    assert PERCENT[20] == '%' && BACKSLASH[19] == '\\';
    ReadsBackExactly(PERCENT, keeps);
    ReadsBackExactly(BACKSLASH, keeps);
  }
}
