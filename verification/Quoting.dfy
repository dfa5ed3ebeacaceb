/** Quoting for a POSIX shell and for a desktop entry's `Exec` key, against readers for both. */
module Quoting {
  import opened Text

  /** `replace` with a single character as pattern. */
  function Replace(s: string, c: char, w: string): string {
    if s == "" then "" else (if s[0] == c then w else [s[0]]) + Replace(s[1..], c, w)
  }

  lemma {:induction false} ReplaceAppend(a: string, b: string, c: char, w: string)
    ensures Replace(a + b, c, w) == Replace(a, c, w) + Replace(b, c, w)
  {
    if a == "" {
      assert a + b == b;
    } else {
      assert (a + b)[1..] == a[1..] + b;
      ReplaceAppend(a[1..], b, c, w);
    }
  }

  /** `join(" ")`. */
  function JoinSpaced(ws: seq<string>): string {
    if ws == [] then "" else if |ws| == 1 then ws[0] else ws[0] + " " + JoinSpaced(ws[1..])
  }

  /** A reader's state: the words finished so far, the one under way, and where in it the reader is. */
  datatype Reader<M> = Reader(words: seq<string>, cur: string, mode: M)

  // ---------------------------------------------------------------------------
  // The shell

  datatype ShellMode = Between | Word | Single | Escape(inWord: bool)

  /** Characters with a meaning of their own outside quotes; words holding one are not read here. */
  predicate ShellSpecial(c: char) {
    c in {'|', '&', ';', '<', '>', '(', ')', '$', '`', '"', '\n', '*', '?', '[', '#', '~', '=', '%'}
  }

  /** Section 2.2 of the POSIX Shell Command Language: backslash and single-quotes, and blanks between words. */
  function ShellStep(r: Reader<ShellMode>, c: char): Option<Reader<ShellMode>> {
    match r.mode
    case Single => if c == '\'' then Some(r.(mode := Word)) else Some(r.(cur := r.cur + [c]))
    case Escape(inWord) =>
      if c == '\n' then Some(r.(mode := if inWord then Word else Between))
      else Some(r.(cur := r.cur + [c], mode := Word))
    case _ =>
      if c == ' ' || c == '\t' then
        Some(if r.mode.Word? then Reader(r.words + [r.cur], "", Between) else r)
      else if c == '\'' then Some(r.(mode := Single))
      else if c == '\\' then Some(r.(mode := Escape(r.mode.Word?)))
      else if ShellSpecial(c) then None
      else Some(r.(cur := r.cur + [c], mode := Word))
  }

  function ShellRun(s: string, r: Reader<ShellMode>): Option<Reader<ShellMode>> {
    if s == "" then Some(r)
    else match ShellStep(r, s[0])
      case None => None
      case Some(r') => ShellRun(s[1..], r')
  }

  /** The words of a command line. */
  function ShellWords(s: string): Option<seq<string>> {
    match ShellRun(s, Reader([], "", Between))
    case None => None
    case Some(r) =>
      match r.mode
      case Between => Some(r.words)
      case Word => Some(r.words + [r.cur])
      case _ => None
  }

  function ShellQuote(s: string): string {
    "'" + Replace(s, '\'', "'\\''") + "'"
  }

  function ShellGrants(args: seq<string>): string {
    JoinSpaced(seq(|args|, i requires 0 <= i < |args| => ShellQuote(args[i])))
  }

  lemma {:induction false} ShellRunAppend(a: string, b: string, r: Reader<ShellMode>)
    requires ShellRun(a, r).Some?
    ensures ShellRun(a + b, r) == ShellRun(b, ShellRun(a, r).value)
    decreases |a|
  {
    if a == "" {
      assert a + b == b;
    } else {
      assert (a + b)[1..] == a[1..] + b;
      ShellRunAppend(a[1..], b, ShellStep(r, a[0]).value);
    }
  }

  /** Inside single quotes the replaced text reads back as the text. */
  lemma {:induction false} ShellReadsReplaced(s: string, r: Reader<ShellMode>)
    requires r.mode == Single
    ensures ShellRun(Replace(s, '\'', "'\\''"), r) == Some(r.(cur := r.cur + s))
    decreases |s|
  {
    if s == "" {
      assert r.cur + s == r.cur;
    } else {
      var head := if s[0] == '\'' then "'\\''" else [s[0]];
      var next := r.(cur := r.cur + [s[0]]);
      ShellReadsHead(head, s[0], r);
      ShellRunAppend(head, Replace(s[1..], '\'', "'\\''"), r);
      ShellReadsReplaced(s[1..], next);
      assert r.cur + [s[0]] + s[1..] == r.cur + s;
    }
  }

  lemma ShellReadsHead(head: string, c: char, r: Reader<ShellMode>)
    requires r.mode == Single && head == if c == '\'' then "'\\''" else [c]
    ensures ShellRun(head, r) == Some(r.(cur := r.cur + [c]))
  {
    if c == '\'' {
      var r1 := r.(mode := Word);
      var r2 := r.(mode := Escape(true));
      var r3 := r.(cur := r.cur + [c], mode := Word);
      var r4 := r.(cur := r.cur + [c]);
      assert head[1..] == "\\''" && "\\''"[1..] == "''" && "''"[1..] == "'" && "'"[1..] == "";
      assert ShellRun("", r4) == Some(r4);
      assert ShellRun("'", r3) == Some(r4);
      assert ShellRun("''", r2) == Some(r4);
      assert ShellRun("\\''", r1) == Some(r4);
    } else {
      assert head[1..] == "";
      assert ShellRun("", r.(cur := r.cur + [c])).Some?;
    }
  }

  /** A quoted argument is one word. */
  lemma ShellReadsQuoted(s: string, words: seq<string>)
    ensures ShellRun(ShellQuote(s), Reader(words, "", Between)) == Some(Reader(words, s, Word))
  {
    var body := Replace(s, '\'', "'\\''");
    var r := Reader(words, "", Single);
    ShellReadsReplaced(s, r);
    ShellRunAppend(body, "'", r);
    assert "'"[1..] == "" && ShellRun("", Reader(words, s, Word)).Some?;
    assert ShellQuote(s)[0] == '\'' && ShellQuote(s)[1..] == body + "'";
    assert "" + s == s;
  }

  lemma {:induction false} ShellReadsFrom(args: seq<string>, words: seq<string>)
    requires args != []
    ensures var r := ShellRun(ShellGrants(args), Reader(words, "", Between));
            r.Some? && r.value.mode == Word && r.value.words + [r.value.cur] == words + args
    decreases |args|
  {
    var qs := seq(|args|, i requires 0 <= i < |args| => ShellQuote(args[i]));
    ShellReadsQuoted(args[0], words);
    if |args| > 1 {
      var rest := args[1..];
      assert qs[1..] == seq(|rest|, i requires 0 <= i < |rest| => ShellQuote(rest[i]));
      ShellRunAppend(ShellQuote(args[0]), " " + ShellGrants(rest), Reader(words, "", Between));
      assert ShellGrants(args) == ShellQuote(args[0]) + (" " + ShellGrants(rest));
      assert (" " + ShellGrants(rest))[1..] == ShellGrants(rest);
      ShellReadsFrom(rest, words + [args[0]]);
      assert words + [args[0]] + rest == words + args;
    } else {
      assert args == [args[0]];
    }
  }

  /** A shell given the printed grants sees exactly the arguments, whatever characters they hold. */
  lemma ShellRoundTrip(args: seq<string>)
    ensures ShellWords(ShellGrants(args)) == Some(args)
  {
    if args != [] {
      ShellReadsFrom(args, []);
      assert [] + args == args;
    }
  }

  // ---------------------------------------------------------------------------
  // The desktop entry

  predicate Reserved(c: char) {
    c in {' ', '\t', '"', '\'', '\\', '>', '<', '~', '|', '&', ';', '$', '*', '?', '#', '(', ')', '`'}
  }

  predicate NeedsQuotes(arg: string) {
    exists i :: 0 <= i < |arg| && Reserved(arg[i])
  }

  /** The four `replace` calls, in their order. */
  function EscapeChain(arg: string): string {
    Replace(Replace(Replace(Replace(arg, '\\', "\\\\"), '"', "\\\""), '`', "\\`"), '$', "\\$")
  }

  function DesktopQuote(arg: string): string {
    if NeedsQuotes(arg) then "\"" + EscapeChain(arg) + "\"" else arg
  }

  function DesktopQuoteAll(args: seq<string>): (r: seq<string>)
    ensures |r| == |args| && forall i :: 0 <= i < |args| ==> r[i] == DesktopQuote(args[i])
  {
    seq(|args|, i requires 0 <= i < |args| => DesktopQuote(args[i]))
  }

  predicate Escaped(c: char) {
    c == '"' || c == '`' || c == '$' || c == '\\'
  }

  /** One pass: a backslash before each character that needs one. */
  function EscapeOnce(arg: string): string {
    if arg == "" then "" else (if Escaped(arg[0]) then ['\\', arg[0]] else [arg[0]]) + EscapeOnce(arg[1..])
  }

  lemma EscapeChainAppend(a: string, b: string)
    ensures EscapeChain(a + b) == EscapeChain(a) + EscapeChain(b)
  {
    ReplaceAppend(a, b, '\\', "\\\\");
    var a1, b1 := Replace(a, '\\', "\\\\"), Replace(b, '\\', "\\\\");
    ReplaceAppend(a1, b1, '"', "\\\"");
    var a2, b2 := Replace(a1, '"', "\\\""), Replace(b1, '"', "\\\"");
    ReplaceAppend(a2, b2, '`', "\\`");
    ReplaceAppend(Replace(a2, '`', "\\`"), Replace(b2, '`', "\\`"), '$', "\\$");
  }

  lemma ReplaceOne(x: char, c: char, w: string)
    ensures Replace([x], c, w) == if x == c then w else [x]
  {
    assert [x][1..] == "";
  }

  lemma ReplaceTwo(x: char, y: char, c: char, w: string)
    ensures Replace([x, y], c, w) == (if x == c then w else [x]) + (if y == c then w else [y])
  {
    assert [x, y][1..] == [y];
    ReplaceOne(y, c, w);
  }

  lemma EscapeChainOne(c: char)
    ensures EscapeChain([c]) == if Escaped(c) then ['\\', c] else [c]
  {
    ReplaceOne(c, '\\', "\\\\");
    ReplaceOne(c, '"', "\\\"");
    ReplaceOne(c, '`', "\\`");
    ReplaceOne(c, '$', "\\$");
    ReplaceTwo('\\', c, '"', "\\\"");
    ReplaceTwo('\\', c, '`', "\\`");
    ReplaceTwo('\\', c, '$', "\\$");
  }

  /** Replacing the backslash first makes the chain one pass: no later step escapes an earlier one's
      backslash. */
  lemma {:induction false} ChainIsOnePass(arg: string)
    ensures EscapeChain(arg) == EscapeOnce(arg)
    decreases |arg|
  {
    if arg != "" {
      assert arg == [arg[0]] + arg[1..];
      EscapeChainAppend([arg[0]], arg[1..]);
      EscapeChainOne(arg[0]);
      ChainIsOnePass(arg[1..]);
    }
  }

  /** The characters that the specification allows only inside quotes, the newline among them. */
  const MUST_BE_QUOTED := {' ', '\t', '\n', '"', '\'', '\\', '>', '<', '~', '|', '&', ';', '$', '*', '?',
                           '#', '(', ')', '`'}

  datatype DesktopMode = Outside | Plain | Quoted | AfterBackslash | Closed

  /** The quoting rule of the Exec key: arguments separated by spaces, each quoted in whole or not at
      all, and inside quotes a backslash before `"`, a backtick, `$` and itself. */
  function DesktopStep(r: Reader<DesktopMode>, c: char): Option<Reader<DesktopMode>> {
    match r.mode
    case Outside =>
      if c == ' ' then Some(r)
      else if c == '"' then Some(r.(mode := Quoted))
      else if c in MUST_BE_QUOTED then None
      else Some(r.(cur := r.cur + [c], mode := Plain))
    case Plain =>
      if c == ' ' then Some(Reader(r.words + [r.cur], "", Outside))
      else if c in MUST_BE_QUOTED then None
      else Some(r.(cur := r.cur + [c]))
    case Quoted =>
      if c == '"' then Some(r.(mode := Closed))
      else if c == '\\' then Some(r.(mode := AfterBackslash))
      else if c == '`' || c == '$' || c == '\n' then None
      else Some(r.(cur := r.cur + [c]))
    case AfterBackslash =>
      if Escaped(c) then Some(r.(cur := r.cur + [c], mode := Quoted)) else None
    case Closed =>
      if c == ' ' then Some(Reader(r.words + [r.cur], "", Outside)) else None
  }

  function DesktopRun(s: string, r: Reader<DesktopMode>): Option<Reader<DesktopMode>> {
    if s == "" then Some(r)
    else match DesktopStep(r, s[0])
      case None => None
      case Some(r') => DesktopRun(s[1..], r')
  }

  function DesktopFinish(r: Option<Reader<DesktopMode>>): Option<seq<string>> {
    match r
    case None => None
    case Some(r) =>
      match r.mode
      case Outside => Some(r.words)
      case Plain => Some(r.words + [r.cur])
      case Closed => Some(r.words + [r.cur])
      case _ => None
  }

  /** The arguments of an `Exec` value. */
  function DesktopWords(s: string): Option<seq<string>> {
    DesktopFinish(DesktopRun(s, Reader([], "", Outside)))
  }

  lemma {:induction false} DesktopRunAppend(a: string, b: string, r: Reader<DesktopMode>)
    ensures DesktopRun(a + b, r) ==
            match DesktopRun(a, r) { case None => None case Some(r') => DesktopRun(b, r') }
    decreases |a|
  {
    if a == "" {
      assert a + b == b;
    } else {
      assert (a + b)[1..] == a[1..] + b;
      if DesktopStep(r, a[0]).Some? {
        DesktopRunAppend(a[1..], b, DesktopStep(r, a[0]).value);
      }
    }
  }

  lemma {:induction false} DesktopReadsPlain(s: string, r: Reader<DesktopMode>)
    requires r.mode == Plain && !NeedsQuotes(s)
    ensures DesktopRun(s, r) == if '\n' in s then None else Some(r.(cur := r.cur + s))
    decreases |s|
  {
    if s == "" {
      assert r.cur + s == r.cur;
    } else {
      assert !Reserved(s[0]);
      forall i | 0 <= i < |s[1..]| ensures !Reserved(s[1..][i]) { assert s[1..][i] == s[i + 1]; }
      DesktopReadsPlain(s[1..], r.(cur := r.cur + [s[0]]));
      assert r.cur + [s[0]] + s[1..] == r.cur + s;
      assert s == [s[0]] + s[1..];
    }
  }

  lemma {:induction false} DesktopReadsEscaped(s: string, r: Reader<DesktopMode>)
    requires r.mode == Quoted
    ensures DesktopRun(EscapeOnce(s), r) == if '\n' in s then None else Some(r.(cur := r.cur + s))
    decreases |s|
  {
    if s == "" {
      assert r.cur + s == r.cur;
    } else {
      var head := if Escaped(s[0]) then ['\\', s[0]] else [s[0]];
      var next := r.(cur := r.cur + [s[0]]);
      assert head[1..] == if Escaped(s[0]) then [s[0]] else "";
      assert [s[0]][1..] == "";
      assert DesktopRun("", next) == Some(next);
      if Escaped(s[0]) {
        assert DesktopRun([s[0]], r.(mode := AfterBackslash)) == Some(next);
      }
      assert DesktopRun(head, r) == if s[0] == '\n' then None else Some(next);
      DesktopRunAppend(head, EscapeOnce(s[1..]), r);
      DesktopReadsEscaped(s[1..], next);
      assert r.cur + [s[0]] + s[1..] == r.cur + s;
      assert s == [s[0]] + s[1..];
    }
  }

  lemma DesktopReadsInQuotes(arg: string, words: seq<string>)
    ensures DesktopRun("\"" + EscapeChain(arg) + "\"", Reader(words, "", Outside)) ==
            if '\n' in arg then None else Some(Reader(words, arg, Closed))
  {
    ChainIsOnePass(arg);
    var body, r := EscapeOnce(arg), Reader(words, "", Quoted);
    DesktopReadsEscaped(arg, r);
    assert "" + arg == arg;
    DesktopRunAppend(body, "\"", r);
    assert "\""[1..] == "" && DesktopRun("", Reader(words, arg, Closed)).Some?;
    assert "\"" + body + "\"" == ['"'] + (body + "\"");
  }

  lemma DesktopReadsUnquoted(arg: string, words: seq<string>)
    requires arg != "" && !NeedsQuotes(arg)
    ensures DesktopRun(arg, Reader(words, "", Outside)) == if '\n' in arg then None else Some(Reader(words, arg, Plain))
  {
    assert !Reserved(arg[0]);
    assert arg == [arg[0]] + arg[1..];
    forall i | 0 <= i < |arg[1..]| ensures !Reserved(arg[1..][i]) { assert arg[1..][i] == arg[i + 1]; }
    DesktopReadsPlain(arg[1..], Reader(words, [arg[0]], Plain));
    assert "" + [arg[0]] == [arg[0]];
  }

  /** Reading one printed argument from the start of a word. */
  lemma DesktopReadsQuoted(arg: string, words: seq<string>)
    requires arg != ""
    ensures DesktopRun(DesktopQuote(arg), Reader(words, "", Outside)) ==
            if '\n' in arg then None else Some(Reader(words, arg, if NeedsQuotes(arg) then Closed else Plain))
  {
    if NeedsQuotes(arg) { DesktopReadsInQuotes(arg, words); } else { DesktopReadsUnquoted(arg, words); }
  }

  lemma {:induction false} EscapedIsNoShorter(arg: string)
    ensures |EscapeOnce(arg)| >= |arg|
    decreases |arg|
  {
    if arg != "" { EscapedIsNoShorter(arg[1..]); }
  }

  /** An argument is printed as it is exactly when the specification lets it stand without quotes, a newline
      in it aside. */
  lemma QuotedWhenNeeded(arg: string)
    ensures DesktopQuote(arg) == arg <==> forall c :: c in arg && c in MUST_BE_QUOTED ==> c == '\n'
  {
    hide EscapeChain;
    ChainIsOnePass(arg);
    EscapedIsNoShorter(arg);
    assert DesktopQuote(arg) == arg <==> !NeedsQuotes(arg);
    if !NeedsQuotes(arg) {
      forall c | c in arg && c in MUST_BE_QUOTED ensures c == '\n' {
        var i :| 0 <= i < |arg| && arg[i] == c;
        assert !Reserved(arg[i]);
      }
    } else {
      var i :| 0 <= i < |arg| && Reserved(arg[i]);
      assert arg[i] in arg && arg[i] in MUST_BE_QUOTED && arg[i] != '\n';
    }
  }

  /** By the quoting rule alone a printed argument reads back as itself exactly when it is not empty and holds
      no newline. The rules before and after it are in ExecValue. */
  lemma DesktopQuoteReadsBack(arg: string)
    ensures DesktopWords(DesktopQuote(arg)) == Some([arg]) <==> arg != "" && '\n' !in arg
  {
    if arg != "" {
      DesktopReadsQuoted(arg, []);
      assert [] + [arg] == [arg];
    }
  }
}
