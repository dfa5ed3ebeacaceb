/** A desktop file as lines with their terminators attached, and a line as text and ending. */
module DesktopLines {
  import opened Text

  // ---------------------------------------------------------------------------
  // Lines

  /** The lines of `body`, each with its terminator still attached. */
  function Lines(body: string): (r: seq<string>)
    ensures forall l :: l in r ==> IsLine(l)
    ensures forall i :: 0 <= i < |r| - 1 ==> EndsLine(r[i])
    decreases |body|
  {
    if body == [] then []
    else
      match Find(body, "\n")
      case None => NoNewline(body); [body]
      case Some(k) => FirstNewline(body, k); [body[..k + 1]] + Lines(body[k + 1..])
  }

  /** Not empty, and a newline only as the last character. */
  predicate IsLine(l: string) {
    l != [] && forall i :: 0 <= i < |l| - 1 ==> l[i] != '\n'
  }

  predicate EndsLine(l: string) {
    l != [] && l[|l| - 1] == '\n'
  }

  lemma NoNewline(body: string)
    requires !Contains(body, "\n")
    ensures '\n' !in body
  {
    forall i | 0 <= i < |body| ensures body[i] != '\n' {
      assert !OccursAt(body, "\n", i);
      assert body[i..i + 1] == [body[i]];
    }
  }

  lemma FirstNewline(body: string, k: nat)
    requires OccursAt(body, "\n", k) && forall i :: 0 <= i < k ==> !OccursAt(body, "\n", i)
    ensures body[k] == '\n' && forall i :: 0 <= i < k ==> body[i] != '\n'
  {
    OccursChar(body, "\n", k, 0);
    forall i | 0 <= i < k ensures body[i] != '\n' {
      assert !OccursAt(body, "\n", i);
      assert body[i..i + 1] == [body[i]];
    }
  }

  function Flatten(ls: seq<string>): string {
    if ls == [] then [] else ls[0] + Flatten(ls[1..])
  }

  lemma {:induction false} FlattenSnoc(ls: seq<string>, l: string)
    ensures Flatten(ls + [l]) == Flatten(ls) + l
  {
    if ls == [] {
      assert [l][1..] == [];
    } else {
      assert (ls + [l])[1..] == ls[1..] + [l];
      FlattenSnoc(ls[1..], l);
    }
  }

  /** Cutting a body into lines loses nothing. */
  lemma {:induction false} FlattenLines(body: string)
    ensures Flatten(Lines(body)) == body
    decreases |body|
  {
    if body != [] {
      match Find(body, "\n")
      case None =>
        assert [body][1..] == [];
        assert Flatten([body]) == body + Flatten([]);
      case Some(k) => FlattenLines(body[k + 1..]);
    }
  }

  /** Every line but the last ends in a newline. */
  predicate Wellformed(ls: seq<string>) {
    && (forall l :: l in ls ==> IsLine(l))
    && (forall i :: 0 <= i < |ls| - 1 ==> EndsLine(ls[i]))
  }

  /** And gluing well-formed lines together loses nothing either. */
  lemma {:induction false} LinesOfFlatten(ls: seq<string>)
    requires Wellformed(ls)
    ensures Lines(Flatten(ls)) == ls
    decreases |ls|
  {
    hide Contains, OccursAt;
    if ls != [] {
      var l, rest := ls[0], ls[1..];
      LinesOfFlatten(rest);
      if EndsLine(l) {
        FirstLineFound(l, Flatten(rest));
      } else {
        assert rest == [];
        assert Flatten(ls) == l + "" == l;
        LastLineFound(l);
      }
    }
  }

  /** The first newline of a text that begins with a whole line is at the end of that line. */
  lemma FirstLineFound(l: string, f: string)
    requires IsLine(l) && EndsLine(l)
    ensures Find(l + f, "\n") == Some(|l| - 1) && (l + f)[..|l|] == l && (l + f)[|l|..] == f
  {
    var body, n := l + f, |l| - 1;
    assert body[n..n + 1] == "\n";
    assert OccursAt(body, "\n", n) && Contains(body, "\n");
    var k := Find(body, "\n").value;
    FirstNewline(body, k);
    assert k <= n && body[k] == l[k];
  }

  lemma LastLineFound(l: string)
    requires IsLine(l) && !EndsLine(l)
    ensures Find(l, "\n") == None
  {
    forall i ensures !OccursAt(l, "\n", i) {
      if OccursAt(l, "\n", i) { OccursChar(l, "\n", i, 0); }
    }
  }

  /** `split_keeping_ends`: the loop, cutting after each newline. */
  method SplitKeepingEnds(body: string) returns (out: seq<string>)
    ensures out == Lines(body)
  {
    hide Lines;
    out := [];
    var rest := body;
    var at := Find(rest, "\n");
    while at.Some?
      invariant at == Find(rest, "\n")
      invariant out + Lines(rest) == Lines(body)
      decreases |rest|
    {
      LinesStep(rest);
      JoinLines(out, [rest[..at.value + 1]], Lines(rest[at.value + 1..]));
      out, rest := out + [rest[..at.value + 1]], rest[at.value + 1..];
      at := Find(rest, "\n");
    }
    LinesStep(rest);
    if rest != [] {
      out := out + [rest];
    } else {
      assert out + [] == out;
    }
  }

  lemma LinesStep(rest: string)
    ensures match Find(rest, "\n")
            case None => Lines(rest) == if rest == [] then [] else [rest]
            case Some(k) => k < |rest| && Lines(rest) == [rest[..k + 1]] + Lines(rest[k + 1..])
  {
    FindFits(rest, "\n", 0);
  }

  lemma JoinLines(a: seq<string>, b: seq<string>, c: seq<string>)
    ensures a + (b + c) == a + b + c
  {
  }

  // ---------------------------------------------------------------------------
  // Text and ending of one line

  /** `split_ending`: the newlines go first, then every carriage return before them. */
  function LineText(line: string): (r: string)
    ensures |r| <= |line| && r == line[..|r|]
  {
    TrimEndSet(TrimEndSet(line, {'\n'}), {'\r'})
  }

  function LineEnding(line: string): string {
    line[|LineText(line)|..]
  }

  /** `k` carriage returns, then newlines. */
  predicate IsEnding(e: string, k: nat) {
    k <= |e| && (forall i :: 0 <= i < k ==> e[i] == '\r') && (forall i :: k <= i < |e| ==> e[i] == '\n')
  }

  /** Text that neither terminator can be trimmed from. */
  predicate IsText(s: string) {
    s != [] ==> s[|s| - 1] != '\n' && s[|s| - 1] != '\r'
  }

  lemma EndingShape(line: string) returns (k: nat)
    requires IsLine(line)
    ensures IsText(LineText(line)) && IsEnding(LineEnding(line), k)
    ensures line == LineText(line) + LineEnding(line)
  {
    var a := TrimEndSet(line, {'\n'});
    var r := LineText(line);
    var e := LineEnding(line);
    k := |a| - |r|;
    forall i | 0 <= i < k ensures e[i] == '\r' { assert e[i] == a[|r| + i]; }
    forall i | k <= i < |e| ensures e[i] == '\n' { assert e[i] == line[|r| + i]; }
  }

  /** A text and an ending put together come apart again at the same place. */
  lemma EndingUnique(text: string, e: string, k: nat)
    requires IsText(text) && IsEnding(e, k)
    ensures LineText(text + e) == text && LineEnding(text + e) == e
  {
    hide TrimEndSet;
    assert text + e == (text + e[..k]) + e[k..];
    TrimEndSetIs(text + e[..k], e[k..], {'\n'});
    TrimEndSetIs(text, e[..k], {'\r'});
    assert (text + e)[|text|..] == e;
  }
}
