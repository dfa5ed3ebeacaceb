/** The grants oxdm actually asks for, printed for a launcher, and that they are fit to be spliced. */
module FlatpakGrants {
  import opened Text
  import opened LaunchSearch
  import opened GrantSplice
  import opened GrantGuard
  import opened Quoting

  const MARK := "--filesystem="
  const MODE := ":ro"

  /** `flatpak_grant_args`: one read-only mount per path. */
  function MountArg(path: string): string {
    MARK + path + MODE
  }

  /** Length of the opening quote of a printed mount. */
  function Lead(q: string): nat {
    if q != "" && q[0] == '"' then 1 else 0
  }

  /** The option and the mode stand in a printed mount where they were put and nowhere else. */
  predicate MarkedOnce(q: string) {
    (forall i :: 0 <= i <= |q| && OccursAt(q, MARK, i) ==> i == Lead(q)) &&
    (forall i :: 0 <= i <= |q| && OccursAt(q, MODE, i) ==> i == |q| - 3 - Lead(q))
  }

  /** What a path must not contain for its mount to be spliced: a line break, a launch of its own, or a
      second option or mode. */
  predicate OrdinaryPath(path: string) {
    var q := DesktopQuote(MountArg(path));
    OneLine(path) && Launch(q).None? && MarkedOnce(q)
  }

  /** A printed mount: bare, or quoted because something inside needs it. */
  predicate IsMount(q: string) {
    && |q| >= 16 + 2 * Lead(q)
    && OccursAt(q, MARK, Lead(q)) && OccursAt(q, MODE, |q| - 3 - Lead(q))
    && MarkedOnce(q) && OneLine(q) && Launch(q).None?
    && (Lead(q) == 0 ==> forall i :: 0 <= i < |q| ==> !Reserved(q[i]))
    && (Lead(q) == 1 ==> q[|q| - 1] == '"' && exists i :: 1 <= i < |q| - 1 && Reserved(q[i]))
  }

  lemma {:induction false} EscapeKeeps(s: string)
    ensures |EscapeOnce(s)| >= |s|
    ensures OneLine(s) ==> OneLine(EscapeOnce(s))
    ensures (forall i :: 0 <= i < |s| ==> !Escaped(s[i])) ==> EscapeOnce(s) == s
    ensures (exists i :: 0 <= i < |s| && Reserved(s[i])) ==>
              exists i :: 0 <= i < |EscapeOnce(s)| && Reserved(EscapeOnce(s)[i])
    decreases |s|
  {
    if s != "" {
      EscapeKeeps(s[1..]);
      var head := if Escaped(s[0]) then ['\\', s[0]] else [s[0]];
      var e, r := EscapeOnce(s), EscapeOnce(s[1..]);
      assert e == head + r;
      assert s == [s[0]] + s[1..];
      if j :| 0 <= j < |s| && Reserved(s[j]) {
        if j == 0 { assert Reserved(e[|head| - 1]); }
        else {
          assert Reserved(s[1..][j - 1]);
          var k :| 0 <= k < |r| && Reserved(r[k]);
          assert e[|head| + k] == r[k];
        }
      }
    }
  }

  lemma {:induction false} EscapeAppend(a: string, b: string)
    ensures EscapeOnce(a + b) == EscapeOnce(a) + EscapeOnce(b)
    decreases |a|
  {
    if a == "" {
      assert a + b == b;
    } else {
      assert (a + b)[1..] == a[1..] + b;
      EscapeAppend(a[1..], b);
    }
  }

  lemma EscapeAround(a: string, x: string, b: string)
    requires (forall i :: 0 <= i < |a| ==> !Escaped(a[i])) && forall i :: 0 <= i < |b| ==> !Escaped(b[i])
    ensures EscapeOnce(a + x + b) == a + EscapeOnce(x) + b
  {
    EscapeAppend(a + x, b);
    EscapeAppend(a, x);
    EscapeKeeps(a);
    EscapeKeeps(b);
  }

  /** What stands between the quotes of a quoted mount. */
  lemma InsideQuotes(q: string, a: string, m: string, b: string)
    requires q == "\"" + (a + m + b) + "\""
    ensures OccursAt(q, a, 1) && OccursAt(q, b, |q| - 1 - |b|)
  {
    assert q[1..1 + |a|] == a;
    assert q[|q| - 1 - |b|..|q| - 1] == b;
  }

  lemma QuotedMount(path: string)
    requires OrdinaryPath(path) && NeedsQuotes(MountArg(path))
    ensures IsMount(DesktopQuote(MountArg(path)))
  {
    hide DesktopQuote, OneLine, MarkedOnce, Launch, Reserved;
    var q := DesktopQuote(MountArg(path));
    QuotedForm(path);
    InsideQuotes(q, MARK, EscapeOnce(path), MODE);
  }

  /** A quoted mount character by character. */
  lemma QuotedForm(path: string)
    requires OneLine(path) && NeedsQuotes(MountArg(path))
    ensures var q := DesktopQuote(MountArg(path));
            && q == "\"" + (MARK + EscapeOnce(path) + MODE) + "\"" && OneLine(q)
            && exists i :: 1 <= i < |q| - 1 && Reserved(q[i])
  {
    hide EscapeChain, EscapeOnce, Reserved, OneLine;
    var arg := MountArg(path);
    var q, e := DesktopQuote(arg), EscapeOnce(arg);
    ChainIsOnePass(arg);
    NothingToEscape();
    EscapeAround(MARK, path, MODE);
    MountIsOneLine(path);
    EscapeKeeps(arg);
    ReservedShows(q, e);
    QuotesAreOneLine(e);
  }

  lemma NothingToEscape()
    ensures (forall i :: 0 <= i < |MARK| ==> !Escaped(MARK[i])) && forall i :: 0 <= i < |MODE| ==> !Escaped(MODE[i])
  {
  }

  lemma MountIsOneLine(path: string)
    requires OneLine(path)
    ensures OneLine(MountArg(path))
  {
    assert OneLine(MARK) && OneLine(MODE);
  }

  lemma QuotesAreOneLine(e: string)
    requires OneLine(e)
    ensures OneLine("\"" + e + "\"")
  {
  }

  lemma ReservedShows(q: string, e: string)
    requires q == "\"" + e + "\"" && exists i :: 0 <= i < |e| && Reserved(e[i])
    ensures exists i :: 1 <= i < |q| - 1 && Reserved(q[i])
  {
    var j :| 0 <= j < |e| && Reserved(e[j]);
    assert q[j + 1] == e[j];
  }

  lemma OrdinaryMount(path: string)
    requires OrdinaryPath(path)
    ensures IsMount(DesktopQuote(MountArg(path)))
  {
    var q := DesktopQuote(MountArg(path));
    if NeedsQuotes(MountArg(path)) {
      QuotedMount(path);
    } else {
      assert q[0..13] == MARK && q[|q| - 3..|q|] == MODE;
      assert OneLine(MARK) && OneLine(MODE);
    }
  }

  /** Two mounts do not reach into each other: the second would have to begin where the first does, and
      then the first one's mode would stand inside it. */
  lemma MountsDoNotJoin(s: string, t: string)
    requires IsMount(s) && IsMount(t)
    ensures !Joins(s, t)
  {
    forall k | 0 < k <= |s| ensures !JoinsAt(s, t, k) {
      if JoinsAt(s, t, k) {
        assert Reserved(t[k]);
        MarkHasNoBreak(t);
        JoinStartsTogether(s, t, k);
        ModeInside(s, t, k);
      }
    }
  }

  lemma MarkHasNoBreak(t: string)
    requires OccursAt(t, MARK, 1) && Lead(t) == 1
    ensures forall i :: 0 <= i < 14 ==> !IsBreak(t[i])
  {
    forall i | 1 <= i < 14 ensures t[i] == MARK[i - 1] { OccursChar(t, MARK, 1, i - 1); }
  }

  lemma JoinStartsTogether(s: string, t: string, k: nat)
    requires IsMount(s) && Lead(t) == 1 && OccursAt(t, MARK, 1) && 14 <= k <= |s| && k < |t| && s[|s| - k..] == t[..k]
    ensures k == |s|
  {
    var d := |s| - k;
    forall x | 0 <= x < k ensures s[d + x] == t[x] { assert s[d..][x] == t[..k][x]; }
    forall j | 0 <= j < 13 ensures s[d + 1 + j] ==
        MARK[j] { OccursChar(t, MARK, 1, j); assert s[d + (1 + j)] == t[1 + j]; }
    assert s[d + 1..d + 14] == MARK;
    assert OccursAt(s, MARK, d + 1);
    assert s[d + 0] == t[0];
  }

  lemma ModeInside(s: string, t: string, k: nat)
    requires IsMount(s) && Lead(t) == 1 && k == |s| && k < |t| && s[|s| - k..] == t[..k]
    ensures OccursAt(t, MODE, k - 4)
  {
    assert s == t[..k];
    assert s[0] == t[0];
    OccursInPrefix(t[..k], t[k..], MODE, k - 4);
    assert t[..k] + t[k..] == t;
  }

  /** Nor is one inside another: their options and their modes would have to coincide. */
  lemma MountsDoNotNest(s: string, t: string)
    requires IsMount(s) && IsMount(t) && s != t
    ensures !Contains(s, t)
  {
    forall i | 0 <= i <= |s| ensures !OccursAt(s, t, i) {
      if OccursAt(s, t, i) {
        var l, n := Lead(t), |t|;
        OccursWithin(s, t, i, MARK, l);
        OccursWithin(s, t, i, MODE, n - 3 - l);
        assert i + l == Lead(s) && i + n - l == |s| - Lead(s);
        QuotesHoldReserved(s, t);
      }
    }
  }

  /** What the quotes of a mount hold could not have gone without them. */
  lemma QuotesHoldReserved(s: string, t: string)
    ensures IsMount(s) && Lead(s) == 1 && OccursAt(s, t, 1) && |t| == |s| - 2 ==>
              exists j :: 0 <= j < |t| && Reserved(t[j])
  {
    if IsMount(s) && Lead(s) == 1 && OccursAt(s, t, 1) && |t| == |s| - 2 {
      var j :| 1 <= j < |s| - 1 && Reserved(s[j]);
      OccursChar(s, t, 1, j - 1);
    }
  }

  lemma OccursWithin(s: string, t: string, i: nat, w: string, k: nat)
    requires OccursAt(s, t, i) && OccursAt(t, w, k)
    ensures OccursAt(s, w, i + k)
  {
    forall j | 0 <= j < |w| ensures s[i + k + j] == w[j] {
      OccursChar(t, w, k, j);
      OccursChar(s, t, i, k + j);
    }
    assert s[i + k..i + k + |w|] == w;
  }

  /** The mounts for ordinary paths, spaces and quotes included, are fit for the splice and its guard:
      the edit settles at once and the guard lets it through. */
  lemma OrdinaryMountsSplice(paths: seq<string>, body: string)
    requires (forall p :: p in paths ==> OrdinaryPath(p)) && SafeBody(body)
    ensures var tokens := DesktopQuoteAll(seq(|paths|, i requires 0 <= i < |paths| => MountArg(paths[i])));
            && Spliceable(tokens) && Independent(tokens)
            && Spliced(Spliced(body, tokens), tokens) == Spliced(body, tokens)
            && Checked(body, Spliced(body, tokens), tokens) == Accepted
  {
    var args := seq(|paths|, i requires 0 <= i < |paths| => MountArg(paths[i]));
    var tokens := DesktopQuoteAll(args);
    forall t | t in tokens ensures IsMount(t) && IsGrant(t) {
      var i :| 0 <= i < |tokens| && tokens[i] == t;
      assert paths[i] in paths;
      OrdinaryMount(paths[i]);
      OccursHead(t, MARK, Lead(t));
    }
    forall s, t | s in tokens && t in tokens ensures !Joins(s, t) && (s != t ==> !Contains(s, t)) {
      MountsDoNotJoin(s, t);
      if s != t { MountsDoNotNest(s, t); }
    }
    SpliceIdempotent(body, tokens);
    GuardAcceptsSplice(body, tokens);
  }
}
