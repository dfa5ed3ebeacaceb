/** The guard that re-checks a splice before it is written over the user's file. */
module GrantGuard {
  import opened Text
  import opened DesktopLines
  import opened LaunchSearch
  import opened GrantSplice

  datatype Verdict =
    | Accepted
    | LineCountChanged
    | NotAnExecLine
    | AddedMoreThanOnce
    | ChangedBeyondGrants

  // ---------------------------------------------------------------------------
  // The check

  /** `matches(t).count()`: occurrences taken left to right without overlap. */
  function Count(s: string, t: string): nat
    decreases |s|
  {
    if t == "" then |s| + 1
    else match Find(s, t)
      case None => 0
      case Some(i) => 1 + Count(s[i + |t|..], t)
  }

  /** `replacen(t, "", 1)`. */
  function RemoveFirst(s: string, t: string): string {
    match Find(s, t)
    case None => s
    case Some(i) => s[..i] + s[i + |t|..]
  }

  /** One line as `str::lines` hands it out: without its newline, nor one carriage return before it. */
  function Bare(line: string): string {
    if !EndsLine(line) then line
    else
      var a := line[..|line| - 1];
      if a != "" && a[|a| - 1] == '\r' then a[..|a| - 1] else a
  }

  function BareLines(body: string): (r: seq<string>)
    ensures |r| == |Lines(body)| && forall i :: 0 <= i < |r| ==> r[i] == Bare(Lines(body)[i])
  {
    seq(|Lines(body)|, i requires 0 <= i < |Lines(body)| => Bare(Lines(body)[i]))
  }

  function Added(o: string, n: string, t: string): nat {
    if Count(n, t) >= Count(o, t) then Count(n, t) - Count(o, t) else 0
  }

  /** What is left of the new line once each added grant is taken out again; `None` when one was added
      more than once. */
  function Stripped(stripped: string, o: string, n: string, tokens: seq<string>): Option<string>
    decreases |tokens|
  {
    if tokens == [] then Some(stripped)
    else if Added(o, n, tokens[0]) > 1 then None
    else Stripped(if Added(o, n, tokens[0]) == 1 then RemoveFirst(stripped, " " + tokens[0])
        else stripped, o, n, tokens[1..])
  }

  function CheckedLine(o: string, n: string, tokens: seq<string>): Verdict {
    if o == n then Accepted
    else if !StartsWith(o, "Exec=") then NotAnExecLine
    else match Stripped(n, o, n, tokens)
      case None => AddedMoreThanOnce
      case Some(s) => if s == o then Accepted else ChangedBeyondGrants
  }

  function CheckedLines(os: seq<string>, ns: seq<string>, tokens: seq<string>): Verdict
    requires |os| == |ns|
  {
    if os == [] then Accepted
    else
      var v := CheckedLine(os[0], ns[0], tokens);
      if v == Accepted then CheckedLines(os[1..], ns[1..], tokens) else v
  }

  function Checked(before: string, after: string, tokens: seq<string>): Verdict {
    var os, ns := BareLines(before), BareLines(after);
    if |os| != |ns| then LineCountChanged else CheckedLines(os, ns, tokens)
  }

  /** `only_exec_grants_changed`. */
  method OnlyExecGrantsChanged(before: string, after: string, grants: seq<string>) returns (v: Verdict)
    ensures v == Checked(before, after, grants)
  {
    var old_, new_ := BareLines(before), BareLines(after);
    if |old_| != |new_| {
      return LineCountChanged;
    }
    for i := 0 to |old_|
      invariant CheckedLines(old_[i..], new_[i..], grants) == CheckedLines(old_, new_, grants)
    {
      var o, n := old_[i], new_[i];
      assert old_[i..][0] == o && old_[i..][1..] == old_[i + 1..];
      assert new_[i..][0] == n && new_[i..][1..] == new_[i + 1..];
      if o == n {
        continue;
      }
      if !StartsWith(o, "Exec=") {
        return NotAnExecLine;
      }
      var stripped := n;
      for j := 0 to |grants|
        invariant Stripped(stripped, o, n, grants[j..]) == Stripped(n, o, n, grants)
      {
        var token := grants[j];
        assert grants[j..][0] == token && grants[j..][1..] == grants[j + 1..];
        var added := Added(o, n, token);
        if added > 1 {
          return AddedMoreThanOnce;
        }
        if added == 1 {
          stripped := RemoveFirst(stripped, " " + token);
        }
      }
      if stripped != o {
        return ChangedBeyondGrants;
      }
    }
    return Accepted;
  }

  // ---------------------------------------------------------------------------
  // Counting across seams

  lemma OccursShifted(s: string, t: string, d: nat, i: nat)
    requires d <= |s|
    ensures OccursAt(s[d..], t, i) <==> OccursAt(s, t, d + i)
  {
    assert s == s[..d] + s[d..];
    OccursInSuffix(s[..d], s[d..], t, i);
    OccursInSuffix(s[..d], s[d..], t, d + i);
  }

  ghost predicate Uncrossed(a: string, b: string, t: string) {
    forall i :: OccursAt(a + b, t, i) ==> i + |t| <= |a| || i >= |a|
  }

  lemma FindInLeft(a: string, b: string, t: string)
    requires Find(a, t).Some?
    ensures Find(a + b, t) == Find(a, t)
  {
    var i := Find(a, t).value;
    OccursInPrefix(a, b, t, i);
    forall j | 0 <= j < i ensures !OccursAt(a + b, t, j) { OccursInPrefix(a, b, t, j); }
    assert Contains(a + b, t);
  }

  lemma FindInRight(a: string, b: string, t: string)
    requires t != "" && Uncrossed(a, b, t) && Find(a, t).None?
    ensures Find(a + b, t) == if Find(b, t).Some? then Some(|a| + Find(b, t).value) else None
  {
    forall j | OccursAt(a + b, t, j) ensures j >= |a| && OccursAt(b, t, j - |a|) {
      OccursInPrefix(a, b, t, j);
      OccursInSuffix(a, b, t, j);
    }
    if Find(b, t).Some? {
      OccursInSuffix(a, b, t, Find(b, t).value);
      assert Contains(a + b, t);
    }
  }

  lemma UncrossedShift(a: string, b: string, t: string, d: nat)
    requires d <= |a| && Uncrossed(a, b, t)
    ensures Uncrossed(a[d..], b, t)
  {
    assert (a + b)[d..] == a[d..] + b;
    forall j | OccursAt(a[d..] + b, t, j) ensures j + |t| <= |a[d..]| || j >= |a[d..]| {
      OccursShifted(a + b, t, d, j);
    }
  }

  lemma {:induction false} CountSeam(a: string, b: string, t: string)
    requires t != "" && Uncrossed(a, b, t)
    ensures Count(a + b, t) == Count(a, t) + Count(b, t)
    decreases |a|
  {
    hide OccursAt, Contains;
    match Find(a, t)
    case Some(i) =>
      FindInLeft(a, b, t);
      FindFits(a, t, 0);
      var d := i + |t|;
      assert (a + b)[d..] == a[d..] + b;
      UncrossedShift(a, b, t, d);
      CountSeam(a[d..], b, t);
    case None =>
      FindInRight(a, b, t);
      FindFits(b, t, 0);
      if Find(b, t).Some? {
        var k := Find(b, t).value;
        assert (a + b)[|a| + k + |t|..] == b[k + |t|..];
      }
  }

  lemma CountBreak(a: string, b: string, t: string)
    requires t != "" && !Joins(a, t) && (b == "" || IsBreak(b[0]))
    ensures Count(a + b, t) == Count(a, t) + Count(b, t)
  {
    forall i | OccursAt(a + b, t, i) ensures i + |t| <= |a| || i >= |a| { CrossingJoins(a, b, t, i); }
    CountSeam(a, b, t);
  }

  lemma CountSpaced(s: string, t: string)
    requires t != "" && t[0] != ' '
    ensures Count(" " + s, t) == Count(s, t)
  {
    forall i | OccursAt(" " + s, t, i) ensures i >= 1 { OccursChar(" " + s, t, i, 0); }
    CountSeam(" ", s, t);
    NotInSpaced("", t);
    assert " " + "" == " ";
  }

  /** How often `t` stands in the placed grants, one by one. */
  function CountEach(ss: seq<string>, t: string): nat {
    if ss == [] then 0 else CountEach(ss[..|ss| - 1], t) + Count(ss[|ss| - 1], t)
  }

  lemma CountAfter(x: string, s: string, t: string)
    requires IsGrant(t) && !Joins(x, t)
    ensures Count(x + (" " + s), t) == Count(x, t) + Count(s, t)
  {
    CountBreak(x, " " + s, t);
    CountSpaced(s, t);
  }

  lemma InsertedLast(p: string, rest: seq<string>, s: string)
    ensures p + Inserted(rest + [s]) == p + Inserted(rest) + (" " + s)
  {
    InsertedSnoc(rest, s);
    var x := Inserted(rest);
    assert p + (x + " " + s) == p + x + (" " + s);
  }

  lemma {:induction false} CountPlaced(p: string, ss: seq<string>, t: string)
    requires IsGrant(t) && !Joins(p, t) && forall s :: s in ss ==> !Joins(s, t)
    ensures Count(p + Inserted(ss), t) == Count(p, t) + CountEach(ss, t)
  {
    if ss == [] {
      assert p + Inserted(ss) == p;
    } else {
      var rest, s := ss[..|ss| - 1], ss[|ss| - 1];
      assert ss == rest + [s];
      CountPlaced(p, rest, t);
      JoinsPlaced(p, rest, t);
      CountAfter(p + Inserted(rest), s, t);
      InsertedLast(p, rest, s);
    }
  }

  /** The guard's count on a patched line, taken apart. */
  lemma CountLine(p: string, ss: seq<string>, r: string, pool: seq<string>, t: string)
    requires Ready(p, r, pool) && t in pool && forall s :: s in ss ==> s in pool
    ensures Count(p + Inserted(ss) + r, t) == Count(p + r, t) + CountEach(ss, t)
  {
    JoinsPlaced(p, ss, t);
    CountBreak(p + Inserted(ss), r, t);
    CountPlaced(p, ss, t);
    CountBreak(p, r, t);
  }

  // ---------------------------------------------------------------------------
  // Why the guard accepts the splice

  /** No grant occurs inside a different one. */
  predicate Independent(tokens: seq<string>) {
    forall s, t :: s in tokens && t in tokens && s != t ==> !Contains(s, t)
  }

  lemma CountSelf(t: string)
    requires t != ""
    ensures Count(t, t) == 1
  {
    ContainsSelf(t);
    var i := Find(t, t).value;
    assert i == 0 && t[|t|..] == "";
    assert Count("", t) == 0 by { assert forall j :: 0 <= j <= 0 ==> !OccursAt("", t, j); }
  }

  lemma {:induction false} CountEachOnce(ss: seq<string>, pool: seq<string>, t: string)
    requires Distinct(ss) && Independent(pool) && t in pool && t != "" && forall s :: s in ss ==> s in pool
    ensures CountEach(ss, t) == if t in ss then 1 else 0
  {
    if ss != [] {
      var rest, s := ss[..|ss| - 1], ss[|ss| - 1];
      CountEachOnce(rest, pool, t);
      if s == t { CountSelf(t); assert t !in rest; } else { assert s in ss && !Contains(s, t); }
    }
  }

  /** What stands in none of the grants does not stand in a line they were placed in. */
  lemma {:induction false} NotAmong(p: string, us: seq<string>, t: string)
    requires t != "" && t[0] != ' ' && !Joins(p, t) && !Contains(p, t)
    requires forall u :: u in us ==> !Contains(u, t) && !Joins(u, t)
    ensures !Contains(p + Inserted(us), t)
  {
    hide Contains, Joins;
    if us == [] {
      assert p + Inserted(us) == p;
    } else {
      var rest, u := us[..|us| - 1], us[|us| - 1];
      assert u in us;
      NotAmong(p, rest, t);
      JoinsPlaced(p, rest, t);
      ContainsAcross(p + Inserted(rest), " " + u, t);
      assert p + Inserted(us) == p + Inserted(rest) + (" " + u);
      NotInSpaced(u, t);
    }
  }

  lemma NotInPlaced(p: string, us: seq<string>, pool: seq<string>, t: string)
    requires Spliceable(pool) && Independent(pool) && t in pool && !Joins(p, t)
    requires (forall u :: u in us ==> u in pool && u != t) && !Contains(p, t)
    ensures !Contains(p + Inserted(us), t)
  {
    NotAmong(p, us, t);
  }

  lemma NotInSpaced(u: string, t: string)
    requires t != "" && t[0] != ' ' && !Contains(u, t)
    ensures !Contains(" " + u, t)
  {
    forall i | 0 <= i <= |u| + 1 ensures !OccursAt(" " + u, t, i) {
      if OccursAt(" " + u, t, i) {
        OccursChar(" " + u, t, i, 0);
        OccursInSuffix(" ", u, t, i);
      }
    }
  }

  /** Everything placed is placed once, and stood nowhere in the line before. */
  lemma {:induction false} PlacedIsNew(p: string, ss: seq<string>, r: string, tokens: seq<string>)
    requires Distinct(ss)
    ensures Distinct(Placed(p, ss, r, tokens))
    ensures forall t :: t in Placed(p, ss, r, tokens) ==> t in ss || (!Contains(p, t) && !Contains(r, t))
    decreases |tokens|
  {
    if tokens != [] {
      var t := tokens[0];
      if Contains(p + Inserted(ss) + r, t) {
        PlacedIsNew(p, ss, r, tokens[1..]);
      } else {
        if Contains(p, t) || Contains(r, t) { ContainsGap(p, Inserted(ss), r, t); }
        if t in ss { InsertedHolds(p, ss, r, t); }
        PlacedIsNew(p, ss + [t], r, tokens[1..]);
      }
    }
  }

  lemma {:induction false} InsertedHolds(p: string, ss: seq<string>, r: string, t: string)
    requires t in ss
    ensures Contains(p + Inserted(ss) + r, t)
  {
    var n := |ss| - 1;
    var r' := " " + ss[n] + r;
    assert p + Inserted(ss) + r == p + Inserted(ss[..n]) + r';
    if ss[n] == t {
      ContainsSelf(t);
      ContainsWiden(p + Inserted(ss[..n]) + " ", t, r, t);
      assert p + Inserted(ss) + r == p + Inserted(ss[..n]) + " " + t + r;
    } else {
      InsertedHolds(p, ss[..n], r', t);
    }
  }

  /** `a` lacks `t` and does not reach into it: the first `t` after a space is the one right after `a`. */
  lemma RemoveAfter(a: string, b: string, t: string)
    requires t != "" && t[0] != ' ' && !Contains(a, t) && !Joins(a, t)
    ensures RemoveFirst(a + (" " + t + b), " " + t) == a + b
  {
    hide Joins, Contains, OccursAt;
    var whole := a + (" " + t + b);
    StandsBetween(a, " " + t, b);
    forall i | 0 <= i < |a| ensures !OccursAt(whole, " " + t, i) { NotBefore(a, b, t, i); }
    FindIs(whole, " " + t, |a|);
  }

  lemma StandsBetween(a: string, w: string, b: string)
    ensures OccursAt(a + (w + b), w, |a|) && (a + (w + b))[..|a|] + (a + (w + b))[|a| + |w|..] == a + b
  {
    assert (a + (w + b))[|a|..|a| + |w|] == w;
  }

  lemma FindIs(s: string, t: string, i: nat)
    requires OccursAt(s, t, i) && forall j :: 0 <= j < i ==> !OccursAt(s, t, j)
    ensures Find(s, t) == Some(i)
  {
    assert Contains(s, t);
  }

  lemma NotBefore(a: string, b: string, t: string, i: nat)
    requires t != "" && t[0] != ' ' && !Contains(a, t) && !Joins(a, t) && i < |a|
    ensures !OccursAt(a + (" " + t + b), " " + t, i)
  {
    var whole := a + (" " + t + b);
    OccursHead(whole, t, |a|);
    if OccursAt(whole, " " + t, i) {
      assert whole[i + 1..i + 1 + |t|] == whole[i..i + 1 + |t|][1..] == t;
      CrossingJoins(a, " " + t + b, t, i + 1);
      OccursInPrefix(a, " " + t + b, t, i + 1);
    }
  }

  lemma ReadyGrant(p: string, r: string, pool: seq<string>, t: string)
    requires Ready(p, r, pool) && t in pool
    ensures t != "" && t[0] != ' ' && !Joins(p, t) && forall s :: s in pool ==> !Joins(s, t)
  {
  }

  /** Taking one placed grant out leaves the others as they were. */
  lemma RemovePlaced(p: string, us: seq<string>, r: string, pool: seq<string>, j: nat)
    requires Ready(p, r, pool) && Independent(pool) && Distinct(us) && j < |us|
    requires (forall u :: u in us ==> u in pool) && !Contains(p, us[j])
    ensures RemoveFirst(p + Inserted(us) + r, " " + us[j]) == p + Inserted(us[..j] + us[j + 1..]) + r
  {
    hide Inserted, Contains, Joins, RemoveFirst;
    var l, t, m := us[..j], us[j], us[j + 1..];
    assert us == (l + [t]) + m;
    assert t in us;
    ReadyGrant(p, r, pool, t);
    NotInPlaced(p, l, pool, t);
    JoinsPlaced(p, l, t);
    RemoveAfter(p + Inserted(l), Inserted(m) + r, t);
    InsertedThree(l, t, m);
    Regroup(p, Inserted(us), Inserted(l + m), Inserted(l), t, Inserted(m), r);
  }

  lemma InsertedThree(l: seq<string>, u: string, m: seq<string>)
    ensures Inserted((l + [u]) + m) == Inserted(l) + " " + u + Inserted(m) &&
              Inserted(l + m) == Inserted(l) + Inserted(m)
  {
    hide Inserted;
    InsertedSnoc(l, u);
    InsertedAppend(l + [u], m);
    InsertedAppend(l, m);
  }

  /** `whole` and `less` are what is inserted with and without `u` between `l` and `m`. */
  lemma Regroup(p: string, whole: string, less: string, l: string, u: string, m: string, r: string)
    requires whole == l + " " + u + m && less == l + m
    ensures p + whole + r == p + l + (" " + u + (m + r)) && p + less + r == p + l + (m + r)
  {
  }

  lemma NotRemovable(p: string, us: seq<string>, r: string, pool: seq<string>, t: string)
    requires Ready(p, r, pool) && Independent(pool) && t in pool
    requires (forall u :: u in us ==> u in pool && u != t) && !Contains(p, t) && !Contains(r, t)
    ensures RemoveFirst(p + Inserted(us) + r, " " + t) == p + Inserted(us) + r
  {
    var whole := p + Inserted(us) + r;
    NotInPlaced(p, us, pool, t);
    ContainsPlaced(p, us, r, pool, t);
    forall i | 0 <= i <= |whole| ensures !OccursAt(whole, " " + t, i) {
      if OccursAt(whole, " " + t, i) {
        assert whole[i + 1..i + 1 + |t|] == whole[i..i + 1 + |t|][1..] == t;
        assert OccursAt(whole, t, i + 1);
      }
    }
  }

  lemma AddedOnce(p: string, ss: seq<string>, r: string, pool: seq<string>, t: string)
    requires Ready(p, r, pool) && Independent(pool) && Distinct(ss) && t in pool && forall s :: s in ss ==> s in pool
    ensures Added(p + r, p + Inserted(ss) + r, t) == if t in ss then 1 else 0
  {
    CountLine(p, ss, r, pool, t);
    CountEachOnce(ss, pool, t);
  }

  lemma NothingPlaced(p: string, us: seq<string>, r: string)
    requires forall u :: u !in us
    ensures p + Inserted(us) + r == p + r
  {
    var u0 := if us == [] then "" else us[0];
    assert us != [] ==> u0 in us;
    assert p + "" + r == p + r;
  }

  lemma WithoutOne(us: seq<string>, j: nat)
    requires Distinct(us) && j < |us|
    ensures var vs := us[..j] + us[j + 1..]; Distinct(vs) && forall v :: v in vs ==> v in us && v != us[j]
  {
  }

  /** The guard's loop takes the placed grants out again, in whatever order it meets them. */
  lemma {:induction false} StripsPlaced(p: string, ss: seq<string>, us: seq<string>, r: string, tokens: seq<string>,
      pool: seq<string>)
    requires Ready(p, r, pool) && Independent(pool) && Distinct(ss) && Distinct(us)
    requires forall t :: t in tokens ==> t in pool
    requires forall s :: s in ss ==> s in pool && !Contains(p, s) && !Contains(r, s)
    requires forall u :: u in us ==> u in ss && u in tokens
    ensures Stripped(p + Inserted(us) + r, p + r, p + Inserted(ss) + r, tokens) == Some(p + r)
    decreases |tokens|
  {
    hide Ready, Independent, Contains, Inserted, Added;
    if tokens == [] {
      NothingPlaced(p, us, r);
    } else {
      var t := tokens[0];
      var vs := us;
      AddedOnce(p, ss, r, pool, t);
      if t in us {
        var j :| 0 <= j < |us| && us[j] == t;
        RemovePlaced(p, us, r, pool, j);
        vs := us[..j] + us[j + 1..];
        WithoutOne(us, j);
      } else if t in ss {
        NotRemovable(p, us, r, pool, t);
      }
      forall v | v in vs ensures v in ss && v in tokens[1..] { assert v in us && v != t; }
      StripsPlaced(p, ss, vs, r, tokens[1..], pool);
    }
  }

  /** The guard accepts a spliced text followed by whatever carriage returns `lines` leaves on it. */
  lemma AcceptsText(text: string, e: string, tokens: seq<string>)
    requires StartsWith(text, "Exec=") && SafeLaunch(text) && Spliceable(tokens) && Independent(tokens)
    requires forall i :: 0 <= i < |e| ==> e[i] == '\r'
    ensures CheckedLine(text + e, SplicedText(text, tokens) + e, tokens) == Accepted
  {
    hide Ready, Inserted, Stripped, Spliceable;
    if Launch(text).Some? {
      var cut := Launch(text).value;
      LaunchReady(text, cut, tokens);
      var p, r := text[..cut], text[cut..];
      AcceptsParts(p, r, e, tokens);
      assert p + (r + e) == text + e;
      assert p + Inserted(Placed(p, [], r, tokens)) + (r + e) == SplicedText(text, tokens) + e;
      assert (text + e)[..5] == text[..5];
    }
  }

  lemma AcceptsParts(p: string, r: string, e: string, tokens: seq<string>)
    requires Ready(p, r, tokens) && Independent(tokens) && forall i :: 0 <= i < |e| ==> e[i] == '\r'
    ensures var n := p + Inserted(Placed(p, [], r, tokens)) + (r + e);
            Stripped(n, p + (r + e), n, tokens) == Some(p + (r + e))
  {
    var ss := Placed(p, [], r, tokens);
    var more := PlacedGrows(p, [], r, tokens);
    assert [] + more == more;
    PlacedIsNew(p, [], r, tokens);
    forall s | s in ss ensures !Contains(r + e, s) { NotInReturns(r, e, s); }
    assert Ready(p, r + e, tokens);
    StripsPlaced(p, ss, ss, r + e, tokens, tokens);
  }

  lemma NotInReturns(r: string, e: string, t: string)
    requires !Contains(r, t) && '\r' !in t && t != "" && forall i :: 0 <= i < |e| ==> e[i] == '\r'
    ensures !Contains(r + e, t)
  {
    forall i | 0 <= i <= |r + e| ensures !OccursAt(r + e, t, i) {
      if OccursAt(r + e, t, i) {
        OccursInPrefix(r, e, t, i);
        OccursChar(r + e, t, i, |t| - 1);
      }
    }
  }

  lemma BareShape(line: string, text: string, e: string, k: nat)
    requires line == text + e && IsText(text) && IsEnding(e, k) && (forall i :: 0 <= i < |e| - 1 ==> e[i] != '\n')
    ensures Bare(line) == text + Bare(e)
    ensures forall i :: 0 <= i < |Bare(e)| ==> Bare(e)[i] == '\r'
  {
    if e != "" {
      assert line[|line| - 1] == e[|e| - 1];
      if EndsLine(e) {
        assert line[..|line| - 1] == text + e[..|e| - 1];
      }
    }
  }

  lemma AcceptsLine(line: string, tokens: seq<string>)
    requires IsLine(line) && Spliceable(tokens) && Independent(tokens)
    requires StartsWith(LineText(line), "Exec=") ==> SafeLaunch(LineText(line))
    ensures CheckedLine(Bare(line), Bare(SplicedLine(line, tokens)), tokens) == Accepted
  {
    if StartsWith(LineText(line), "Exec=") {
      var k := EndingShape(line);
      var text, e := LineText(line), LineEnding(line);
      assert forall i :: 0 <= i < |e| - 1 ==> e[i] == line[|text| + i];
      BareShape(line, text, e, k);
      assert forall t :: t in tokens ==> IsGrant(t);
      ExecTextShape(text, tokens);
      BareShape(SplicedLine(line, tokens), SplicedText(text, tokens), e, k);
      AcceptsText(text, Bare(e), tokens);
    }
  }

  lemma {:induction false} AcceptsLines(os: seq<string>, ns: seq<string>, tokens: seq<string>)
    requires |os| == |ns| && forall i :: 0 <= i < |os| ==> CheckedLine(os[i], ns[i], tokens) == Accepted
    ensures CheckedLines(os, ns, tokens) == Accepted
  {
    if os != [] {
      AcceptsLines(os[1..], ns[1..], tokens);
    }
  }

  /** The guard never refuses what the splice produced, provided no grant occurs inside another. */
  lemma GuardAcceptsSplice(body: string, tokens: seq<string>)
    requires Spliceable(tokens) && Independent(tokens) && SafeBody(body)
    ensures Checked(body, Spliced(body, tokens), tokens) == Accepted
  {
    assert forall t :: t in tokens ==> IsGrant(t);
    SpliceKeepsLines(body, tokens);
    var os, ns := BareLines(body), BareLines(Spliced(body, tokens));
    forall i | 0 <= i < |os| ensures CheckedLine(os[i], ns[i], tokens) == Accepted {
      var l := Lines(body)[i];
      assert l in Lines(body);
      AcceptsLine(l, tokens);
    }
    AcceptsLines(os, ns, tokens);
  }
}
