/** Where a launch line hands over to `flatpak run`. */
module LaunchSearch {
  import opened Text

  predicate IsBlank(c: char) {
    c == ' ' || c == '\t'
  }

  function SkipBlanks(line: string, i: nat): (r: nat)
    requires i <= |line|
    ensures i <= r <= |line|
    ensures forall k :: i <= k < r ==> IsBlank(line[k])
    ensures r < |line| ==> !IsBlank(line[r])
    decreases |line| - i
  {
    if i < |line| && IsBlank(line[i]) then SkipBlanks(line, i + 1) else i
  }

  /** `flatpak`, at least one blank and `run` stand at `p`. */
  predicate LaunchAt(line: string, p: int) {
    OccursAt(line, "flatpak", p) &&
    var g := SkipBlanks(line, p + 7);
    g > p + 7 && OccursAt(line, "run", g)
  }

  function LaunchEnd(line: string, p: int): nat
    requires LaunchAt(line, p)
  {
    SkipBlanks(line, p + 7) + 3
  }

  /** Just past the leftmost launch at or after `p`. */
  function FirstLaunch(line: string, p: nat): Option<nat>
    decreases |line| + 1 - p
  {
    if p > |line| then None
    else if LaunchAt(line, p) then Some(LaunchEnd(line, p))
    else FirstLaunch(line, p + 1)
  }

  lemma {:induction false} FirstLaunchIsLeftmost(line: string, p: nat)
    ensures FirstLaunch(line, p).None? ==> forall q :: p <= q ==> !LaunchAt(line, q)
    ensures FirstLaunch(line, p).Some? ==>
              exists q :: p <= q && LaunchAt(line, q) && FirstLaunch(line, p).value == LaunchEnd(line, q)
                          && forall k :: p <= k < q ==> !LaunchAt(line, k)
    decreases |line| + 1 - p
  {
    hide OccursAt, SkipBlanks;
    if p <= |line| && !LaunchAt(line, p) {
      FirstLaunchIsLeftmost(line, p + 1);
    }
  }

  function Launch(line: string): Option<nat> {
    FirstLaunch(line, 0)
  }

  /** `after_flatpak_run`: hop from one `flatpak` to the next. */
  method AfterFlatpakRun(line: string) returns (r: Option<nat>)
    ensures r == Launch(line)
  {
    hide OccursAt, IsBlank;
    var from := 0;
    var rel := FindFrom(line, "flatpak", 0);
    while rel.Some?
      invariant from <= |line| && rel == FindFrom(line, "flatpak", from)
      invariant FirstLaunch(line, from) == Launch(line)
      decreases |line| - from
    {
      FindFits(line, "flatpak", from);
      var at := rel.value;
      var gap := at + 7;
      var i := gap;
      while i < |line| && IsBlank(line[i])
        invariant gap <= i <= |line|
        invariant SkipBlanks(line, gap) == SkipBlanks(line, i)
      {
        i := i + 1;
      }
      assert LaunchAt(line, at) <==> i > gap && OccursAt(line, "run", i);
      NextLaunch(line, from, at);
      if i > gap && OccursAt(line, "run", i) {
        return Some(i + 3);
      }
      from := gap;
      rel := FindFrom(line, "flatpak", from);
    }
    LastLaunch(line, from);
    return None;
  }

  lemma LastLaunch(line: string, from: nat)
    requires from <= |line| && FindFrom(line, "flatpak", from).None?
    ensures FirstLaunch(line, from) == None
  {
    forall k | from <= k <= |line| ensures !LaunchAt(line, k) {
      assert !OccursAt(line, "flatpak", k);
    }
    NoLaunchBetween(line, from, |line| + 1);
  }

  /** The next `flatpak` decides: it is the launch, or nothing before its end is. */
  lemma NextLaunch(line: string, from: nat, at: nat)
    requires from <= |line| && FindFrom(line, "flatpak", from) == Some(at)
    ensures FirstLaunch(line, from) ==
            if LaunchAt(line, at) then Some(LaunchEnd(line, at)) else FirstLaunch(line, at + 7)
  {
    forall k | from <= k < at ensures !LaunchAt(line, k) {
      assert !OccursAt(line, "flatpak", k);
    }
    NoLaunchBetween(line, from, at);
    NoOverlap(line, at);
    if !LaunchAt(line, at) {
      NoLaunchBetween(line, at, at + 7);
    }
  }

  lemma {:induction false} NoLaunchBetween(line: string, a: nat, b: nat)
    requires a <= b <= |line| + 1
    requires forall k :: a <= k < b ==> !LaunchAt(line, k)
    ensures FirstLaunch(line, a) == FirstLaunch(line, b)
    decreases b - a
  {
    if a < b {
      NoLaunchBetween(line, a + 1, b);
    }
  }

  /** `flatpak` begins with its only `f`, so two of them never overlap. */
  lemma NoOverlap(line: string, at: nat)
    requires OccursAt(line, "flatpak", at)
    ensures forall k :: at < k < at + 7 ==> !LaunchAt(line, k)
  {
    forall k | at < k < at + 7 ensures !LaunchAt(line, k) {
      OccursChar(line, "flatpak", at, k - at);
      if OccursAt(line, "flatpak", k) {
        OccursChar(line, "flatpak", k, 0);
      }
    }
  }

  predicate LaunchChar(c: char) {
    || IsBlank(c)
    || c == 'f' || c == 'l' || c == 'a' || c == 't' || c == 'p' || c == 'k' || c == 'r' || c == 'u' || c == 'n'
  }

  lemma WordChars(s: string, w: string, p: nat)
    requires OccursAt(s, w, p) && forall k :: 0 <= k < |w| ==> LaunchChar(w[k])
    ensures forall i :: p <= i < p + |w| ==> LaunchChar(s[i])
  {
    forall i | p <= i < p + |w| ensures LaunchChar(s[i]) { OccursChar(s, w, p, i - p); }
  }

  /** What the launch looks like from its end backwards. */
  lemma LaunchShape(text: string, cut: nat) returns (p: nat)
    requires Launch(text) == Some(cut)
    ensures p + 11 <= cut <= |text| && LaunchAt(text, p) && cut == LaunchEnd(text, p)
    ensures forall i :: p <= i < cut ==> LaunchChar(text[i])
    ensures StartsWith(text, "Exec=") ==> p >= 5
  {
    FirstLaunchIsLeftmost(text, 0);
    p :| 0 <= p && LaunchAt(text, p) && cut == LaunchEnd(text, p);
    WordChars(text, "flatpak", p);
    WordChars(text, "run", SkipBlanks(text, p + 7));
    if StartsWith(text, "Exec=") { NotInTheKey(text, p); }
  }

  lemma NotInTheKey(text: string, p: nat)
    requires OccursAt(text, "flatpak", p) && StartsWith(text, "Exec=")
    ensures p >= 5
  {
    hide OccursAt;
    if p < 5 {
      assert text[p] == "Exec="[p];
      OccursChar(text, "flatpak", p, 0);
    }
  }

  /** `flatpak` at `p`, only spaces and tabs behind it up to `g` and at least one, and `run` at `g`. */
  predicate Launches(line: string, p: int, g: int) {
    OccursAt(line, "flatpak", p) && p + 7 < g && OccursAt(line, "run", g)
    && forall i :: p + 7 <= i < g ==> line[i] == ' ' || line[i] == '\t'
  }

  lemma LaunchesAt(line: string, p: int, g: int)
    ensures Launches(line, p, g) <==> LaunchAt(line, p) && g == LaunchEnd(line, p) - 3
  {
    hide OccursAt;
    OccursFits(line, "flatpak", p);
    OccursFits(line, "run", g);
    OccursHead(line, "run", g);
  }

  /** The leftmost place where `flatpak run` stands. */
  ghost predicate LeftmostLaunch(line: string, p: int, g: int) {
    Launches(line, p, g) && forall q, h :: q < p ==> !Launches(line, q, h)
  }

  lemma OccursFits(s: string, t: string, i: int)
    ensures OccursAt(s, t, i) ==> 0 <= i && i + |t| <= |s|
  {
  }

  /** The cut is right behind the leftmost launch, told without the search. */
  lemma LaunchIsExactly(line: string, cut: nat)
    ensures Launch(line) == Some(cut) <==> exists p, g :: LeftmostLaunch(line, p, g) && cut == g + 3
    ensures Launch(line) == None <==> forall p, g :: !Launches(line, p, g)
  {
    hide OccursAt, SkipBlanks, Launches, LaunchAt;
    FirstLaunchIsLeftmost(line, 0);
    forall q, g ensures Launches(line, q, g) <==> LaunchAt(line, q) && g == LaunchEnd(line, q) - 3 {
      LaunchesAt(line, q, g);
    }
    forall q: int ensures LaunchAt(line, q) ==> 0 <= q { NotBeforeStart(line, q); }
    if Launch(line).Some? {
      var p :| 0 <= p && LaunchAt(line, p) && Launch(line).value == LaunchEnd(line, p) &&
        forall k :: 0 <= k < p ==> !LaunchAt(line, k);
      assert LeftmostLaunch(line, p, LaunchEnd(line, p) - 3);
      OneLeftmost(line, p, LaunchEnd(line, p) - 3);
    }
  }

  lemma OneLeftmost(line: string, p: int, g: int)
    requires LeftmostLaunch(line, p, g)
    ensures forall q, h :: LeftmostLaunch(line, q, h) ==> q == p && h == g
  {
    hide Launches, LaunchAt;
    forall q, h | LeftmostLaunch(line, q, h) ensures q == p && h == g {
      LaunchesAt(line, p, g);
      LaunchesAt(line, q, h);
    }
  }

  lemma NotBeforeStart(line: string, q: int)
    ensures LaunchAt(line, q) ==> 0 <= q
  {
  }
}
