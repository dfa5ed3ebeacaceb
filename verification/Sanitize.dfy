/** Reducing anything that claims to be a filename to a safe leaf name. */
module Sanitize {
  import opened Text
  import opened Filename

  // ---------------------------------------------------------------------------
  // Cutting to a byte budget

  /** How many whole characters fit in `room` bytes, looking at the first `k`. */
  function Fitting(name: string, room: nat, k: nat): (r: nat)
    requires k <= |name|
    ensures r <= k && (r > 0 ==> Bytes(name[..r]) <= room)
    ensures forall j :: r < j <= k ==> Bytes(name[..j]) > room
    decreases k
  {
    if k == 0 || Bytes(name[..k]) <= room then k else Fitting(name, room, k - 1)
  }

  function KeptExtension(name: string): string {
    if Bytes(Extension(name)) <= 16 then Extension(name) else ""
  }

  function Room(name: string, max: nat): nat {
    if max >= Bytes(KeptExtension(name)) then max - Bytes(KeptExtension(name)) else 0
  }

  function Truncated(name: string, max: nat): string {
    if Bytes(name) <= max then name
    else name[..Fitting(name, Room(name, max), |name|)] + KeptExtension(name)
  }

  predicate IsBoundary(name: string, cut: nat) {
    exists k :: 0 <= k <= |name| && Bytes(name[..k]) == cut
  }

  /** `truncate_bytes`: step the byte offset back to a character boundary. */
  method TruncateBytes(name: string, max: nat) returns (r: string)
    ensures r == Truncated(name, max)
  {
    if Bytes(name) <= max {
      return name;
    }
    var ext := KeptExtension(name);
    var room := Room(name, max);
    assert name[..|name|] == name;
    assert name[..0] == "";
    var cut := if room <= Bytes(name) then room else Bytes(name);
    while cut > 0 && !IsBoundary(name, cut)
      invariant cut <= room && cut <= Bytes(name)
      invariant forall j :: 0 <= j <= |name| && Bytes(name[..j]) <= room ==> Bytes(name[..j]) <= cut
    {
      cut := cut - 1;
    }
    assert Bytes(name[..0]) == 0;
    var k :| 0 <= k <= |name| && Bytes(name[..k]) == cut;
    CutIsFitting(name, room, cut, k);
    return name[..k] + ext;
  }

  lemma CutIsFitting(name: string, room: nat, cut: nat, k: nat)
    requires k <= |name| && Bytes(name[..k]) == cut <= room
    requires forall j :: 0 <= j <= |name| && Bytes(name[..j]) <= room ==> Bytes(name[..j]) <= cut
    ensures k == Fitting(name, room, |name|)
  {
    var f := Fitting(name, room, |name|);
    if k < f { BytesPrefix(name, k, f); }
    assert name[..0] == "";
  }

  /** The cut keeps whole characters, stays in the budget and wastes at most three bytes of it. */
  lemma TruncatedFits(name: string, max: nat)
    requires max >= 16
    ensures Bytes(Truncated(name, max)) <= max
    ensures Bytes(name) > max ==>
              var k := Fitting(name, Room(name, max), |name|);
              Truncated(name, max) == name[..k] + KeptExtension(name) && Bytes(Truncated(name, max)) >= max - 3
              && 4 * k >= max - 19
  {
    if Bytes(name) > max {
      var room := Room(name, max);
      var k := Fitting(name, room, |name|);
      BytesAppend(name[..k], KeptExtension(name));
      assert name[..|name|] == name;
      assert name[..0] == "";
      assert k < |name|;
      BytesPrefix(name, k, k + 1);
      assert Bytes(name[..k + 1]) > room;
      BytesPrefix(name, 0, k);
    }
  }

  // ---------------------------------------------------------------------------
  // Cleaning

  predicate IsSeparator(c: char) {
    c == '/' || c == '\\'
  }

  /** The last component under either separator. */
  function Leaf(name: string): string {
    if name == "" || IsSeparator(name[|name| - 1]) then "" else Leaf(name[..|name| - 1]) + [name[|name| - 1]]
  }

  lemma {:induction false} LeafShape(name: string)
    ensures var r := Leaf(name);
            && |r| <= |name| && r == name[|name| - |r|..]
            && (forall i :: 0 <= i < |r| ==> !IsSeparator(r[i]))
            && (|r| < |name| ==> IsSeparator(name[|name| - |r| - 1]))
  {
    if name != "" && !IsSeparator(name[|name| - 1]) {
      LeafShape(name[..|name| - 1]);
    }
  }

  predicate IsClean(c: char) {
    !IsControl(c) && !IsDeceptive(c) && !IsForbidden(c)
  }

  function CleanChars(s: string): string {
    if s == "" then ""
    else if IsControl(s[0]) || IsDeceptive(s[0]) then CleanChars(s[1..])
    else [if IsForbidden(s[0]) then '_' else s[0]] + CleanChars(s[1..])
  }

  predicate AllClean(s: string) {
    forall i :: 0 <= i < |s| ==> IsClean(s[i])
  }

  /** Every character of `t` is the replacement character or one of `s`. */
  predicate Drawn(t: string, s: string) {
    forall i :: 0 <= i < |t| ==> t[i] == '_' || t[i] in s
  }

  lemma {:induction false} CleanCharsShape(s: string)
    ensures AllClean(CleanChars(s)) && Drawn(CleanChars(s), s)
    ensures AllClean(s) ==> CleanChars(s) == s
  {
    if s != "" {
      var rest := CleanChars(s[1..]);
      CleanCharsShape(s[1..]);
      assert s == [s[0]] + s[1..];
      assert s[0] in s;
      forall i | 0 <= i < |rest| ensures rest[i] == '_' || rest[i] in s {}
      assert AllClean(s) ==> IsClean(s[0]) && AllClean(s[1..]);
    }
  }

  lemma DrawnThrough(t: string, s: string, lo: nat, hi: nat)
    requires lo <= hi <= |s| && t == s[lo..hi]
    ensures Drawn(t, s) && (AllClean(s) ==> AllClean(t))
  {
  }

  lemma DrawnFurther(a: string, b: string, c: string)
    requires Drawn(a, b) && Drawn(b, c)
    ensures Drawn(a, c)
  {
  }

  /** White space off both ends, then dots and spaces off the end. */
  function TrimBoth(s: string): string {
    TrimEndSet(Trim(s), {'.', ' '})
  }

  function Tidied(name: string): string {
    TrimBoth(CleanChars(TrimBoth(Leaf(name))))
  }

  /** The device names: `con`, `prn`, `aux`, `nul`, and `com` and `lpt` with a digit from 1 to 9. */
  predicate IsReserved(stem: string) {
    || stem == "con" || stem == "prn" || stem == "aux" || stem == "nul"
    || (|stem| == 4 && (stem[..3] == "com" || stem[..3] == "lpt") && '1' <= stem[3] <= '9')
  }

  /** Up to the first dot. */
  function FirstPart(s: string): string {
    if s == "" || s[0] == '.' then "" else [s[0]] + FirstPart(s[1..])
  }

  predicate AllDots(s: string) {
    forall i :: 0 <= i < |s| ==> s[i] == '.'
  }

  /** The name before it is cut, or `None` when nothing usable is left. */
  function Prepared(name: string): (r: Option<string>)
    ensures r.Some? ==> r.value != ""
  {
    var c := Tidied(name);
    if c == "" || AllDots(c) then None else Some(Pushed(c))
  }

  /** A device name is pushed out of the way. */
  function Pushed(c: string): string {
    if IsReserved(Lower(FirstPart(c))) then "_" + c else c
  }

  const MAX_NAME_BYTES := 255

  function Sanitized(name: string): Option<string> {
    match Prepared(name)
    case None => None
    case Some(c) => Some(Truncated(c, MAX_NAME_BYTES))
  }

  // ---------------------------------------------------------------------------
  // What every sanitised name is

  /** Both trims together cut a stretch out of the name. */
  lemma TrimBothSlice(s: string) returns (lo: nat, hi: nat)
    ensures lo <= hi <= |s| && TrimBoth(s) == s[lo..hi]
    ensures lo < hi ==> !IsWhite(s[lo]) && s[hi - 1] != '.' && s[hi - 1] != ' '
  {
    hide IsWhite, TrimStart, TrimEnd, TrimEndSet;
    var a, u := TrimStart(s), Trim(s);
    var t := TrimBoth(s);
    lo, hi := |s| - |a|, |s| - |a| + |t|;
    assert t == u[..|t|] && u == a[..|u|] && a == s[lo..];
    assert t == a[..|t|] == s[lo..hi];
  }

  /** A prepared name: clean throughout, not a device, and starting with something that shows. */
  predicate IsPrepared(c: string) {
    c != "" && AllClean(c) && !IsReserved(Lower(FirstPart(c))) && !IsWhite(c[0])
  }

  lemma UnderscoreIsFine(t: string)
    requires t != "" && AllClean(t)
    ensures IsPrepared("_" + t)
  {
    var c := "_" + t;
    forall i | 0 <= i < |c| ensures IsClean(c[i]) { if i > 0 { assert c[i] == t[i - 1]; } }
    assert FirstPart(c) == ['_'] + FirstPart(c[1..]);
    assert Lower(FirstPart(c))[0] == '_';
  }

  lemma PushedShape(t: string)
    requires t != "" && AllClean(t) && !AllDots(t) && !IsWhite(t[0])
    ensures var c := Pushed(t);
            IsPrepared(c) && !AllDots(c) && c[|c| - 1] == t[|t| - 1] && Drawn(c, t)
  {
    if IsReserved(Lower(FirstPart(t))) {
      UnderscoreIsFine(t);
      var c := "_" + t;
      assert c[|c| - 1] == t[|t| - 1];
      forall i | 0 <= i < |c| ensures c[i] == '_' || c[i] in t { if i > 0 { assert c[i] == t[i - 1]; } }
    }
  }

  /** What both trims leave, and the cleaning between them. */
  lemma TidiedShape(name: string)
    ensures var t := Tidied(name);
            && AllClean(t) && Drawn(t, name)
            && (t != "" ==> !IsWhite(t[0]) && t[|t| - 1] != '.' && t[|t| - 1] != ' ')
  {
    hide TrimBoth, CleanChars, Leaf, AllClean, Drawn, IsWhite;
    LeafShape(name);
    var lo, hi := TrimBothSlice(Leaf(name));
    DrawnThrough(TrimBoth(Leaf(name)), Leaf(name), lo, hi);
    CleanCharsShape(TrimBoth(Leaf(name)));
    TidiedFrom(name, Leaf(name), TrimBoth(Leaf(name)), CleanChars(TrimBoth(Leaf(name))));
  }

  lemma TidiedFrom(name: string, leaf: string, l: string, k: string)
    requires |leaf| <= |name| && leaf == name[|name| - |leaf|..]
    requires Drawn(l, leaf) && Drawn(k, l) && AllClean(k)
    ensures var t := TrimBoth(k);
            && AllClean(t) && Drawn(t, name)
            && (t != "" ==> !IsWhite(t[0]) && t[|t| - 1] != '.' && t[|t| - 1] != ' ')
  {
    DrawnThrough(leaf, name, |name| - |leaf|, |name|);
    DrawnFurther(l, leaf, name);
    DrawnFurther(k, l, name);
    var lo, hi := TrimBothSlice(k);
    DrawnThrough(TrimBoth(k), k, lo, hi);
    DrawnFurther(TrimBoth(k), k, name);
  }

  lemma PreparedShape(name: string)
    requires Prepared(name).Some?
    ensures var c := Prepared(name).value;
            IsPrepared(c) && !AllDots(c) && c[|c| - 1] != '.' && c[|c| - 1] != ' ' && Drawn(c, name)
  {
    hide Tidied, Pushed, AllClean, Drawn, IsPrepared, AllDots, IsWhite;
    TidiedShape(name);
    PushedShape(Tidied(name));
    DrawnFurther(Prepared(name).value, Tidied(name), name);
  }

  lemma DotAhead(a: string)
    requires a != ""
    ensures '.' in a <==> a[0] == '.' || '.' in a[1..]
  {
    assert a == [a[0]] + a[1..];
  }

  lemma HeadFirst(a: string, x: string)
    requires a != ""
    ensures [a[0]] + (a[1..] + x) == a + x
  {
  }

  lemma {:induction false} FirstPartAppend(a: string, b: string)
    ensures FirstPart(a + b) == if '.' in a then FirstPart(a) else a + FirstPart(b)
  {
    if a == "" {
      assert a + b == b;
    } else {
      assert (a + b)[0] == a[0] && (a + b)[1..] == a[1..] + b;
      DotAhead(a);
      FirstPartAppend(a[1..], b);
      HeadFirst(a, FirstPart(b));
    }
  }

  /** Cutting never uncovers a device name: the first part is kept whole or stays long. */
  lemma CutUnreserved(p: string, q: string, e: string)
    requires |p| > 4 && !IsReserved(Lower(FirstPart(p + q))) && (e == "" || e[0] == '.')
    ensures !IsReserved(Lower(FirstPart(p + e)))
  {
    FirstPartAppend(p, q);
    FirstPartAppend(p, e);
    assert FirstPart(e) == "";
  }

  lemma CutClean(c: string, p: string, e: string)
    requires AllClean(c) && p <= c && |e| <= |c| && e == c[|c| - |e|..]
    ensures AllClean(p + e)
  {
    forall i | 0 <= i < |p + e| ensures IsClean((p + e)[i]) {
      if i >= |p| { assert (p + e)[i] == c[|c| - |e| + i - |p|]; } else { assert (p + e)[i] == c[i]; }
    }
  }

  lemma CutStaysPrepared(c: string)
    requires IsPrepared(c) && !AllDots(c)
    ensures var y := Truncated(c, MAX_NAME_BYTES); IsPrepared(y) && y != "." && y != ".."
  {
    if Bytes(c) > MAX_NAME_BYTES {
      TruncatedFits(c, MAX_NAME_BYTES);
      ExtensionStartsWithDot(c);
      CutKeepsShape(c, Fitting(c, Room(c, MAX_NAME_BYTES), |c|), KeptExtension(c));
    }
  }

  lemma CutKeepsShape(c: string, k: nat, e: string)
    requires IsPrepared(c) && 4 < k <= |c| && (e == "" || e[0] == '.') && |e| <= |c| && e == c[|c| - |e|..]
    ensures IsPrepared(c[..k] + e)
  {
    hide AllClean, IsReserved, FirstPart, IsWhite;
    var p := c[..k];
    CutClean(c, p, e);
    assert c == p + c[k..];
    CutUnreserved(p, c[k..], e);
    assert (p + e)[0] == c[0];
  }

  /** Every name `sanitize` returns: not empty, one component, nothing hidden, reordered or refused by a
      file system, not a directory link, not a device, and within the byte limit. */
  lemma SanitizedIsSafe(name: string)
    requires Sanitized(name).Some?
    ensures var y := Sanitized(name).value;
            && y != "" && y != "." && y != ".."
            && (forall c :: c in y ==> c !in "/\\:<>\"|?*" && 0x20 <= c as int && !(0x7F <= c as int <= 0x9F))
            && (forall c :: c in y ==> !IsDeceptive(c))
            && Lower(FirstPart(y)) !in DEVICES
            && Bytes(y) <= 255
            && !IsWhite(y[0])
  {
    PreparedShape(name);
    var c := Prepared(name).value;
    CutStaysPrepared(c);
    TruncatedFits(c, MAX_NAME_BYTES);
    var y := Sanitized(name).value;
    forall c | c in y
      ensures c !in "/\\:<>\"|?*" && 0x20 <= c as int && !(0x7F <= c as int <= 0x9F) && !IsDeceptive(c)
    {
      CleanMeans(c);
    }
    DevicesAreReserved(Lower(FirstPart(y)));
  }

  lemma CleanMeans(c: char)
    ensures IsClean(c) <==>
            c !in "/\\:<>\"|?*" && 0x20 <= c as int && !(0x7F <= c as int <= 0x9F) && !IsDeceptive(c)
  {
  }

  /** A prepared name that fits is returned whole; a longer one keeps its first whole characters and an
      extension of up to sixteen bytes, and gives up at most three bytes of the limit. */
  lemma SanitizedKeepsExtension(name: string)
    requires Prepared(name).Some?
    ensures var c, y := Prepared(name).value, Sanitized(name).value;
            && (Bytes(c) <= 255 ==> y == c)
            && (Bytes(c) > 255 ==>
                  Bytes(y) >= 252 &&
                  exists k :: 59 <= k <= |c| && y == c[..k] + (if Bytes(Extension(c)) <= 16 then Extension(c) else ""))
  {
    TruncatedFits(Prepared(name).value, MAX_NAME_BYTES);
  }

  // ---------------------------------------------------------------------------
  // When anything usable is left

  /** Neither trimmed nor dropped anywhere in a name, and no dot. */
  predicate IsVisible(c: char) {
    c != '.' && !IsWhite(c) && !IsControl(c) && !IsDeceptive(c)
  }

  predicate Shows(s: string) {
    exists c :: c in s && IsVisible(c)
  }

  /** The only white space is the space and what counts as a control character. */
  predicate PlainSpaces(name: string) {
    forall i :: 0 <= i < |name| && IsWhite(name[i]) ==> name[i] == ' ' || IsControl(name[i])
  }

  lemma {:induction false} TrimStartKeeps(s: string, c: char)
    requires c in s && !IsWhite(c)
    ensures c in TrimStart(s)
  {
    hide IsWhite;
    if IsWhite(s[0]) {
      assert s == [s[0]] + s[1..];
      TrimStartKeeps(s[1..], c);
    }
  }

  lemma {:induction false} TrimEndKeeps(s: string, c: char)
    requires c in s && !IsWhite(c)
    ensures c in TrimEnd(s)
  {
    hide IsWhite;
    if IsWhite(s[|s| - 1]) {
      assert s == s[..|s| - 1] + [s[|s| - 1]];
      TrimEndKeeps(s[..|s| - 1], c);
    }
  }

  lemma TrimBothShows(s: string)
    requires Shows(s)
    ensures Shows(TrimBoth(s))
  {
    hide TrimStart, TrimEnd, TrimEndSet;
    var c :| c in s && IsVisible(c);
    TrimStartKeeps(s, c);
    TrimEndKeeps(TrimStart(s), c);
    var u := Trim(s);
    var i :| 0 <= i < |u| && u[i] == c;
    var r := TrimEndSet(u, {'.', ' '});
    assert i < |r| && r[i] == c;
  }

  lemma {:induction false} CleanCharsKeeps(s: string, c: char)
    requires c in s && IsVisible(c)
    ensures (if IsForbidden(c) then '_' else c) in CleanChars(s)
  {
    hide IsControl, IsDeceptive, IsForbidden, IsWhite;
    if s[0] != c {
      assert s == [s[0]] + s[1..];
      CleanCharsKeeps(s[1..], c);
    }
  }

  lemma VisibleLeavesAName(name: string)
    requires Shows(Leaf(name))
    ensures Sanitized(name).Some?
  {
    hide TrimBoth, CleanChars, Leaf;
    var l := TrimBoth(Leaf(name));
    TrimBothShows(Leaf(name));
    var c :| c in l && IsVisible(c);
    CleanCharsKeeps(l, c);
    var w := if IsForbidden(c) then '_' else c;
    assert IsVisible(w);
    TrimBothShows(CleanChars(l));
    assert Shows(Tidied(name));
  }

  lemma {:induction false} OnlyDotsAndSpaces(s: string)
    requires !Shows(s) && PlainSpaces(s)
    ensures forall i :: 0 <= i < |CleanChars(s)| ==> CleanChars(s)[i] == '.' || CleanChars(s)[i] == ' '
  {
    hide IsWhite, IsControl, IsDeceptive;
    if s != "" {
      assert s[0] in s && !IsVisible(s[0]);
      forall c | c in s[1..] ensures !IsVisible(c) { assert c in s; }
      forall i | 0 <= i < |s[1..]| && IsWhite(s[1..][i]) ensures s[1..][i] == ' ' || IsControl(s[1..][i]) {
        assert s[1..][i] == s[i + 1];
      }
      OnlyDotsAndSpaces(s[1..]);
    }
  }

  lemma PlainPart(s: string, t: string, lo: nat, hi: nat)
    requires PlainSpaces(s) && !Shows(s) && lo <= hi <= |s| && t == s[lo..hi]
    ensures PlainSpaces(t) && !Shows(t)
  {
    hide IsWhite, IsControl;
    forall c | c in t ensures !IsVisible(c) { assert c in s; }
    forall i | 0 <= i < |t| && IsWhite(t[i]) ensures t[i] == ' ' || IsControl(t[i]) { assert t[i] == s[lo + i]; }
  }

  /** A claim leaves a usable name whenever its last component shows anything but dots; where its white space
      is plain, only then. */
  lemma UsableExactly(name: string)
    ensures Shows(Leaf(name)) ==> Sanitized(name).Some?
    ensures PlainSpaces(Leaf(name)) ==> (Sanitized(name).Some? <==> Shows(Leaf(name)))
  {
    hide Leaf, CleanChars, IsWhite;
    if Shows(Leaf(name)) { VisibleLeavesAName(name); }
    if PlainSpaces(Leaf(name)) && !Shows(Leaf(name)) {
      var lo, hi := TrimBothSlice(Leaf(name));
      var l := TrimBoth(Leaf(name));
      PlainPart(Leaf(name), l, lo, hi);
      OnlyDotsAndSpaces(l);
      var a, b := TrimBothSlice(CleanChars(l));
      assert Tidied(name) == "";
    }
  }

  // ---------------------------------------------------------------------------
  // Sanitising again

  /** A trailing dot or white space, which the next pass takes off. */
  predicate EndsBadly(y: string) {
    y != "" && (y[|y| - 1] == '.' || IsWhite(y[|y| - 1]))
  }

  /** A clean name is its own leaf and its own cleaning. */
  lemma CleanIsFixed(y: string)
    requires AllClean(y)
    ensures Leaf(y) == y && CleanChars(y) == y
  {
    LeafShape(y);
    CleanCharsShape(y);
    var n := |Leaf(y)|;
    assert n < |y| ==> IsClean(y[|y| - n - 1]);
  }

  /** Tidying a clean name that starts with something visible takes characters off its end, if it has to. */
  lemma TidiedIsPrefix(y: string)
    requires AllClean(y) && y != "" && !IsWhite(y[0])
    ensures var t := Tidied(y); |t| <= |y| && t == y[..|t|] && (EndsBadly(y) <==> |t| < |y|)
  {
    CleanIsFixed(y);
    TrimBothPrefix(y);
    var l := TrimBoth(y);
    DrawnThrough(l, y, 0, |l|);
    CleanIsFixed(l);
    TrimPrefixTwice(y, l);
  }

  lemma TrimPrefixTwice(y: string, l: string)
    requires y != "" && !IsWhite(y[0]) && |l| <= |y| && l == y[..|l|]
    ensures var t := TrimBoth(l); |t| <= |l| && t == y[..|t|] && (l == y ==> (|t| < |y| <==> EndsBadly(y)))
  {
    if l == "" {
      assert TrimBoth("") == "";
    } else {
      assert l[0] == y[0];
      TrimBothPrefix(l);
    }
  }

  lemma TrimBothPrefix(y: string)
    requires y != "" && !IsWhite(y[0])
    ensures var t := TrimBoth(y); |t| <= |y| && t == y[..|t|] && (EndsBadly(y) <==> |t| < |y|)
  {
    assert TrimStart(y) == y;
    var u := TrimEnd(y);
    assert Trim(y) == u;
    var t := TrimEndSet(u, {'.', ' '});
    assert t == u[..|t|] == y[..|t|];
  }

  lemma AgainUnchanged(y: string)
    requires IsPrepared(y) && !EndsBadly(y) && Bytes(y) <= MAX_NAME_BYTES
    ensures Sanitized(y) == Some(y)
  {
    TidiedIsPrefix(y);
    assert Tidied(y) == y;
    assert !AllDots(y);
  }

  /** The device names themselves. */
  const DEVICES := [
    "con", "prn", "aux", "nul", "com1", "com2", "com3", "com4", "com5", "com6", "com7", "com8",
    "com9", "lpt1", "lpt2", "lpt3", "lpt4", "lpt5", "lpt6", "lpt7", "lpt8", "lpt9"
  ]

  lemma DevicesAreReserved(s: string)
    ensures IsReserved(s) <==> s in DEVICES
  {
    if IsReserved(s) && |s| == 4 {
      NumberedDevice(s);
    }
    if s in DEVICES {
      var i :| 0 <= i < |DEVICES| && DEVICES[i] == s;
      DeviceAt(i);
    }
  }

  lemma DeviceAt(i: nat)
    requires i < 22
    ensures IsReserved(DEVICES[i])
  {
    if i >= 13 { assert DEVICES[i][..3] == "lpt"; } else if i >= 4 { assert DEVICES[i][..3] == "com"; }
  }

  lemma NumberedDevice(s: string)
    requires |s| == 4 && (s[..3] == "com" || s[..3] == "lpt") && '1' <= s[3] <= '9'
    ensures s in DEVICES
  {
    var d := s[3] as int - '1' as int;
    var i := if s[..3] == "com" then 4 + d else 13 + d;
    assert s == s[..3] + [s[3]];
    assert DEVICES[i] == s;
  }

  /** A clean device name comes back whole behind a mark, its extension included. */
  lemma DeviceNamesAreMarked(d: string)
    requires d != "" && AllClean(d) && !IsWhite(d[0]) && !EndsBadly(d) && Lower(FirstPart(d)) in DEVICES
    requires Bytes(d) < 255
    ensures Sanitized(d) == Some("_" + d)
  {
    hide IsReserved, FirstPart, Lower, Tidied, Bytes;
    DevicesAreReserved(Lower(FirstPart(d)));
    TidiedIsPrefix(d);
    assert Tidied(d) == d;
    BytesAppend("_", d);
    UnderscoreByte();
  }

  /** The mark is all that is put in front of a tidied name, and only in front of a device name. */
  lemma OnlyDevicesAreMarked(name: string)
    requires Prepared(name).Some?
    ensures var t, c := Tidied(name), Prepared(name).value;
            && |t| <= |c| <= |t| + 1 && c[|c| - |t|..] == t
            && (c != t <==> Lower(FirstPart(t)) in DEVICES)
  {
    hide Tidied, IsReserved, FirstPart;
    DevicesAreReserved(Lower(FirstPart(Tidied(name))));
    var t := Tidied(name);
    assert ("_" + t)[1..] == t;
  }

  lemma AgainShorter(y: string)
    requires IsPrepared(y) && EndsBadly(y) && Bytes(y) <= MAX_NAME_BYTES
    ensures Sanitized(y) != Some(y)
  {
    TidiedIsPrefix(y);
    ShorterDiffers(y, Tidied(y));
  }

  /** No device name begins with the mark that pushes them out of the way. */
  lemma ReservedNotMarked(t: string)
    ensures IsReserved(Lower(FirstPart(t))) ==> t != "" && t[0] != '_'
  {
    hide IsReserved, FirstPart;
    var d := FirstPart(t);
    FirstPartHead(t);
    ReservedIsPlain(Lower(d));
    if d != "" { assert Lower(d)[0] == AsciiLower(d[0]); }
  }

  lemma FirstPartHead(t: string)
    ensures FirstPart(t) != "" ==> t != "" && FirstPart(t)[0] == t[0]
  {
  }

  lemma ReservedIsPlain(s: string)
    ensures IsReserved(s) ==> s != "" && s[0] != '_'
  {
  }

  lemma UnderscoreByte()
    ensures Bytes("_") == 1
  {
    assert "_"[..0] == "";
  }

  lemma ShorterDiffers(y: string, t: string)
    requires |t| < |y| && t == y[..|t|] && Bytes(y) <= MAX_NAME_BYTES
    ensures t != "" ==> Truncated(Pushed(t), MAX_NAME_BYTES) != y
  {
    hide Bytes, IsReserved;
    assert y[..|y|] == y;
    BytesPrefix(y, |t|, |y|);
    BytesAppend("_", t);
    UnderscoreByte();
    ReservedNotMarked(t);
    assert ("_" + t)[0] == '_';
    assert t != "" ==> t[0] == y[0];
  }

  /** Sanitising twice is sanitising once exactly when the first result does not end in a dot or white
      space. */
  lemma AgainExactly(name: string)
    requires Sanitized(name).Some?
    ensures Sanitized(Sanitized(name).value) == Sanitized(name) <==> !EndsBadly(Sanitized(name).value)
  {
    PreparedShape(name);
    var c := Prepared(name).value;
    CutStaysPrepared(c);
    TruncatedFits(c, MAX_NAME_BYTES);
    var y := Sanitized(name).value;
    if EndsBadly(y) { AgainShorter(y); } else { AgainUnchanged(y); }
  }

  /** The prepared name is cut without an extension. */
  predicate LosesItsEnd(c: string) {
    Bytes(c) > MAX_NAME_BYTES && KeptExtension(c) == ""
  }

  /** The last character of the prepared name that is returned. */
  function LastReturned(c: string): char
    requires c != ""
  {
    if LosesItsEnd(c) then
      TruncatedFits(c, MAX_NAME_BYTES);
      c[Fitting(c, MAX_NAME_BYTES, |c|) - 1]
    else c[|c| - 1]
  }

  /** Told before anything is cut: sanitising again changes nothing exactly when the last character that fits is
      neither white nor, where the name loses its end, a dot. */
  lemma AgainExactlyBefore(name: string)
    requires Prepared(name).Some?
    ensures var c := Prepared(name).value;
            Sanitized(Sanitized(name).value) == Sanitized(name) <==>
            !IsWhite(LastReturned(c)) && (LosesItsEnd(c) ==> LastReturned(c) != '.')
  {
    hide Tidied, Pushed, Bytes, IsWhite, IsReserved, AllClean, Fitting;
    var c := Prepared(name).value;
    PreparedShape(name);
    AgainExactly(name);
    if LosesItsEnd(c) { CutsHere(c); } else { LastKept(c); }
  }

  lemma CutsHere(c: string)
    requires LosesItsEnd(c)
    ensures var k := Fitting(c, MAX_NAME_BYTES, |c|); 0 < k <= |c| && Truncated(c, MAX_NAME_BYTES) == c[..k]
  {
    TruncatedFits(c, MAX_NAME_BYTES);
    assert Bytes("") == 0;
    var k := Fitting(c, MAX_NAME_BYTES, |c|);
    assert c[..k] + "" == c[..k];
  }

  lemma LastKept(c: string)
    requires c != "" && (Bytes(c) <= MAX_NAME_BYTES || KeptExtension(c) != "")
    ensures var y := Truncated(c, MAX_NAME_BYTES); y != "" && y[|y| - 1] == c[|c| - 1]
  {
    if Bytes(c) > MAX_NAME_BYTES {
      TruncatedFits(c, MAX_NAME_BYTES);
      var y, e := Truncated(c, MAX_NAME_BYTES), KeptExtension(c);
      assert y[|y| - 1] == e[|e| - 1];
    }
  }

  lemma DrawnPlain(c: string, name: string)
    requires Drawn(c, name) && PlainSpaces(name) && AllClean(c)
    ensures forall i :: 0 <= i < |c| && IsWhite(c[i]) ==> c[i] == ' '
  {
    forall i | 0 <= i < |c| && IsWhite(c[i]) ensures c[i] == ' ' {
      assert IsClean(c[i]);
      assert c[i] in name;
    }
  }

  /** A claimed name whose white space is plain is settled after one pass, when the prepared name fits or
      keeps an extension. */
  lemma AgainForPlainNames(name: string)
    requires Prepared(name).Some? && PlainSpaces(name)
    requires var c := Prepared(name).value; Bytes(c) <= MAX_NAME_BYTES || KeptExtension(c) != ""
    ensures Sanitized(Sanitized(name).value) == Sanitized(name)
  {
    hide Tidied, Pushed, Truncated, KeptExtension, Bytes, IsWhite, IsReserved, PlainSpaces;
    PreparedShape(name);
    DrawnPlain(Prepared(name).value, name);
    LastKept(Prepared(name).value);
    AgainExactly(name);
  }

  lemma {:induction false} CleanCharsAppend(a: string, b: string)
    ensures CleanChars(a + b) == CleanChars(a) + CleanChars(b)
  {
    if a == "" {
      assert a + b == b;
    } else {
      assert (a + b)[1..] == a[1..] + b;
      CleanCharsAppend(a[1..], b);
    }
  }

  lemma CleanedBehindAMark(y: string, mark: char)
    requires AllClean(y) && IsDeceptive(mark)
    ensures CleanChars(y + ['.', mark]) == y + ['.']
  {
    CleanCharsAppend(y, ['.', mark]);
    CleanIsFixed(y);
    assert ['.', mark][1..] == [mark] && [mark][1..] == "";
    assert CleanChars([mark]) == "";
  }

  lemma TrimEndOne(s: string, c: char, drop: set<char>)
    requires c in drop && (s == "" || s[|s| - 1] !in drop)
    ensures TrimEndSet(s + [c], drop) == s
  {
    assert (s + [c])[..|s|] == s;
  }

  lemma TrimmedDot(y: string, u: string, drop: set<char>)
    requires y != "" && !IsWhite(y[0]) && y[|y| - 1] !in drop && '.' in drop && u == y + ['.']
    ensures TrimEndSet(Trim(u), drop) == y
  {
    assert u[0] == y[0] && u[|u| - 1] == '.';
    TrimFixed(u);
    TrimEndOne(y, '.', drop);
  }

  lemma TrimBothOneDot(y: string)
    requires y != "" && !IsWhite(y[0]) && y[|y| - 1] !in {'.', ' '}
    ensures TrimBoth(y + ['.']) == y
  {
    TrimmedDot(y, y + ['.'], {'.', ' '});
  }

  lemma TidiedSteps(name: string, leaf: string, l: string, k: string, t: string)
    requires Leaf(name) == leaf && TrimBoth(leaf) == l && CleanChars(l) == k && TrimBoth(k) == t
    ensures Tidied(name) == t
  {
  }

  lemma PreparedSteps(name: string, t: string)
    requires Tidied(name) == t && t != "" && t[|t| - 1] != '.' && !IsReserved(Lower(FirstPart(t)))
    ensures Prepared(name) == Some(t)
  {
  }

  lemma LeafOfMarked(y: string, mark: char)
    requires AllClean(y) && IsDeceptive(mark)
    ensures Leaf(y + ['.', mark]) == y + ['.', mark]
  {
    var name := y + ['.', mark];
    forall i | 0 <= i < |name| ensures !IsSeparator(name[i]) { assert i < |y| ==> IsClean(y[i]); }
    LeafShape(name);
  }

  lemma TrimBothMarked(y: string, mark: char)
    requires y != "" && !IsWhite(y[0]) && IsDeceptive(mark)
    ensures TrimBoth(y + ['.', mark]) == y + ['.', mark]
  {
    var name := y + ['.', mark];
    assert name[|name| - 1] == mark && name[0] == y[0];
    TrimFixed(name);
  }

  /** Names whose white space is not plain: a wide space in front of a dot that a mark was hiding comes
      through the first pass, at the end of the name, and the next pass takes it off. */
  lemma WideSpaceSurvivesOnce(y: string, mark: char)
    requires IsPrepared(y) && IsWhite(y[|y| - 1]) && y[|y| - 1] != ' ' && Bytes(y) <= MAX_NAME_BYTES
    requires IsDeceptive(mark)
    ensures Sanitized(y + ['.', mark]) == Some(y) && Sanitized(y) != Some(y)
  {
    TidiedMarked(y, mark);
    PreparedSteps(y + ['.', mark], y);
    AgainShorter(y);
  }

  lemma TidiedMarked(y: string, mark: char)
    requires y != "" && AllClean(y) && !IsWhite(y[0]) && y[|y| - 1] !in {'.', ' '} && IsDeceptive(mark)
    ensures Tidied(y + ['.', mark]) == y
  {
    var name := y + ['.', mark];
    LeafOfMarked(y, mark);
    TrimBothMarked(y, mark);
    CleanedBehindAMark(y, mark);
    TrimBothOneDot(y);
    TidiedSteps(name, name, name, y + ['.'], y);
  }

  // ---------------------------------------------------------------------------
  // What becomes of each character

  lemma {:induction false} LeafBehind(dir: string, sep: char, leaf: string)
    requires sep == '/' || sep == '\\'
    ensures Leaf(dir + [sep] + leaf) == Leaf(leaf)
    decreases |leaf|
  {
    var name := dir + [sep] + leaf;
    if leaf == "" {
      assert name[|name| - 1] == sep;
    } else {
      assert name[..|name| - 1] == dir + [sep] + leaf[..|leaf| - 1] && name[|name| - 1] == leaf[|leaf| - 1];
      LeafBehind(dir, sep, leaf[..|leaf| - 1]);
    }
  }

  /** A name is what stands behind its last separator, of either kind: no directory in front of it can choose
      another place. */
  lemma DirectoriesAreIgnored(dir: string, sep: char, leaf: string)
    requires sep == '/' || sep == '\\'
    ensures Sanitized(dir + [sep] + leaf) == Sanitized(leaf)
  {
    hide Leaf;
    LeafBehind(dir, sep, leaf);
  }

  /** What is left of one character. */
  function Fate(c: char): string {
    if (c as int) < 0x20 || 0x7F <= c as int <= 0x9F || IsDeceptive(c) then ""
    else if c in ":<>\"|?*" then "_"
    else [c]
  }

  lemma FateOf(c: char)
    requires c != '/' && c != '\\'
    ensures CleanChars([c]) == Fate(c)
  {
    assert [c][1..] == "";
    var f := ":<>\"|?*";
    assert f[0] in f && f[1] in f && f[2] in f && f[3] in f && f[4] in f && f[5] in f && f[6] in f;
  }

  lemma CleanedAround(a: string, c: char, b: string)
    requires AllClean(a) && AllClean(b) && c != '/' && c != '\\'
    ensures CleanChars(a + [c] + b) == a + Fate(c) + b
  {
    hide CleanChars, Fate;
    CleanCharsAppend(a + [c], b);
    CleanCharsAppend(a, [c]);
    CleanCharsShape(a);
    CleanCharsShape(b);
    FateOf(c);
  }

  /** A name that both trims leave alone. */
  predicate IsTrimmed(s: string) {
    s != "" && !IsWhite(s[0]) && !EndsBadly(s)
  }

  lemma TrimmedStays(s: string)
    requires IsTrimmed(s)
    ensures TrimBoth(s) == s
  {
    TrimBothPrefix(s);
  }

  lemma NoSeparatorInside(a: string, c: char, b: string)
    requires AllClean(a) && AllClean(b) && c != '/' && c != '\\'
    ensures Leaf(a + [c] + b) == a + [c] + b
  {
    var name := a + [c] + b;
    forall i | 0 <= i < |name| ensures !IsSeparator(name[i]) {
      if i < |a| { assert IsClean(a[i]); } else if i > |a| { assert IsClean(b[i - |a| - 1]); }
    }
    LeafShape(name);
  }

  lemma AroundTrimmed(a: string, m: string, b: string)
    requires a != "" && b != "" && !IsWhite(a[0]) && !EndsBadly(b)
    ensures IsTrimmed(a + m + b)
  {
    var s := a + m + b;
    assert s[0] == a[0] && s[|s| - 1] == b[|b| - 1];
  }

  /** Inside an ordinary name each character has its own fate, and the rest of the name stays as it is: control
      characters and deceptive ones go, forbidden ones are replaced, all others stay. */
  lemma CharacterFates(a: string, c: char, b: string)
    requires a != "" && b != "" && AllClean(a) && AllClean(b) && !IsWhite(a[0]) && !EndsBadly(b)
    requires c != '/' && c != '\\'
    requires Lower(FirstPart(a + Fate(c) + b)) !in DEVICES && Bytes(a + Fate(c) + b) <= 255
    ensures Sanitized(a + [c] + b) == Some(a + Fate(c) + b)
  {
    hide Leaf, CleanChars, TrimBoth, FirstPart, IsReserved, Lower, Fate, Bytes;
    var name, y := a + [c] + b, a + Fate(c) + b;
    NoSeparatorInside(a, c, b);
    AroundTrimmed(a, [c], b);
    AroundTrimmed(a, Fate(c), b);
    TrimmedStays(name);
    TrimmedStays(y);
    CleanedAround(a, c, b);
    TidiedSteps(name, name, name, y, y);
    DevicesAreReserved(Lower(FirstPart(y)));
    PreparedSteps(name, y);
  }

  predicate IsAscii(s: string) {
    forall i :: 0 <= i < |s| ==> s[i] as int < 0x80
  }

  lemma {:induction false} AsciiBytes(s: string)
    requires IsAscii(s)
    ensures Bytes(s) == |s|
  {
    if s != "" { AsciiBytes(s[..|s| - 1]); }
  }

  /** A stem one short of the limit and an extension too long to be kept. */
  predicate LongTail(a: string, b: string) {
    && |a| == MAX_NAME_BYTES - 1 && |b| >= 16 && IsAscii(a) && IsAscii(b) && AllClean(a) && AllClean(b)
    && '.' !in a && '.' !in b && !IsWhite(a[0]) && !IsWhite(b[|b| - 1]) && a[|a| - 1] != 'r' && a[|a| - 1] != 'R'
  }

  lemma LongTailClean(a: string, b: string)
    requires LongTail(a, b)
    ensures var name := a + "." + b;
            AllClean(name) && !IsWhite(name[0]) && !EndsBadly(name) && name[|name| - 1] != '.'
  {
    var name := a + "." + b;
    assert b[|b| - 1] in b;
    assert name[|name| - 1] == b[|b| - 1] && name[0] == a[0];
    forall i | 0 <= i < |name| ensures IsClean(name[i]) {
      if i < |a| { assert name[i] == a[i]; } else if i > |a| { assert name[i] == b[i - |a| - 1]; }
    }
  }

  lemma LongTailPrepared(a: string, b: string)
    requires LongTail(a, b)
    ensures Prepared(a + "." + b) == Some(a + "." + b)
  {
    var name := a + "." + b;
    LongTailClean(a, b);
    TidiedIsPrefix(name);
    LongFirstPart(a, b);
    PreparedSteps(name, name);
  }

  lemma LongFirstPart(a: string, b: string)
    requires |a| > 4
    ensures !IsReserved(Lower(FirstPart(a + "." + b))) || '.' in a
  {
    FirstPartAppend(a, "." + b);
    assert a + "." + b == a + ("." + b);
    assert FirstPart("." + b) == "";
  }

  lemma LongTailExtension(a: string, b: string)
    requires LongTail(a, b)
    ensures Extension(a + "." + b) == "." + b
  {
    var name := a + "." + b;
    forall i | 254 < i < |name| ensures name[i] != '.' { assert name[i] == b[i - 255]; assert b[i - 255] in b; }
    LastDotIs(name, 254);
    assert name[..254] == a;
    assert Lower(a[250..])[3] == AsciiLower(a[253]) && ".tar"[3] == 'r';
  }

  lemma LongTailCut(a: string, b: string)
    requires LongTail(a, b)
    ensures Truncated(a + "." + b, MAX_NAME_BYTES) == a + "."
  {
    hide Extension;
    var name := a + "." + b;
    LongTailExtension(a, b);
    AsciiBytes("." + b);
    AsciiBytes(name);
    assert name[..255] == a + ".";
    AsciiBytes(a + ".");
    CutIsFitting(name, 255, 255, 255);
    assert a + "." + "" == a + ".";
  }

  /** Names cut without an extension: the cut falls right behind the dot, and the next pass takes that off. */
  lemma CutCanEndOnADot(a: string, b: string)
    requires LongTail(a, b)
    ensures Sanitized(a + "." + b) == Some(a + ".") && Sanitized(a + ".") != Some(a + ".")
  {
    LongTailPrepared(a, b);
    LongTailCut(a, b);
    AgainExactly(a + "." + b);
  }
}
