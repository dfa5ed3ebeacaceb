/** One download, one name: sanitising a claimed name, cutting it to a byte budget, and numbering it. */
module Filename {
  import opened Text

  // ---------------------------------------------------------------------------
  // Characters and bytes

  predicate IsControl(c: char) {
    var n := c as int;
    n < 0x20 || 0x7F <= n <= 0x9F
  }

  predicate IsForbidden(c: char) {
    c in {'/', '\\', ':', '<', '>', '"', '|', '?', '*'}
  }

  /** Format characters that reorder or hide what a name looks like. */
  predicate IsDeceptive(c: char) {
    var n := c as int;
    || n == 0x061C || n == 0x200B || n == 0x200E || n == 0x200F
    || 0x202A <= n <= 0x202E || 0x2060 <= n <= 0x2064 || 0x2066 <= n <= 0x2069 || 0x206A <= n <= 0x206F
    || n == 0xFEFF || 0xFFF9 <= n <= 0xFFFB || 0x1D173 <= n <= 0x1D17A
    || n == 0xE0001 || 0xE0020 <= n <= 0xE007F
  }

  /** Every bidirectional control is among them, and so are the zero-width space, the word joiner and the byte
      order mark; the two joiners that writing systems need are not. */
  lemma BidiControlsAreDeceptive(c: char)
    ensures var n := c as int;
            && (n in {0x061C, 0x200E, 0x200F} || 0x202A <= n <= 0x202E || 0x2066 <= n <= 0x2069 ==> IsDeceptive(c))
            && (n in {0x200B, 0x2060, 0xFEFF} ==> IsDeceptive(c))
            && (n in {0x200C, 0x200D} || n < 0x80 ==> !IsDeceptive(c))
  {
  }

  function CharLen(c: char): (n: nat)
    ensures 1 <= n <= 4
  {
    var v := c as int;
    if v < 0x80 then 1 else if v < 0x800 then 2 else if v < 0x10000 then 3 else 4
  }

  /** The bits that a UTF-8 form of `n` bytes carries: seven in a single byte, and otherwise six in each byte
      but the first, which gives up `n + 1` of its own. */
  function PayloadBits(n: nat): nat
    requires 1 <= n <= 4
  {
    if n == 1 then 7 else 7 - n + 6 * (n - 1)
  }

  function Pow2(n: nat): nat {
    if n == 0 then 1 else 2 * Pow2(n - 1)
  }

  /** The length is that of the shortest form the character fits in. */
  lemma CharLenIsShortest(c: char)
    ensures (c as int) < Pow2(PayloadBits(CharLen(c)))
    ensures CharLen(c) > 1 ==> (c as int) >= Pow2(PayloadBits(CharLen(c) - 1))
  {
    assert Pow2(7) == 0x80 && Pow2(11) == 0x800;
    assert Pow2(16) == 32 * Pow2(11) && Pow2(21) == 32 * Pow2(16);
  }

  /** Length of the UTF-8 form. */
  function Bytes(s: string): (n: nat)
    ensures n >= |s|
  {
    if s == "" then 0 else Bytes(s[..|s| - 1]) + CharLen(s[|s| - 1])
  }

  lemma {:induction false} BytesAppend(a: string, b: string)
    ensures Bytes(a + b) == Bytes(a) + Bytes(b)
    decreases |b|
  {
    if b == "" {
      assert a + b == a;
    } else {
      assert (a + b)[..|a + b| - 1] == a + b[..|b| - 1];
      BytesAppend(a, b[..|b| - 1]);
    }
  }

  lemma BytesPrefix(s: string, k: nat, l: nat)
    requires k <= l <= |s|
    ensures Bytes(s[..k]) + (l - k) <= Bytes(s[..l]) <= Bytes(s[..k]) + 4 * (l - k)
    decreases l - k
  {
    if k < l {
      assert s[..l][..l - 1] == s[..l - 1];
      BytesPrefix(s, k, l - 1);
    }
  }

  // ---------------------------------------------------------------------------
  // Splitting off the extension

  predicate IsLastDot(s: string, i: int) {
    0 <= i < |s| && s[i] == '.' && forall k :: i < k < |s| ==> s[k] != '.'
  }

  function LastDot(s: string): (r: Option<nat>)
    ensures r.Some? ==> IsLastDot(s, r.value)
    ensures r.None? ==> '.' !in s
  {
    if s == "" then None
    else if s[|s| - 1] == '.' then Some(|s| - 1)
    else
      assert s == s[..|s| - 1] + [s[|s| - 1]];
      LastDot(s[..|s| - 1])
  }

  /** `.tar`, whatever its case, at the end of a stem that has something before it. */
  predicate IsTarStem(stem: string) {
    |stem| > 4 && Lower(stem[|stem| - 4..]) == ".tar"
  }

  /** How long the stem of `name` is: up to its last dot, or up to the dot of a `.tar` right before it.
      A leading dot starts a name. */
  function StemLen(name: string): (r: nat)
    ensures r <= |name| && (name != "" ==> r > 0)
  {
    match LastDot(name)
    case None => |name|
    case Some(dot) =>
      if dot == 0 then |name|
      else if IsTarStem(name[..dot]) then dot - 4
      else dot
  }

  function Stem(name: string): string { name[..StemLen(name)] }

  function Extension(name: string): string { name[StemLen(name)..] }

  lemma ExtensionStartsWithDot(name: string)
    ensures Extension(name) == "" || Extension(name)[0] == '.'
  {
    match LastDot(name)
    case None =>
    case Some(dot) =>
      if dot > 0 && IsTarStem(name[..dot]) {
        var t := name[..dot][dot - 4..];
        assert Lower(t)[0] == ".tar"[0];
        assert t[0] == name[dot - 4];
      }
  }

  // ---------------------------------------------------------------------------
  // Numbering

  function Digit(d: nat): char
    requires d < 10
  {
    '0' + (d as char)
  }

  function Decimal(n: nat): (r: string)
    ensures r != "" && forall c :: c in r ==> '0' <= c <= '9'
  {
    if n < 10 then [Digit(n)] else Decimal(n / 10) + [Digit(n % 10)]
  }

  /** The number a string of digits stands for. */
  function Value(s: string): int {
    if s == "" then 0 else 10 * Value(s[..|s| - 1]) + (s[|s| - 1] as int - '0' as int)
  }

  lemma {:induction false} DecimalReadsBack(n: nat)
    ensures Value(Decimal(n)) == n
    decreases n
  {
    var s := Decimal(n);
    if n < 10 {
      assert s[..0] == "";
    } else {
      DecimalReadsBack(n / 10);
      assert s[..|s| - 1] == Decimal(n / 10);
    }
  }

  lemma DecimalInjective(m: nat, n: nat)
    requires Decimal(m) == Decimal(n)
    ensures m == n
  {
    DecimalReadsBack(m);
    DecimalReadsBack(n);
  }

  function Candidate(name: string, n: nat): string {
    Stem(name) + "_" + Decimal(n) + Extension(name)
  }

  const LIMIT := 10_000

  /** The first free number at or after `n`, or the limit. */
  function FreeNumber(name: string, taken: string -> bool, n: nat): (r: nat)
    requires n <= LIMIT
    ensures n <= r <= LIMIT
    ensures r < LIMIT ==> !taken(Candidate(name, r))
    ensures forall k :: n <= k < r ==> taken(Candidate(name, k))
    decreases LIMIT - n
  {
    if n == LIMIT || !taken(Candidate(name, n)) then n else FreeNumber(name, taken, n + 1)
  }

  function UniqueSpec(desired: string, taken: string -> bool): string {
    var name := Trim(desired);
    if name == "" || !taken(name) then name else Candidate(name, FreeNumber(name, taken, 1))
  }

  method UniqueName(desired: string, taken: string -> bool) returns (r: string)
    ensures r == UniqueSpec(desired, taken)
  {
    var name := Trim(desired);
    if name == "" || !taken(name) {
      return name;
    }
    var stem, ext := Stem(name), Extension(name);
    for n := 1 to LIMIT
      invariant FreeNumber(name, taken, n) == FreeNumber(name, taken, 1)
    {
      var candidate := stem + "_" + Decimal(n) + ext;
      if !taken(candidate) {
        return candidate;
      }
    }
    return stem + "_" + Decimal(LIMIT) + ext;
  }

  /** The form names are compared in: trimmed, each character folded. */
  function Key(name: string, fold: char -> char): (r: string)
    ensures |r| == |Trim(name)| && forall i :: 0 <= i < |r| ==> r[i] == fold(Trim(name)[i])
  {
    var t := Trim(name);
    seq(|t|, i requires 0 <= i < |t| => fold(t[i]))
  }

  /** `taken` as its callers build it: the keys already in the list. */
  function TakenBy(keys: set<string>, fold: char -> char): string -> bool {
    (name: string) => Key(name, fold) in keys
  }

  /** Folding that leaves digits alone, as lower-casing does. */
  ghost predicate FoldsDigitsToThemselves(fold: char -> char) {
    forall c :: '0' <= c <= '9' ==> fold(c) == c
  }

  /** A candidate for a trimmed name has no white space at its ends. */
  lemma CandidateTrimmed(name: string, n: nat)
    requires name != "" && Trim(name) == name
    ensures Trim(Candidate(name, n)) == Candidate(name, n)
  {
    var c := Candidate(name, n);
    assert c[0] == name[0];
    if Extension(name) != "" {
      assert c[|c| - 1] == name[|name| - 1];
    } else {
      var d := Decimal(n);
      assert c[|c| - 1] == d[|d| - 1];
      assert d[|d| - 1] in d;
    }
    TrimFixed(c);
  }

  lemma CandidateKeysDiffer(name: string, fold: char -> char, m: nat, n: nat)
    requires name != "" && Trim(name) == name && FoldsDigitsToThemselves(fold)
    requires Key(Candidate(name, m), fold) == Key(Candidate(name, n), fold)
    ensures m == n
  {
    CandidateTrimmed(name, m);
    CandidateTrimmed(name, n);
    var x, y := Candidate(name, m), Candidate(name, n);
    forall i | 0 <= i < |x| ensures |x| == |y| && fold(x[i]) == fold(y[i]) {
      assert Key(x, fold)[i] == Key(y, fold)[i];
    }
    SameMiddle(Stem(name) + "_", Decimal(m), Decimal(n), Extension(name), fold);
    DecimalInjective(m, n);
  }

  /** Between equal ends, digits that fold alike are alike. */
  lemma SameMiddle(p: string, a: string, b: string, e: string, fold: char -> char)
    requires FoldsDigitsToThemselves(fold) && (forall c :: c in a || c in b ==> '0' <= c <= '9')
    requires |p + a + e| == |p + b + e|
    requires forall i :: 0 <= i < |p + a + e| ==> fold((p + a + e)[i]) == fold((p + b + e)[i])
    ensures a == b
  {
    forall i | 0 <= i < |a| ensures a[i] == b[i] {
      assert (p + a + e)[|p| + i] == a[i] && (p + b + e)[|p| + i] == b[i];
      assert a[i] in a && b[i] in b;
    }
  }

  lemma NameKeyDiffers(name: string, fold: char -> char, n: nat)
    requires name != "" && Trim(name) == name
    ensures Key(name, fold) != Key(Candidate(name, n), fold)
  {
    CandidateTrimmed(name, n);
    assert |Candidate(name, n)| > |name|;
  }

  /** `own` and the first `upTo` keys. */
  function Slots(own: string, key: nat -> string, upTo: nat): set<string> {
    if upTo == 0 then {own} else Slots(own, key, upTo - 1) + {key(upTo)}
  }

  lemma {:induction false} SlotsHold(own: string, key: nat -> string, upTo: nat, k: string)
    ensures k in Slots(own, key, upTo) <==> k == own || exists n :: 1 <= n <= upTo && k == key(n)
  {
    if upTo > 0 { SlotsHold(own, key, upTo - 1, k); }
  }

  lemma {:induction false} SlotsSize(own: string, key: nat -> string, upTo: nat)
    requires (forall m, n :: key(m) == key(n) ==> m == n) && forall n :: key(n) != own
    ensures |Slots(own, key, upTo)| == upTo + 1
  {
    if upTo > 0 {
      SlotsSize(own, key, upTo - 1);
      SlotsHold(own, key, upTo - 1, key(upTo));
    }
  }

  function CandidateKey(name: string, fold: char -> char): nat -> string {
    (n: nat) => Key(Candidate(name, n), fold)
  }

  /** The keys a list has to hold before a name for `name` runs out: its own and every candidate's. */
  function Occupied(name: string, fold: char -> char): set<string> {
    Slots(Key(name, fold), CandidateKey(name, fold), LIMIT)
  }

  lemma OccupiedSize(name: string, fold: char -> char)
    requires name != "" && Trim(name) == name && FoldsDigitsToThemselves(fold)
    ensures |Occupied(name, fold)| == LIMIT + 1
  {
    var key := CandidateKey(name, fold);
    forall m, n | key(m) == key(n) ensures m == n { CandidateKeysDiffer(name, fold, m, n); }
    forall n ensures key(n) != Key(name, fold) { NameKeyDiffers(name, fold, n); }
    SlotsSize(Key(name, fold), key, LIMIT);
  }

  /** With a key for each candidate and the name itself, the numbering ends on a taken candidate exactly
      when all of them are taken. */
  lemma RunsOutExactly(name: string, fold: char -> char, keys: set<string>)
    ensures var taken := TakenBy(keys, fold);
            taken(name) && taken(Candidate(name, FreeNumber(name, taken, 1))) <==> Occupied(name, fold) <= keys
  {
    var taken, key := TakenBy(keys, fold), CandidateKey(name, fold);
    var n := FreeNumber(name, taken, 1);
    forall k | 1 <= k < n ensures key(k) in keys { assert taken(Candidate(name, k)); }
    assert taken(Candidate(name, n)) <==> key(n) in keys;
    SlotsFull(Key(name, fold), key, keys, n);
  }

  /** `n` is where a search through the keys stopped. */
  lemma SlotsFull(own: string, key: nat -> string, keys: set<string>, n: nat)
    requires 1 <= n <= LIMIT && (n < LIMIT ==> key(n) !in keys) && forall k :: 1 <= k < n ==> key(k) in keys
    ensures own in keys && key(n) in keys <==> Slots(own, key, LIMIT) <= keys
  {
    SlotsHold(own, key, LIMIT, own);
    SlotsHold(own, key, LIMIT, key(n));
    if own in keys && key(n) in keys {
      forall k | k in Slots(own, key, LIMIT) ensures k in keys { SlotsHold(own, key, LIMIT, k); }
    }
  }

  /** The name comes back clashing exactly when its own key and the keys of all ten thousand candidates
      are taken. */
  lemma ClashesExactly(desired: string, keys: set<string>, fold: char -> char)
    requires Trim(desired) != ""
    ensures TakenBy(keys, fold)(UniqueSpec(desired, TakenBy(keys, fold))) <==> Occupied(Trim(desired), fold) <= keys
  {
    RunsOutExactly(Trim(desired), fold, keys);
    SlotsHold(Key(Trim(desired), fold), CandidateKey(Trim(desired), fold), LIMIT, Key(Trim(desired), fold));
  }

  lemma FullListClashes(desired: string, fold: char -> char)
    requires FoldsDigitsToThemselves(fold) && Trim(desired) != ""
    ensures var full := Occupied(Trim(desired), fold);
            |full| == LIMIT + 1 && Key(UniqueSpec(desired, TakenBy(full, fold)), fold) in full
  {
    hide Key, UniqueSpec, Slots, Decimal, StemLen;
    var name := Trim(desired);
    TrimFixed(name);
    OccupiedSize(name, fold);
    ClashesExactly(desired, Occupied(name, fold), fold);
  }

  /** Pigeonhole: with at most ten thousand keys taken the name is always free, and one more key is
      enough to defeat it. */
  lemma UniqueNameIsFree(desired: string, keys: set<string>, fold: char -> char)
    requires FoldsDigitsToThemselves(fold) && Trim(desired) != ""
    ensures |keys| <= 10_000 ==> Key(UniqueSpec(desired, TakenBy(keys, fold)), fold) !in keys
    ensures exists full: set<string> :: |full| == 10_001 &&
              Key(UniqueSpec(desired, TakenBy(full, fold)), fold) in full
  {
    hide Key, UniqueSpec, Occupied;
    var full := Occupied(Trim(desired), fold);
    FullListClashes(desired, fold);
    ClashesExactly(desired, keys, fold);
    if full <= keys { SubsetSize(full, keys); }
  }

  lemma SubsetSize<T>(a: set<T>, b: set<T>)
    requires a <= b
    ensures |a| <= |b|
  {
    assert b == a + (b - a);
  }

  /** A taken name keeps its extension and its stem, and gets the least free number. */
  lemma NumberedBeforeExtension(desired: string, taken: string -> bool)
    requires Trim(desired) != "" && taken(Trim(desired))
    ensures var name, r := Trim(desired), UniqueSpec(desired, taken);
            && Extension(r) == Extension(name)
            && exists n :: 1 <= n <= 10_000 && Stem(r) == Stem(name) + "_" + Decimal(n)
                 && (n < 10_000 ==> !taken(r)) && forall k :: 1 <= k < n ==> taken(Candidate(name, k))
  {
    var name := Trim(desired);
    var n := FreeNumber(name, taken, 1);
    CandidateSplits(name, n);
    var r := Candidate(name, n);
    assert UniqueSpec(desired, taken) == r;
  }

  /** A free name is kept, trimmed, and a name that came out free is its own unique name. */
  lemma FreeNamesStay(desired: string, taken: string -> bool)
    ensures !taken(Trim(desired)) ==> UniqueSpec(desired, taken) == Trim(desired)
    ensures !taken(UniqueSpec(desired, taken)) ==>
              UniqueSpec(UniqueSpec(desired, taken), taken) == UniqueSpec(desired, taken)
  {
    hide Candidate, FreeNumber;
    var name := Trim(desired);
    TrimFixed(name);
    if name != "" && taken(name) { CandidateTrimmed(name, FreeNumber(name, taken, 1)); }
  }

  /** Splitting a candidate gives the number back to the stem. */
  lemma CandidateSplits(name: string, n: nat)
    requires name != ""
    ensures Stem(Candidate(name, n)) == Stem(name) + "_" + Decimal(n)
    ensures Extension(Candidate(name, n)) == Extension(name)
  {
    var c, s := Candidate(name, n), Stem(name) + "_" + Decimal(n);
    var k, l := StemLen(name), |s|;
    assert c == s + Extension(name);
    assert c[l..] == name[k..];
    assert s[|s| - 1] == Decimal(n)[|Decimal(n)| - 1] && Decimal(n)[|Decimal(n)| - 1] in Decimal(n);
    CandidateStemLen(name, n);
  }

  lemma CandidateStemLen(name: string, n: nat)
    requires name != ""
    ensures StemLen(Candidate(name, n)) == |Stem(name)| + 1 + |Decimal(n)|
  {
    hide Decimal, Lower, LastDot, IsTarStem;
    var c, d := Candidate(name, n), Decimal(n);
    var k := StemLen(name);
    var s := Stem(name) + "_" + d;
    var l := |s|;
    assert c == s + name[k..];
    forall i | k <= i < l ensures c[i] != '.' {
      if i > k { assert c[i] == d[i - k - 1]; assert d[i - k - 1] in d; }
    }
    match LastDot(name)
    case None =>
      forall i | 0 <= i < |c| ensures c[i] != '.' { if i < k { assert c[i] == name[i]; } }
      assert LastDot(c) == None;
    case Some(dot) =>
      if dot == 0 {
        assert c[0] == '.' && IsLastDot(c, 0);
        LastDotIs(c, 0);
      } else if IsTarStem(name[..dot]) {
        DotBehind(name, k, s, dot);
        TarBehind(name, k, s, dot);
      } else {
        DotBehind(name, k, s, dot);
        assert c[..l] == s;
        assert s[l - 1] == d[|d| - 1] && d[|d| - 1] in d;
        DigitEndsNoTar(s);
      }
  }

  /** A name's last dot keeps its place behind the stem. */
  lemma DotBehind(name: string, k: nat, s: string, dot: nat)
    requires k <= dot && IsLastDot(name, dot)
    ensures LastDot(s + name[k..]) == Some(|s| + dot - k)
  {
    hide LastDot;
    var c, at := s + name[k..], |s| + dot - k;
    assert c[at] == name[dot];
    forall i | at < i < |c| ensures c[i] != '.' { assert c[i] == name[i - |s| + k]; }
    LastDotIs(c, at);
  }

  lemma TarBehind(name: string, k: nat, s: string, dot: nat)
    requires dot <= |name| && IsTarStem(name[..dot]) && k == dot - 4 && s != ""
    ensures IsTarStem((s + name[k..])[..|s| + 4])
  {
    var c := s + name[k..];
    assert c[..|s| + 4][|s|..] == name[..dot][dot - 4..];
  }

  lemma DigitEndsNoTar(s: string)
    requires s != "" && '0' <= s[|s| - 1] <= '9'
    ensures !IsTarStem(s)
  {
    if |s| > 4 { assert Lower(s[|s| - 4..])[3] == AsciiLower(s[|s| - 1]) && ".tar"[3] == 'r'; }
  }

  /** Where a name is split: a compressed tarball before its `.tar`, in any case and if something stands before
      it, any other name at its last dot, unless that is its first character; and a name without a dot not at
      all. */
  lemma SplitsExactly(a: string, t: string, x: string)
    requires '.' !in x && |t| == 4 && Lower(t) == ".tar"
    ensures a != "" ==> Extension(a + t + ("." + x)) == t + ("." + x)
    ensures a != "" && !(|a| > 4 && Lower(a[|a| - 4..]) == ".tar") ==> Extension(a + ("." + x)) == "." + x
    ensures Extension("." + x) == "" && Extension(x) == ""
  {
    hide Lower, Extension;
    if a != "" { TarballSplits(a, t, x); }
    if a != "" && !(|a| > 4 && Lower(a[|a| - 4..]) == ".tar") { OrdinarySplits(a, x); }
    HiddenStaysWhole(x);
  }

  lemma HiddenStaysWhole(x: string)
    requires '.' !in x
    ensures Extension("." + x) == "" && Extension(x) == ""
  {
    hide Lower, LastDot;
    assert "" + ("." + x) == "." + x;
    LastDotOf("", x);
  }

  lemma TarballSplits(a: string, t: string, x: string)
    requires '.' !in x && a != "" && |t| == 4 && Lower(t) == ".tar"
    ensures Extension(a + t + ("." + x)) == t + ("." + x)
  {
    hide Lower, LastDot;
    var name, dot := a + t + ("." + x), |a| + 4;
    LastDotOf(a + t, x);
    assert name[..dot] == a + t && (a + t)[|a|..] == t;
    assert name[|a|..] == t + ("." + x);
  }

  lemma OrdinarySplits(a: string, x: string)
    requires '.' !in x && a != "" && !(|a| > 4 && Lower(a[|a| - 4..]) == ".tar")
    ensures Extension(a + ("." + x)) == "." + x
  {
    hide Lower, LastDot;
    LastDotOf(a, x);
    assert (a + ("." + x))[..|a|] == a;
  }

  lemma LastDotOf(a: string, x: string)
    requires '.' !in x
    ensures LastDot(a + ("." + x)) == Some(|a|)
  {
    hide LastDot;
    var s := a + ("." + x);
    forall k | |a| < k < |s| ensures s[k] != '.' { assert s[k] == x[k - |a| - 1]; assert x[k - |a| - 1] in x; }
    assert s[|a|] == '.';
    LastDotIs(s, |a|);
  }

  lemma LastDotIs(s: string, i: nat)
    requires IsLastDot(s, i)
    ensures LastDot(s) == Some(i)
  {
    assert s[i] in s;
  }
}
