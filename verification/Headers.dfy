/** Request headers: names compared without regard to case, an overlay with a fixed precedence, and the
    clean-up of an edited list. */
module Headers {
  import opened Text

  /** An insertion-ordered map: entries in the order the user arranged. */
  type HeaderMap = seq<(string, string)>

  /** What spellings of one field name have in common. */
  function Fold(name: string): string {
    Lower(Trim(name))
  }

  predicate NameEq(a: string, b: string) {
    Fold(a) == Fold(b)
  }

  predicate Unique(m: HeaderMap) {
    forall i, j :: 0 <= i < j < |m| ==> !NameEq(m[i].0, m[j].0)
  }

  function Names(m: HeaderMap): (r: seq<string>)
    ensures |r| == |m| && forall i :: 0 <= i < |m| ==> r[i] == m[i].0
  {
    seq(|m|, i requires 0 <= i < |m| => m[i].0)
  }

  /** The first entry under any spelling. */
  function Position(m: HeaderMap, name: string): (r: Option<nat>)
    ensures r.Some? ==> r.value < |m|
  {
    if m == [] then None
    else match Position(m[..|m| - 1], name)
      case Some(i) => Some(i)
      case None => if NameEq(m[|m| - 1].0, name) then Some(|m| - 1) else None
  }

  /** `name` stands at `i` and nowhere before. */
  predicate FirstAt(m: HeaderMap, name: string, i: nat) {
    i < |m| && NameEq(m[i].0, name) && forall j :: 0 <= j < i ==> !NameEq(m[j].0, name)
  }

  predicate Absent(m: HeaderMap, name: string) {
    forall i :: 0 <= i < |m| ==> !NameEq(m[i].0, name)
  }

  lemma {:induction false} PositionIs(m: HeaderMap, name: string)
    ensures match Position(m, name)
            case Some(i) => FirstAt(m, name, i)
            case None => Absent(m, name)
    decreases |m|
  {
    hide NameEq;
    if m != [] { PositionIs(m[..|m| - 1], name); }
  }

  lemma {:induction false} PositionAt(m: HeaderMap, name: string, i: nat)
    requires FirstAt(m, name, i)
    ensures Position(m, name) == Some(i)
    decreases |m|
  {
    hide NameEq;
    PositionIs(m, name);
  }

  lemma PositionNone(m: HeaderMap, name: string)
    requires Absent(m, name)
    ensures Position(m, name) == None
  {
    hide NameEq;
    PositionIs(m, name);
  }

  function Lookup(m: HeaderMap, name: string): Option<string> {
    match Position(m, name)
    case None => None
    case Some(i) => Some(m[i].1)
  }

  /** The value of the last entry under any spelling. */
  function LastValue(m: HeaderMap, name: string): Option<string> {
    if m == [] then None
    else if NameEq(m[|m| - 1].0, name) then Some(m[|m| - 1].1)
    else LastValue(m[..|m| - 1], name)
  }

  /** `upsert_header`: replace in place, or append the trimmed name. */
  function Upserted(m: HeaderMap, name: string, value: string): HeaderMap {
    match Position(m, name)
    case Some(i) => m[i := (m[i].0, value)]
    case None => m + [(Trim(name), value)]
  }

  lemma TrimTwice(s: string)
    ensures Trim(Trim(s)) == Trim(s) && Fold(Trim(s)) == Fold(s)
  {
    TrimFixed(Trim(s));
  }

  /** What an upsert does, entry by entry. */
  lemma UpsertShape(m: HeaderMap, name: string, value: string)
    ensures var u, q := Upserted(m, name, value), Position(m, name);
            && |u| == (if q.Some? then |m| else |m| + 1)
            && (forall i :: 0 <= i < |m| ==> u[i] == if q == Some(i) then (m[i].0, value) else m[i])
            && (q.None? ==> u[|m|] == (Trim(name), value))
  {
    hide Position;
  }

  lemma SameName(a: string, b: string)
    ensures NameEq(a, b) ==> forall c :: NameEq(c, a) <==> NameEq(c, b)
    ensures NameEq(a, b) <==> NameEq(b, a)
    ensures NameEq(Trim(a), b) <==> NameEq(a, b)
  {
    hide Fold, Trim;
    TrimTwice(a);
  }

  lemma LookupOwn(m: HeaderMap, name: string, value: string, x: string)
    requires NameEq(name, x)
    ensures Lookup(Upserted(m, name, value), x) == Some(value)
  {
    hide NameEq, Upserted, Position, Trim;
    SameName(name, x);
    PositionIs(m, name);
    UpsertShape(m, name, value);
    var u, q := Upserted(m, name, value), Position(m, name);
    PositionAt(u, x, if q.Some? then q.value else |m|);
  }

  lemma LookupOther(m: HeaderMap, name: string, value: string, x: string)
    requires !NameEq(name, x)
    ensures Lookup(Upserted(m, name, value), x) == Lookup(m, x)
  {
    hide NameEq, Upserted, Position, Trim;
    SameName(name, x);
    PositionIs(m, name);
    PositionIs(m, x);
    UpsertShape(m, name, value);
    var u, p, q := Upserted(m, name, value), Position(m, x), Position(m, name);
    if p.Some? {
      SameName(m[p.value].0, name);
      SameName(m[p.value].0, x);
      PositionAt(u, x, p.value);
    } else {
      PositionNone(u, x);
    }
  }

  /** An upsert decides the lookup of its own name, under every spelling, and of no other. */
  lemma UpsertLookup(m: HeaderMap, name: string, value: string, x: string)
    ensures Lookup(Upserted(m, name, value), x) == if NameEq(name, x) then Some(value) else Lookup(m, x)
  {
    hide NameEq, Upserted, Lookup;
    if NameEq(name, x) { LookupOwn(m, name, value, x); } else { LookupOther(m, name, value, x); }
  }

  /** First spelling and position stay, and so does uniqueness. */
  lemma UpsertKeeps(m: HeaderMap, name: string, value: string)
    ensures Names(m) <= Names(Upserted(m, name, value))
    ensures Unique(m) ==> Unique(Upserted(m, name, value))
  {
    hide NameEq, Upserted, Position, Trim;
    PositionIs(m, name);
    UpsertShape(m, name, value);
    var u := Upserted(m, name, value);
    forall i | 0 <= i < |m| ensures u[i].0 == m[i].0 && (Absent(m, name) ==> !NameEq(u[i].0, Trim(name))) {
      SameName(name, m[i].0);
      SameName(Trim(name), m[i].0);
    }
  }

  // ---------------------------------------------------------------------------
  // The overlay

  function UpsertedAll(m: HeaderMap, headers: HeaderMap): HeaderMap {
    if headers == [] then m
    else Upserted(UpsertedAll(m, headers[..|headers| - 1]), headers[|headers| - 1].0, headers[|headers| - 1].1)
  }

  function UpsertedIf(m: HeaderMap, name: string, value: Option<string>): HeaderMap {
    if value.Some? then Upserted(m, name, value.value) else m
  }

  function NonEmpty(s: Option<string>): Option<string> {
    if s == Some("") then None else s
  }

  /** Global headers, then the referrer, the job's own, the stored cookies and the bearer token. */
  function Merged(base: HeaderMap, referrer: Option<string>, headers: HeaderMap, cookies: Option<string>,
      bearer: Option<string>): HeaderMap {
    var a := UpsertedIf(base, "Referer", referrer);
    var b := UpsertedAll(a, headers);
    var c := UpsertedIf(b, "Cookie", NonEmpty(cookies));
    UpsertedIf(c, "Authorization", bearer)
  }

  /** What the overlay writes into the options; `None` leaves them as they are. */
  datatype Overlay = Overlay(headers: Option<HeaderMap>, userAgent: Option<string>)

  /** `overlay_headers`. */
  method OverlayHeaders(base: HeaderMap, referrer: Option<string>, headers: HeaderMap, cookies: Option<string>,
      bearer: Option<string>)
    returns (o: Overlay)
    ensures (if o.headers.Some? then o.headers.value else base) == Merged(base, referrer, headers, cookies, bearer)
    ensures o.userAgent == Lookup(headers, "User-Agent")
    ensures o.headers.None? <==> headers == [] && referrer.None? && cookies in {None, Some("")} && bearer.None?
  {
    var jar := NonEmpty(cookies);
    if headers == [] && jar.None? && bearer.None? && referrer.None? {
      assert UpsertedAll(base, headers) == base;
      return Overlay(None, None);
    }
    var merged := base;
    if referrer.Some? {
      merged := Upserted(merged, "Referer", referrer.value);
    }
    ghost var start := merged;
    for i := 0 to |headers|
      invariant merged == UpsertedAll(start, headers[..i])
    {
      assert headers[..i + 1][..i] == headers[..i];
      merged := Upserted(merged, headers[i].0, headers[i].1);
    }
    assert headers[..|headers|] == headers;
    var agent := Lookup(headers, "User-Agent");
    if jar.Some? {
      merged := Upserted(merged, "Cookie", jar.value);
    }
    if bearer.Some? {
      merged := Upserted(merged, "Authorization", bearer.value);
    }
    return Overlay(Some(merged), agent);
  }

  lemma {:induction false} AllLookup(m: HeaderMap, headers: HeaderMap, x: string)
    ensures Lookup(UpsertedAll(m, headers), x) == if LastValue(headers, x).Some? then LastValue(headers, x)
              else Lookup(m, x)
    decreases |headers|
  {
    hide Fold, Upserted;
    if headers != [] {
      var init, h := headers[..|headers| - 1], headers[|headers| - 1];
      AllLookup(m, init, x);
      UpsertLookup(UpsertedAll(m, init), h.0, h.1, x);
    }
  }

  lemma {:induction false} AllKeeps(m: HeaderMap, headers: HeaderMap)
    ensures Names(m) <= Names(UpsertedAll(m, headers))
    ensures Unique(m) ==> Unique(UpsertedAll(m, headers))
    decreases |headers|
  {
    hide Upserted, Unique;
    if headers != [] {
      var init, h := headers[..|headers| - 1], headers[|headers| - 1];
      AllKeeps(m, init);
      UpsertKeeps(UpsertedAll(m, init), h.0, h.1);
    }
  }

  /** The source a name's value is taken from. */
  function Winner(base: HeaderMap, referrer: Option<string>, headers: HeaderMap, cookies: Option<string>,
      bearer: Option<string>, x: string): Option<string> {
    if bearer.Some? && NameEq("Authorization", x) then bearer
    else if cookies.Some? && cookies.value != "" && NameEq("Cookie", x) then cookies
    else if LastValue(headers, x).Some? then LastValue(headers, x)
    else if referrer.Some? && NameEq("Referer", x) then referrer
    else Lookup(base, x)
  }

  /** Whatever the spelling asked for, the overlay answers with the winner: bearer token, stored cookies, the
      job's last word, referrer, global. */
  lemma OverlayPrecedence(base: HeaderMap, referrer: Option<string>, headers: HeaderMap, cookies: Option<string>,
      bearer: Option<string>, x: string)
    ensures Lookup(Merged(base, referrer, headers, cookies, bearer), x) ==
              Winner(base, referrer, headers, cookies, bearer, x)
  {
    hide Fold, NameEq, Upserted, Lookup;
    var a := UpsertedIf(base, "Referer", referrer);
    var b := UpsertedAll(a, headers);
    var c := UpsertedIf(b, "Cookie", NonEmpty(cookies));
    if referrer.Some? { UpsertLookup(base, "Referer", referrer.value, x); }
    AllLookup(a, headers, x);
    if NonEmpty(cookies).Some? { UpsertLookup(b, "Cookie", cookies.value, x); }
    if bearer.Some? { UpsertLookup(c, "Authorization", bearer.value, x); }
  }

  /** Global names keep their spelling and their place, and no name appears twice if none did before. */
  lemma OverlayKeepsNames(base: HeaderMap, referrer: Option<string>, headers: HeaderMap, cookies: Option<string>,
      bearer: Option<string>)
    ensures Names(base) <= Names(Merged(base, referrer, headers, cookies, bearer))
    ensures Unique(base) ==> Unique(Merged(base, referrer, headers, cookies, bearer))
  {
    hide Upserted, Unique;
    var a := UpsertedIf(base, "Referer", referrer);
    var b := UpsertedAll(a, headers);
    var c := UpsertedIf(b, "Cookie", NonEmpty(cookies));
    if referrer.Some? { UpsertKeeps(base, "Referer", referrer.value); }
    AllKeeps(a, headers);
    if NonEmpty(cookies).Some? { UpsertKeeps(b, "Cookie", cookies.value); }
    if bearer.Some? { UpsertKeeps(c, "Authorization", bearer.value); }
  }

  lemma {:induction false} FirstIsLast(m: HeaderMap, x: string)
    requires Unique(m)
    ensures LastValue(m, x) == Lookup(m, x)
    decreases |m|
  {
    hide Fold;
    if m != [] {
      var n := |m| - 1;
      if NameEq(m[n].0, x) { PositionAt(m, x, n); } else { FirstIsLast(m[..n], x); }
    }
  }

  lemma DifferentLengths(a: string, b: string)
    requires Trim(a) == a && Trim(b) == b && |a| != |b|
    ensures !NameEq(a, b)
  {
  }

  lemma AgentIsNeither()
    ensures !NameEq("Authorization", "User-Agent") && !NameEq("Cookie", "User-Agent")
  {
    hide Trim, NameEq;
    TrimFixed("Authorization");
    TrimFixed("Cookie");
    TrimFixed("User-Agent");
    DifferentLengths("Authorization", "User-Agent");
    DifferentLengths("Cookie", "User-Agent");
  }

  /** The user agent set beside the headers is the first the job names and the header is the last: the two
      agree exactly when the job's list does not name two different ones first and last. */
  lemma UserAgentAgreesExactly(base: HeaderMap, referrer: Option<string>, headers: HeaderMap,
      cookies: Option<string>, bearer: Option<string>)
    requires Lookup(headers, "User-Agent").Some?
    ensures Lookup(headers, "User-Agent") == Lookup(Merged(base, referrer, headers, cookies, bearer), "User-Agent")
            <==> Lookup(headers, "User-Agent") == LastValue(headers, "User-Agent")
    ensures Unique(headers) ==> Lookup(headers, "User-Agent") == LastValue(headers, "User-Agent")
  {
    OverlayPrecedence(base, referrer, headers, cookies, bearer, "User-Agent");
    AgentIsNeither();
    SomeLast(headers, "User-Agent");
    if Unique(headers) { FirstIsLast(headers, "User-Agent"); }
  }

  lemma SpelledDifferently()
    ensures NameEq("User-Agent", "User-Agent") && NameEq("user-agent", "User-Agent")
  {
    hide Trim, Lower;
    TrimFixed("User-Agent");
    TrimFixed("user-agent");
    SameLetters("user-agent", "User-Agent");
  }

  lemma SameLetters(a: string, b: string)
    requires |a| == |b| && forall i :: 0 <= i < |a| ==> AsciiLower(a[i]) == AsciiLower(b[i])
    ensures Lower(a) == Lower(b)
  {
  }

  /** A job that names the header twice, spelled differently: the option takes the first, the header the last. */
  lemma TwoUserAgentsPartWays(base: HeaderMap, a: string, b: string)
    ensures var headers := [("User-Agent", a), ("user-agent", b)];
            && Lookup(headers, "User-Agent") == Some(a)
            && Lookup(Merged(base, None, headers, None, None), "User-Agent") == Some(b)
  {
    hide NameEq, Merged;
    var headers := [("User-Agent", a), ("user-agent", b)];
    SpelledDifferently();
    PositionAt(headers, "User-Agent", 0);
    assert LastValue(headers, "User-Agent") == Some(b);
    OverlayPrecedence(base, None, headers, None, None, "User-Agent");
  }

  lemma {:induction false} SomeLast(m: HeaderMap, x: string)
    ensures Lookup(m, x).Some? ==> LastValue(m, x).Some?
    decreases |m|
  {
    hide Fold;
    if m != [] && !NameEq(m[|m| - 1].0, x) { SomeLast(m[..|m| - 1], x); }
  }

  // ---------------------------------------------------------------------------
  // The clean-up

  function Normalized(pairs: HeaderMap): HeaderMap {
    if pairs == [] then []
    else
      var out, p := Normalized(pairs[..|pairs| - 1]), pairs[|pairs| - 1];
      if Trim(p.0) == "" then out else Upserted(out, p.0, p.1)
  }

  /** `normalize_headers`. */
  method NormalizeHeaders(pairs: HeaderMap) returns (out: HeaderMap)
    ensures out == Normalized(pairs)
  {
    out := [];
    for i := 0 to |pairs|
      invariant out == Normalized(pairs[..i])
    {
      assert pairs[..i + 1][..i] == pairs[..i];
      var (name, value) := pairs[i];
      if Trim(name) == "" {
        continue;
      }
      out := Upserted(out, name, value);
    }
    assert pairs[..|pairs|] == pairs;
  }

  /** Trimmed, and not blank. */
  predicate Tidy(m: HeaderMap) {
    forall i :: 0 <= i < |m| ==> m[i].0 != "" && Trim(m[i].0) == m[i].0
  }

  lemma {:induction false} NormalizedShape(pairs: HeaderMap)
    ensures Unique(Normalized(pairs)) && Tidy(Normalized(pairs))
    decreases |pairs|
  {
    hide Fold, Trim;
    if pairs != [] {
      var out, p := Normalized(pairs[..|pairs| - 1]), pairs[|pairs| - 1];
      NormalizedShape(pairs[..|pairs| - 1]);
      TrimTwice(p.0);
      UpsertKeeps(out, p.0, p.1);
    }
  }

  /** A list that is tidy and names nothing twice is left exactly as it is. */
  lemma {:induction false} NormalizedFixed(m: HeaderMap)
    requires Unique(m) && Tidy(m)
    ensures Normalized(m) == m
    decreases |m|
  {
    hide Fold, Trim;
    if m != [] {
      var n := |m| - 1;
      NormalizedFixed(m[..n]);
      PositionNone(m[..n], m[n].0);
      assert m == m[..n] + [m[n]];
    }
  }

  lemma NormalizeIdempotent(pairs: HeaderMap)
    ensures Normalized(Normalized(pairs)) == Normalized(pairs)
  {
    NormalizedShape(pairs);
    NormalizedFixed(Normalized(pairs));
  }

  /** The clean-up names each header once, trimmed, and gives it the last value it was given. */
  lemma {:induction false} NormalizeLastWins(pairs: HeaderMap, x: string)
    requires Trim(x) != ""
    ensures Lookup(Normalized(pairs), x) == LastValue(pairs, x)
    decreases |pairs|
  {
    hide Upserted, Lookup, Lower, Trim;
    if pairs == [] {
      NothingFound(x);
    } else {
      var out, p := Normalized(pairs[..|pairs| - 1]), pairs[|pairs| - 1];
      NormalizeLastWins(pairs[..|pairs| - 1], x);
      if Trim(p.0) == "" {
        BlankIsNoName(p.0, x);
      } else {
        UpsertLookup(out, p.0, p.1, x);
      }
    }
  }

  lemma NothingFound(x: string)
    ensures Lookup([], x) == None
  {
  }

  lemma BlankIsNoName(a: string, x: string)
    requires Trim(a) == "" && Trim(x) != ""
    ensures !NameEq(a, x)
  {
  }
}
