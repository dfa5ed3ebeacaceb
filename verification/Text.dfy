/** Substring search, trimming and folding over strings, shared by the other modules. */
module Text {

  datatype Option<+T> = None | Some(value: T)

  /** `t` stands in `s` at index `i`. */
  predicate OccursAt(s: string, t: string, i: int) {
    0 <= i && i + |t| <= |s| && s[i..i + |t|] == t
  }

  /** Rust's `contains`. */
  predicate Contains(s: string, t: string) {
    exists i :: 0 <= i <= |s| && OccursAt(s, t, i)
  }

  predicate StartsWith(s: string, t: string) {
    t <= s
  }

  /** Rust's `find`, started at `from`: the leftmost occurrence. */
  function FindFrom(s: string, t: string, from: nat): (r: Option<nat>)
    ensures r.Some? ==> from <= r.value && OccursAt(s, t, r.value)
    ensures r.Some? ==> forall i :: from <= i < r.value ==> !OccursAt(s, t, i)
    ensures r.None? ==> forall i :: from <= i ==> !OccursAt(s, t, i)
    decreases |s| + 1 - from
  {
    if from + |t| > |s| then None
    else if OccursAt(s, t, from) then Some(from)
    else FindFrom(s, t, from + 1)
  }

  lemma FindFits(s: string, t: string, from: nat)
    ensures FindFrom(s, t, from).Some? ==> FindFrom(s, t, from).value + |t| <= |s|
  {
  }

  function Find(s: string, t: string): (r: Option<nat>)
    ensures r.Some? <==> Contains(s, t)
    ensures r.Some? ==> OccursAt(s, t, r.value) && forall i :: 0 <= i < r.value ==> !OccursAt(s, t, i)
  {
    FindFrom(s, t, 0)
  }

  predicate Distinct<T(==)>(s: seq<T>) {
    forall i, j :: 0 <= i < j < |s| ==> s[i] != s[j]
  }

  lemma OccursInPrefix(a: string, b: string, t: string, i: int)
    ensures OccursAt(a, t, i) ==> OccursAt(a + b, t, i)
    ensures OccursAt(a + b, t, i) && i + |t| <= |a| ==> OccursAt(a, t, i)
  {
    if 0 <= i && i + |t| <= |a| {
      assert (a + b)[i..i + |t|] == a[i..i + |t|];
    }
  }

  lemma OccursInSuffix(a: string, b: string, t: string, i: int)
    ensures OccursAt(b, t, i) ==> OccursAt(a + b, t, |a| + i)
    ensures i >= |a| && OccursAt(a + b, t, i) ==> OccursAt(b, t, i - |a|)
  {
    if 0 <= i && i + |t| <= |b| {
      assert (a + b)[|a| + i..|a| + i + |t|] == b[i..i + |t|];
    }
    if |a| <= i && i + |t| <= |a + b| {
      assert (a + b)[i..i + |t|] == b[i - |a|..i - |a| + |t|];
    }
  }

  lemma ContainsWiden(a: string, b: string, c: string, t: string)
    ensures Contains(b, t) ==> Contains(a + b + c, t)
  {
    if Contains(b, t) {
      var i :| 0 <= i <= |b| && OccursAt(b, t, i);
      OccursInSuffix(a, b, t, i);
      OccursInPrefix(a + b, c, t, |a| + i);
    }
  }

  /** Reading one character of an occurrence. */
  lemma OccursChar(s: string, t: string, i: int, k: nat)
    requires OccursAt(s, t, i) && k < |t|
    ensures s[i + k] == t[k]
  {
    assert s[i..i + |t|][k] == s[i + k];
  }

  lemma OccursHead(s: string, t: string, i: int)
    ensures OccursAt(s, t, i) && t != "" ==> s[i] == t[0]
  {
    if OccursAt(s, t, i) && t != "" { OccursChar(s, t, i, 0); }
  }

  // ASCII folding and trimming

  function AsciiLower(c: char): char {
    if 'A' <= c <= 'Z' then c + (32 as char) else c
  }

  const CAPITALS := "ABCDEFGHIJKLMNOPQRSTUVWXYZ"
  const SMALL_LETTERS := "abcdefghijklmnopqrstuvwxyz"

  /** Each capital has its small letter, and no other character changes. */
  lemma AsciiLowerFolds(c: char, i: nat)
    requires i < 26
    ensures AsciiLower(CAPITALS[i]) == SMALL_LETTERS[i]
    ensures c !in CAPITALS ==> AsciiLower(c) == c
  {
    if 'A' <= c <= 'Z' { assert CAPITALS[c as int - 'A' as int] == c; }
  }

  function Lower(s: string): (r: string)
    ensures |r| == |s| && forall i :: 0 <= i < |s| ==> r[i] == AsciiLower(s[i])
  {
    seq(|s|, i requires 0 <= i < |s| => AsciiLower(s[i]))
  }

  /** The characters Unicode calls White_Space, which is what `trim` removes. */
  predicate IsWhite(c: char) {
    var n := c as int;
    9 <= n <= 13 || n == 0x20 || n == 0x85 || n == 0xA0 || n == 0x1680 || 0x2000 <= n <= 0x200A
    || n == 0x2028 || n == 0x2029 || n == 0x202F || n == 0x205F || n == 0x3000
  }

  function TrimStart(s: string): (r: string)
    ensures r == [] || !IsWhite(r[0])
    ensures |r| <= |s| && r == s[|s| - |r|..]
  {
    if s != [] && IsWhite(s[0]) then TrimStart(s[1..]) else s
  }

  /** `trim_end_matches` with a set of characters. */
  function TrimEndSet(s: string, drop: set<char>): (r: string)
    ensures r == [] || r[|r| - 1] !in drop
    ensures |r| <= |s| && r == s[..|r|]
    ensures forall i :: |r| <= i < |s| ==> s[i] in drop
  {
    if s != [] && s[|s| - 1] in drop then TrimEndSet(s[..|s| - 1], drop) else s
  }

  /** Trimming takes off exactly what was put behind a text that ends in something else. */
  lemma {:induction false} TrimEndSetIs(a: string, b: string, drop: set<char>)
    requires a == "" || a[|a| - 1] !in drop
    requires forall i :: 0 <= i < |b| ==> b[i] in drop
    ensures TrimEndSet(a + b, drop) == a
    decreases |b|
  {
    if b == "" {
      assert a + b == a;
    } else {
      assert (a + b)[..|a + b| - 1] == a + b[..|b| - 1];
      TrimEndSetIs(a, b[..|b| - 1], drop);
    }
  }

  function TrimEnd(s: string): (r: string)
    ensures r == [] || !IsWhite(r[|r| - 1])
    ensures |r| <= |s| && r == s[..|r|]
  {
    if s != [] && IsWhite(s[|s| - 1]) then TrimEnd(s[..|s| - 1]) else s
  }

  function Trim(s: string): (r: string)
    ensures r == [] || (!IsWhite(r[0]) && !IsWhite(r[|r| - 1]))
  {
    TrimEnd(TrimStart(s))
  }

  /** A string with no white space at its ends is left alone. */
  lemma TrimFixed(s: string)
    requires s == [] || (!IsWhite(s[0]) && !IsWhite(s[|s| - 1]))
    ensures Trim(s) == s
  {
  }

  /** Trimming takes off the white space around a text and nothing of the text. */
  lemma TrimIs(a: string, s: string, b: string)
    requires s == "" || (!IsWhite(s[0]) && !IsWhite(s[|s| - 1]))
    requires forall i :: 0 <= i < |a| ==> IsWhite(a[i])
    requires forall i :: 0 <= i < |b| ==> IsWhite(b[i])
    ensures Trim(a + s + b) == s
  {
    if s == "" {
      assert a + s + b == (a + b) + "";
      assert a + b + "" == a + b;
      TrimStartIs(a + b, "");
      assert TrimStart(a + s + b) == "";
    } else {
      assert a + s + b == a + (s + b);
      TrimStartIs(a, s + b);
      TrimEndIs(s, b);
    }
  }

  lemma {:induction false} TrimStartIs(a: string, s: string)
    requires s == "" || !IsWhite(s[0])
    requires forall i :: 0 <= i < |a| ==> IsWhite(a[i])
    ensures TrimStart(a + s) == s
    decreases |a|
  {
    if a == "" {
      assert a + s == s;
    } else {
      assert (a + s)[1..] == a[1..] + s;
      TrimStartIs(a[1..], s);
    }
  }

  lemma {:induction false} TrimEndIs(s: string, b: string)
    requires s == "" || !IsWhite(s[|s| - 1])
    requires forall i :: 0 <= i < |b| ==> IsWhite(b[i])
    ensures TrimEnd(s + b) == s
    decreases |b|
  {
    if b == "" {
      assert s + b == s;
    } else {
      assert (s + b)[..|s + b| - 1] == s + b[..|b| - 1];
      TrimEndIs(s, b[..|b| - 1]);
    }
  }
}
