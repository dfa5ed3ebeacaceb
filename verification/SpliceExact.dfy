/** The other direction: which launch lines the edit settles on. */
module SpliceExact {
  import opened Text
  import opened LaunchSearch
  import opened GrantSplice

  function Repeat(c: char, n: nat): (r: string)
    ensures |r| == n
  {
    seq(n, _ => c)
  }

  predicate AllPlain(tokens: seq<string>) {
    forall t :: t in tokens ==> IsPlain(t)
  }

  lemma {:induction false} SomethingToPlace(p: string, r: string, tokens: seq<string>, t: string)
    requires t in tokens && !Contains(p + r, t)
    ensures Placed(p, [], r, tokens) != []
    decreases |tokens|
  {
    assert p + Inserted([]) + r == p + r;
    if Contains(p + r, tokens[0]) {
      assert t in tokens[1..];
      SomethingToPlace(p, r, tokens[1..], t);
    } else {
      var more := PlacedGrows(p, [] + [tokens[0]], r, tokens[1..]);
    }
  }

  /** A run of `n` equal characters longer than `p` and than `r` cannot stand in `p + m + r` without
      touching `m`. */
  lemma RunTouchesMiddle(p: string, m: string, r: string, t: string, i: nat, c: char, n: nat) returns (k: nat)
    requires m != "" && |p| < n && |r| < n && |t| >= n + 2 && t[2..n + 2] == Repeat(c, n)
    requires OccursAt(p + m + r, t, i)
    ensures i + 2 <= |p| + k < i + 2 + n && k < |m| && m[k] == c
  {
    k := if i + 2 < |p| then 0 else i + 2 - |p|;
    var s := p + m + r;
    var j := |p| + k - i;
    OccursChar(s, t, i, j);
    assert t[j] == t[2..n + 2][j - 2];
    assert s[|p| + k] == m[k];
  }

  /** Three plain grants: the second is the first and the character after the launch, the third is
      long enough to be new. */
  function Upsetting(c: char, n: nat): seq<string> {
    var z := "--" + Repeat('z', n);
    [z, z + [c], "--" + Repeat('y', n)]
  }

  /** The second grant is found across the seam, so only the first and the third are placed. */
  lemma PlacedTwo(p: string, r: string, n: nat)
    requires n == |p + r| + 1 && r != ""
    ensures var ts := Upsetting(r[0], n); Placed(p, [], r, ts) == [ts[0], ts[2]]
  {
    hide Contains, Repeat;
    var ts := Upsetting(r[0], n);
    var z, t, w := ts[0], ts[1], ts[2];
    assert p + Inserted([]) + r == p + r;
    assert [] + [z] == [z] && [z] + [w] == [z, w];
    TooLong(p + r, z);
    SecondAcrossSeam(p, r, z);
    NoSecondWord(p, r, z, w, n);
    assert ts[1..] == [t, w] && [t, w][1..] == [w] && [w][1..] == [];
    assert Placed(p, [z], r, [w]) == Placed(p, [z, w], r, []);
  }

  lemma TooLong(s: string, t: string)
    requires |t| > |s|
    ensures !Contains(s, t)
  {
  }

  lemma SecondAcrossSeam(p: string, r: string, z: string)
    requires r != ""
    ensures Contains(p + Inserted([z]) + r, z + [r[0]])
  {
    InsertedSnoc([], z);
    var one, t := p + (" " + z) + r, z + [r[0]];
    assert one == p + Inserted([z]) + r;
    assert one[|p| + 1..|p| + 1 + |t|] == t;
    assert OccursAt(one, t, |p| + 1);
  }

  /** And once both are placed, the second is found nowhere. */
  lemma SecondIsLost(p: string, r: string, n: nat)
    requires n == |p + r| + 1 && r != "" && !IsBreak(r[0])
    ensures var ts := Upsetting(r[0], n);
            AllPlain(ts) && !Contains(p + Inserted(Placed(p, [], r, ts)) + r, ts[1])
  {
    var ts := Upsetting(r[0], n);
    PlacedTwo(p, r, n);
    TornApart(p, r, ts[0], ts[2], ts[1], n);
  }

  /** A text that lacks one of the grants is edited again. */
  lemma EditedAgain(text: string, tokens: seq<string>, t: string)
    requires Launch(text).Some? && t in tokens && !Contains(text, t)
    ensures SplicedText(text, tokens) != text
  {
    var c := Launch(text).value;
    var _ := LaunchShape(text, c);
    assert text == text[..c] + text[c..];
    SomethingToPlace(text[..c], text[c..], tokens, t);
    assert |SplicedText(text, tokens)| > |text|;
  }

  /** Where the launch runs straight into another word, three plain grants upset the edit: the second
      is found across the seam, and placing the third tears it apart again. */
  lemma UnsafeLaunchRepeats(text: string) returns (tokens: seq<string>)
    requires !SafeLaunch(text)
    ensures AllPlain(tokens)
    ensures SplicedText(SplicedText(text, tokens), tokens) != SplicedText(text, tokens)
  {
    var cut := Launch(text).value;
    var at := LaunchShape(text, cut);
    var p, r, n := text[..cut], text[cut..], |text| + 1;
    tokens := Upsetting(r[0], n);
    assert p + r == text;
    SecondIsLost(p, r, n);
    var two := SplicedText(text, tokens);
    assert two[..cut] == text[..cut];
    LaunchInside(text, two, at, 0, cut);
    EditedAgain(two, tokens, tokens[1]);
  }

  lemma NoSecondWord(p: string, r: string, z: string, w: string, n: nat)
    requires |p| < n && |r| < n && z == "--" + Repeat('z', n) && w == "--" + Repeat('y', n)
    ensures !Contains(p + Inserted([z]) + r, w)
  {
    InsertedSnoc([], z);
    var m := " " + z;
    assert Inserted([z]) == m;
    forall i | 0 <= i <= |p + m + r| ensures !OccursAt(p + m + r, w, i) {
      if OccursAt(p + m + r, w, i) {
        assert w[2..n + 2] == Repeat('y', n);
        var k := RunTouchesMiddle(p, m, r, w, i, 'y', n);
      }
    }
  }

  lemma TornApart(p: string, r: string, z: string, w: string, t: string, n: nat)
    requires |p| < n && |r| < n && z == "--" + Repeat('z', n) && w == "--" + Repeat('y', n)
    requires |t| == |z| + 1 && t[..|z|] == z && !IsBreak(t[|z|])
    ensures !Contains(p + Inserted([z, w]) + r, t)
  {
    InsertedSnoc([], z);
    InsertedSnoc([z], w);
    assert [] + [z] == [z] && [z] + [w] == [z, w];
    var m := " " + z + " " + w;
    assert Inserted([z, w]) == m;
    var s := p + m + r;
    forall i | 0 <= i <= |s| ensures !OccursAt(s, t, i) {
      if OccursAt(s, t, i) {
        assert t[2..n + 2] == t[..|z|][2..] == Repeat('z', n);
        var k := RunTouchesMiddle(p, m, r, t, i, 'z', n);
        AlignedRun(p, m, r, z, t, i, k, n);
      }
    }
  }

  /** The run of `z` in `m` is where the grant `z` was placed, and a break follows it. */
  lemma AlignedRun(p: string, m: string, r: string, z: string, t: string, i: nat, k: nat, n: nat)
    requires z == "--" + Repeat('z', n) && |t| == n + 3 && t[..n + 2] == z
    requires |m| >= n + 4 && m[..n + 3] == " " + z && m[n + 3] == ' '
    requires forall j :: n + 3 <= j < |m| ==> m[j] != 'z'
    requires OccursAt(p + m + r, t, i) && i + 2 <= |p| + k < i + 2 + n && k < |m| && m[k] == 'z'
    ensures IsBreak(t[n + 2])
  {
    var s := p + m + r;
    assert forall j :: 0 <= j < n + 3 ==> m[j] == (" " + z)[j];
    assert forall j :: 0 <= j < n + 2 ==> t[j] == z[j];
    forall x | i + 2 <= x < i + 2 + n ensures s[x] == 'z' { OccursChar(s, t, i, x - i); }
    assert s[|p| + 2] == m[2] == '-';
    assert s[|p| + n + 3] == m[n + 3] == ' ';
    assert 3 <= k < n + 3;
    assert i + 2 == |p| + 3;
    OccursChar(s, t, i, n + 2);
  }

  /** A launch line settles after one edit, whatever plain grants it is given, exactly when nothing
      follows `run` but a break or the end of the line. */
  lemma SettlesExactly(text: string)
    ensures SafeLaunch(text) <==>
            forall tokens :: AllPlain(tokens) ==>
              SplicedText(SplicedText(text, tokens), tokens) == SplicedText(text, tokens)
  {
    if SafeLaunch(text) {
      forall tokens | AllPlain(tokens)
        ensures SplicedText(SplicedText(text, tokens), tokens) == SplicedText(text, tokens)
      {
        PlainIsSpliceable(tokens);
        TextIdempotent(text, tokens);
      }
    } else {
      var tokens := UnsafeLaunchRepeats(text);
    }
  }
}
