/** Integrity checksums: verdicts that follow a digest rather than a row's place in the list. */
module Checksums {
  import opened Text

  datatype Algo = Md5 | Sha1 | Sha256 | Sha384 | Sha512

  function HexLen(a: Algo): nat {
    match a
    case Md5 => 32
    case Sha1 => 40
    case Sha256 => 64
    case Sha384 => 96
    case Sha512 => 128
  }

  datatype Source = Server | Computed | User
  datatype Status = Verified | Mismatch | Unverified
  datatype Checksum = Checksum(algo: Algo, hash: string, source: Source, status: Status, expected: Option<string>)

  /** What a check found, named by the digest it judged. */
  datatype Verdict = Verdict(algo: Algo, hash: string, status: Status, computed: Option<string>)

  /** What two spellings of one digest have in common. */
  function Digest(algo: Algo, hash: string): (Algo, string) {
    (algo, Lower(Trim(hash)))
  }

  predicate SameDigest(row: Checksum, algo: Algo, hash: string) {
    row.algo == algo && Lower(Trim(row.hash)) == Lower(Trim(hash))
  }

  // ---------------------------------------------------------------------------
  // Which rows can be checked

  predicate IsHex(c: char) {
    '0' <= c <= '9' || 'a' <= c <= 'f' || 'A' <= c <= 'F'
  }

  /** `checksum_to_digest` finds something to compare against. */
  predicate WellFormed(c: Checksum) {
    var h := Trim(c.hash);
    |h| == HexLen(c.algo) && forall i :: 0 <= i < |h| ==> IsHex(h[i])
  }

  predicate Checkable(c: Checksum) {
    (c.source.Server? || c.source.User?) && WellFormed(c)
  }

  /** `checksum_rows_to_verify`. */
  function RowsToVerify(rows: seq<Checksum>): seq<nat> {
    if rows == [] then []
    else RowsToVerify(rows[..|rows| - 1]) + if Checkable(rows[|rows| - 1]) then [|rows| - 1] else []
  }

  /** How long the digests of an algorithm are. */
  function DigestBits(a: Algo): nat {
    match a
    case Md5 => 128
    case Sha1 => 160
    case Sha256 => 256
    case Sha384 => 384
    case Sha512 => 512
  }

  lemma HexDigits(c: char)
    ensures IsHex(c) <==> c in "0123456789abcdefABCDEF"
  {
    var digits := "0123456789abcdefABCDEF";
    if '0' <= c <= '9' { assert digits[c as int - '0' as int] == c; }
    if 'a' <= c <= 'f' { assert digits[10 + c as int - 'a' as int] == c; }
    if 'A' <= c <= 'F' { assert digits[16 + c as int - 'A' as int] == c; }
  }

  lemma CheckableMeans(row: Checksum)
    ensures Checkable(row) <==>
            row.source != Computed && 4 * |Trim(row.hash)| == DigestBits(row.algo)
            && forall c :: c in Trim(row.hash) ==> c in "0123456789abcdefABCDEF"
  {
    hide Trim, IsHex;
    forall c ensures IsHex(c) <==> c in "0123456789abcdefABCDEF" { HexDigits(c); }
    assert 4 * HexLen(row.algo) == DigestBits(row.algo);
  }

  lemma {:induction false} CheckableRows(rows: seq<Checksum>, i: nat)
    ensures i in RowsToVerify(rows) <==> i < |rows| && Checkable(rows[i])
  {
    hide Checkable;
    if rows != [] { CheckableRows(rows[..|rows| - 1], i); }
  }

  lemma RowsToVerifyAre(rows: seq<Checksum>, i: nat)
    ensures i in RowsToVerify(rows) <==> i < |rows| && Checkable(rows[i])
    ensures i in RowsToVerify(rows) <==>
            i < |rows| && rows[i].source != Computed && 4 * |Trim(rows[i].hash)| == DigestBits(rows[i].algo)
            && forall c :: c in Trim(rows[i].hash) ==> c in "0123456789abcdefABCDEF"
  {
    hide Checkable, DigestBits, Trim, RowsToVerify;
    CheckableRows(rows, i);
    if i < |rows| { CheckableMeans(rows[i]); }
  }

  // ---------------------------------------------------------------------------
  // Recording verdicts

  function Recorded(row: Checksum, v: Verdict): Checksum {
    if SameDigest(row, v.algo, v.hash) then row.(status := v.status, expected := v.computed) else row
  }

  function RecordedAll(row: Checksum, vs: seq<Verdict>): Checksum {
    if vs == [] then row else Recorded(RecordedAll(row, vs[..|vs| - 1]), vs[|vs| - 1])
  }

  ghost function RecordedRows(rows: seq<Checksum>, v: Verdict): (r: seq<Checksum>)
    ensures |r| == |rows| && forall i :: 0 <= i < |rows| ==> r[i] == Recorded(rows[i], v)
  {
    seq(|rows|, i requires 0 <= i < |rows| => Recorded(rows[i], v))
  }

  /** `apply_verdicts`: for each verdict, every row it is about. */
  method ApplyVerdicts(rows: array<Checksum>, vs: seq<Verdict>)
    modifies rows
    ensures forall i :: 0 <= i < rows.Length ==> rows[i] == RecordedAll(old(rows[i]), vs)
  {
    hide Lower, Trim;
    for k := 0 to |vs|
      invariant forall i :: 0 <= i < rows.Length ==> rows[i] == RecordedAll(old(rows[i]), vs[..k])
    {
      ghost var before, want := rows[..], RecordedRows(rows[..], vs[k]);
      var v := vs[k];
      for j := 0 to rows.Length
        invariant forall i :: 0 <= i < j ==> rows[i] == want[i]
        invariant forall i :: j <= i < rows.Length ==> rows[i] == before[i]
      {
        var row := rows[j];
        if SameDigest(row, v.algo, v.hash) {
          rows[j] := row.(status := v.status, expected := v.computed);
        }
        assert rows[j] == want[j];
      }
      forall i | 0 <= i < rows.Length ensures rows[i] == RecordedAll(old(rows[i]), vs[..k + 1]) {
        RecordedNext(old(rows[i]), vs, k);
      }
    }
    assert vs[..|vs|] == vs;
  }

  lemma RecordedNext(row: Checksum, vs: seq<Verdict>, k: nat)
    requires k < |vs|
    ensures RecordedAll(row, vs[..k + 1]) == Recorded(RecordedAll(row, vs[..k]), vs[k])
  {
    assert vs[..k + 1][..k] == vs[..k];
  }

  /** The digests of one file, by algorithm. */
  type File = Algo -> string

  predicate Matches(file: File, algo: Algo, hash: string) {
    Lower(file(algo)) == Lower(Trim(hash))
  }

  /** What a check of `file` says about a digest. */
  function TrueStatus(file: File, algo: Algo, hash: string): (Status, Option<string>) {
    if Matches(file, algo, hash) then (Verified, None) else (Mismatch, Some(file(algo)))
  }

  predicate IsTrue(file: File, v: Verdict) {
    (v.status, v.computed) == TrueStatus(file, v.algo, v.hash)
  }

  predicate About(vs: seq<Verdict>, row: Checksum) {
    exists v :: v in vs && SameDigest(row, v.algo, v.hash)
  }

  function TrueRow(file: File, row: Checksum): Checksum {
    row.(status := TrueStatus(file, row.algo, row.hash).0, expected := TrueStatus(file, row.algo, row.hash).1)
  }

  /** Whatever the list has become since the check was asked for, recording verdicts made from one file sets
      each row to the truth about its own digest if that digest was checked, and leaves it alone if not. */
  lemma {:induction false} VerdictsFollowDigests(file: File, row: Checksum, vs: seq<Verdict>)
    requires forall v :: v in vs ==> IsTrue(file, v)
    ensures RecordedAll(row, vs) == if About(vs, row) then TrueRow(file, row) else row
    decreases |vs|
  {
    hide Lower, Trim;
    if vs != [] {
      var init, v := vs[..|vs| - 1], vs[|vs| - 1];
      assert vs == init + [v];
      VerdictsFollowDigests(file, row, init);
      assert v in vs;
      var was := RecordedAll(row, init);
      assert was.algo == row.algo && was.hash == row.hash;
      if SameDigest(row, v.algo, v.hash) {
        assert TrueStatus(file, v.algo, v.hash) == TrueStatus(file, row.algo, row.hash);
        assert About(vs, row);
      } else {
        assert About(vs, row) <==> About(init, row);
      }
    }
  }

  /** So neither the order of the verdicts nor a verdict given twice makes a difference. */
  lemma OrderDoesNotMatter(file: File, row: Checksum, vs: seq<Verdict>, ws: seq<Verdict>)
    requires forall v :: v in vs ==> IsTrue(file, v)
    requires forall v :: v in vs <==> v in ws
    ensures RecordedAll(row, vs) == RecordedAll(row, ws)
  {
    VerdictsFollowDigests(file, row, vs);
    VerdictsFollowDigests(file, row, ws);
    assert About(vs, row) <==> About(ws, row);
  }

  /** `same_digest` is an equivalence: rows and verdicts fall into digests. */
  lemma SameDigestIsDigestEquality(a: Checksum, b: Checksum)
    ensures SameDigest(a, b.algo, b.hash) <==> Digest(a.algo, a.hash) == Digest(b.algo, b.hash)
    ensures SameDigest(a, b.algo, b.hash) <==> SameDigest(b, a.algo, a.hash)
    ensures forall c: Checksum :: SameDigest(a, b.algo, b.hash) ==>
              (SameDigest(a, c.algo, c.hash) <==> SameDigest(b, c.algo, c.hash))
  {
  }

  /** Two spellings of one digest are both checkable or both not, as far as the digest goes. */
  lemma SpellingDoesNotMatter(a: Checksum, b: Checksum)
    requires SameDigest(a, b.algo, b.hash)
    ensures WellFormed(a) <==> WellFormed(b)
  {
    hide Trim;
    var x, y := Trim(a.hash), Trim(b.hash);
    assert |x| == |y| by { assert Lower(x) == Lower(y); }
    forall i | 0 <= i < |x| ensures IsHex(x[i]) <==> IsHex(y[i]) { assert Lower(x)[i] == Lower(y)[i]; }
  }

  // ---------------------------------------------------------------------------
  // Naming results by their digest

  /** `verdicts`: a result for an index past the list names nothing. */
  function Verdicts(rows: seq<Checksum>, results: seq<(nat, Status, Option<string>)>): seq<Verdict> {
    if results == [] then []
    else
      var (i, status, computed) := results[|results| - 1];
      Verdicts(rows, results[..|results| - 1]) +
      if i < |rows| then [Verdict(rows[i].algo, rows[i].hash, status, computed)] else []
  }
}
