/** Checking a finished file against a list of checksums that may change while it is hashed. */
module VerifyFile {
  import opened Text
  import opened Checksums

  datatype Error = Cancelled | Io | ChecksumMismatch(expected: string, actual: string)
  datatype Result<T> = Ok(value: T) | Err(error: Error)

  type Row = (nat, Status, Option<string>)

  /** What hashing the file gives, or `None` where it cannot be read. */
  type Disk = Algo -> Option<string>

  /** The digests as `verify_rows` keeps them, in lower case. */
  function FileOf(disk: Disk): File {
    a => if disk(a).Some? then Lower(disk(a).value) else ""
  }

  predicate Indices(idx: seq<nat>, rows: seq<Checksum>) {
    forall k :: 0 <= k < |idx| ==> idx[k] < |rows|
  }

  /** The true answer about row `i`. */
  function Answer(file: File, rows: seq<Checksum>, i: nat): Row
    requires i < |rows|
  {
    (i, TrueStatus(file, rows[i].algo, rows[i].hash).0, TrueStatus(file, rows[i].algo, rows[i].hash).1)
  }

  /** One row against the digest that was hashed for its algorithm. */
  function Compared(got: string, i: nat, row: Checksum): Row {
    if Lower(got) == Lower(Trim(row.hash)) then (i, Verified, None) else (i, Mismatch, Some(got))
  }

  lemma ComparedIsAnswer(file: File, rows: seq<Checksum>, i: nat, got: string)
    requires i < |rows| && got == file(rows[i].algo)
    ensures Compared(got, i, rows[i]) == Answer(file, rows, i)
  {
  }

  ghost function TrueAnswers(file: File, rows: seq<Checksum>, idx: seq<nat>): (r: seq<Row>)
    requires Indices(idx, rows)
    ensures Answers(file, rows, idx, r)
  {
    seq(|idx|, k requires 0 <= k < |idx| => Answer(file, rows, idx[k]))
  }

  predicate Answers(file: File, rows: seq<Checksum>, idx: seq<nat>, out: seq<Row>)
    requires Indices(idx, rows)
  {
    |out| == |idx| && forall k :: 0 <= k < |idx| ==> out[k] == Answer(file, rows, idx[k])
  }

  /** `verify_rows`: hash once per algorithm, then judge every row to check. */
  method VerifyRows(disk: Disk, rows: seq<Checksum>, toCheck: seq<nat>, cancelled: nat -> bool)
      returns (r: Result<seq<Row>>)
    requires Indices(toCheck, rows)
    ensures r.Ok? ==> Answers(FileOf(disk), rows, toCheck, r.value)
    ensures r.Ok? ==> forall k :: 0 <= k < |toCheck| ==> disk(rows[toCheck[k]].algo).Some?
    ensures r.Err? ==> (r.error.Cancelled? && exists k :: cancelled(k)) ||
                       (r.error.Io? && exists k :: 0 <= k < |toCheck| && disk(rows[toCheck[k]].algo).None?)
  {
    hide Lower, Trim, Compared, Answer;
    var algos: seq<Algo> := [];
    for n := 0 to |toCheck|
      invariant forall k :: 0 <= k < n ==> rows[toCheck[k]].algo in algos
      invariant forall a :: a in algos ==> exists k :: 0 <= k < |toCheck| && rows[toCheck[k]].algo == a
    {
      var algo := rows[toCheck[n]].algo;
      if algo !in algos {
        algos := algos + [algo];
      }
    }
    var digests: map<Algo, string> := map[];
    for k := 0 to |algos|
      invariant forall j :: 0 <= j < k ==> algos[j] in digests
      invariant forall a :: a in digests ==> disk(a).Some? && digests[a] == FileOf(disk)(a)
    {
      if cancelled(k) {
        return Err(Cancelled);
      }
      var got := disk(algos[k]);
      if got.None? {
        assert algos[k] in algos;
        return Err(Io);
      }
      digests := digests[algos[k] := Lower(got.value)];
    }
    var out: seq<Row> := [];
    ghost var want := TrueAnswers(FileOf(disk), rows, toCheck);
    for n := 0 to |toCheck|
      invariant out == want[..n]
    {
      var row := rows[toCheck[n]];
      assert row.algo in algos;
      var got := if row.algo in digests then digests[row.algo] else "";
      out := out + [Compared(got, toCheck[n], row)];
      assert got == FileOf(disk)(row.algo);
      ComparedIsAnswer(FileOf(disk), rows, toCheck[n], got);
    }
    return Ok(out);
  }

  /** The digest of a row or a verdict has been judged. */
  predicate Judged(judged: seq<Verdict>, row: Checksum) {
    About(judged, row)
  }

  function Unjudged(rows: seq<Checksum>, idx: seq<nat>, judged: seq<Verdict>): seq<nat>
    requires Indices(idx, rows)
  {
    if idx == [] then []
    else
      var i := idx[|idx| - 1];
      Unjudged(rows, idx[..|idx| - 1], judged) + if Judged(judged, rows[i]) then [] else [i]
  }

  lemma {:induction false} UnjudgedAre(rows: seq<Checksum>, idx: seq<nat>, judged: seq<Verdict>, i: nat)
    requires Indices(idx, rows)
    ensures i in Unjudged(rows, idx, judged) <==> i in idx && i < |rows| && !Judged(judged, rows[i])
  {
    if idx != [] {
      assert idx == idx[..|idx| - 1] + [idx[|idx| - 1]];
      UnjudgedAre(rows, idx[..|idx| - 1], judged, i);
    }
  }

  function DigestOf(v: Verdict): (Algo, string) { Digest(v.algo, v.hash) }

  function Digests(vs: seq<Verdict>): set<(Algo, string)> {
    set v | v in vs :: DigestOf(v)
  }

  predicate Names(v: Verdict, row: Checksum) {
    v.algo == row.algo && v.hash == row.hash
  }

  /** Results of rows, named: one true verdict for each row that was checked. */
  lemma {:induction false} VerdictsOfRows(file: File, rows: seq<Checksum>, idx: seq<nat>, results: seq<Row>)
    requires Indices(idx, rows) && Answers(file, rows, idx, results)
    ensures var vs := Verdicts(rows, results);
            |vs| == |idx| && forall k :: 0 <= k < |idx| ==> Names(vs[k], rows[idx[k]]) && IsTrue(file, vs[k])
    decreases |results|
  {
    hide Lower, Trim;
    if results != [] {
      var n := |results| - 1;
      VerdictsOfRows(file, rows, idx[..n], results[..n]);
      var init, vs := Verdicts(rows, results[..n]), Verdicts(rows, results);
      assert results[n] == Answer(file, rows, idx[n]);
      assert vs == init + [Verdict(rows[idx[n]].algo, rows[idx[n]].hash, results[n].1, results[n].2)];
      forall k | 0 <= k < |idx| ensures Names(vs[k], rows[idx[k]]) && IsTrue(file, vs[k]) {
        if k < n { assert vs[k] == init[k] && idx[..n][k] == idx[k]; }
      }
    }
  }

  function FirstMismatch(vs: seq<Verdict>): (r: Option<Verdict>)
    ensures r.Some? ==> exists k :: 0 <= k < |vs| && vs[k] == r.value && r.value.status == Mismatch
                                    && forall j :: 0 <= j < k ==> vs[j].status != Mismatch
    ensures r.None? ==> forall v :: v in vs ==> v.status != Mismatch
  {
    if vs == [] then None
    else if vs[0].status == Mismatch then Some(vs[0])
    else FirstMismatch(vs[1..])
  }

  /** Which rows a list of judged digests leaves open. */
  predicate AllJudged(rows: seq<Checksum>, judged: seq<Verdict>) {
    forall row :: row in rows && Checkable(row) ==> Judged(judged, row)
  }

  function Concat(log: seq<seq<Verdict>>): seq<Verdict> {
    if log == [] then [] else Concat(log[..|log| - 1]) + log[|log| - 1]
  }

  /** Each round judges something, and nothing an earlier round judged. */
  predicate Rounds(log: seq<seq<Verdict>>) {
    (forall a :: 0 <= a < |log| ==> log[a] != []) &&
    forall a, b, v, w :: 0 <= a < b < |log| && v in log[a] && w in log[b] ==> DigestOf(v) != DigestOf(w)
  }

  /** Each round's verdicts are true of the file as that round read it. */
  ghost predicate TrueRounds(disks: nat -> Disk, log: seq<seq<Verdict>>) {
    forall a :: 0 <= a < |log| ==> AllTrue(FileOf(disks(a)), log[a])
  }

  /** `verify_file`. `lists(n)` is the list as it is read the n-th time, `disks(n)` the file as round n hashes it,
      `cancelled(n, k)` whether the run has been cancelled when round n comes to its k-th algorithm, and
      `universe` some finite set the digests of the checkable rows come from. `log` is what each round reported. */
  method Verify(disks: nat -> Disk, lists: nat -> seq<Checksum>, cancelled: (nat, nat) -> bool,
                ghost universe: set<(Algo, string)>)
    returns (r: Result<()>, log: seq<seq<Verdict>>)
    requires forall n, row :: row in lists(n) && Checkable(row) ==> Digest(row.algo, row.hash) in universe
    ensures Rounds(log) && TrueRounds(disks, log)
    ensures r.Ok? ==> AllJudged(lists(|log|), Concat(log)) && AllVerified(Concat(log))
    ensures r.Ok? ==> forall row :: row in lists(|log|) && Checkable(row) ==> VerifiedSomewhere(disks, log, row)
    ensures r.Err? && r.error.ChecksumMismatch? ==> (
              AllJudged(lists(|log|), Concat(log)) &&
              FirstMismatch(Concat(log)).Some? && Reports(disks, log, FirstMismatch(Concat(log)).value, r.error))
    ensures r.Err? && !r.error.ChecksumMismatch? ==>
              (r.error.Cancelled? && exists k :: cancelled(|log|, k)) ||
              (r.error.Io? && exists a :: disks(|log|)(a).None?)
  {
    hide Lower, Trim;
    var judged: seq<Verdict> := [];
    log := [];
    while true
      invariant judged == Concat(log) && Rounds(log) && TrueRounds(disks, log)
      invariant Digests(judged) <= universe
      decreases universe - Digests(judged)
    {
      var checksums := lists(|log|);
      var rows := OpenRows(checksums, judged);
      if rows == [] {
        break;
      }
      var n := |log|;
      var outcome := VerifyRows(disks(n), checksums, rows, (k: nat) => cancelled(n, k));
      if outcome.Err? {
        r := Err(outcome.error);
        return;
      }
      var found := Verdicts(checksums, outcome.value);
      VerdictsOfRows(FileOf(disks(n)), checksums, rows, outcome.value);
      NewRound(log, judged, checksums, rows, found, universe);
      judged := judged + found;
      log := log + [found];
      assert log[..|log| - 1] + [found] == log;
    }
    match FirstMismatch(judged) {
      case Some(v) =>
        r := Err(ChecksumMismatch(Lower(v.hash), if v.computed.Some? then v.computed.value else ""));
        MismatchReported(disks, log, v, r.error);
      case None =>
        RowsVerified(disks, log, lists(|log|));
        r := Ok(());
    }
  }

  predicate AllVerified(vs: seq<Verdict>) {
    forall v :: v in vs ==> v.status == Verified && v.computed == None
  }

  /** Some round judged the row's digest, and the file it hashed had that digest. */
  ghost predicate VerifiedSomewhere(disks: nat -> Disk, log: seq<seq<Verdict>>, row: Checksum) {
    exists a :: 0 <= a < |log| && About(log[a], row) && Matches(FileOf(disks(a)), row.algo, row.hash)
  }

  /** The error names the digest wanted and the one the file had in the round that looked. */
  ghost predicate Reports(disks: nat -> Disk, log: seq<seq<Verdict>>, v: Verdict, e: Error) {
    exists a :: 0 <= a < |log| && v in log[a] && !Matches(FileOf(disks(a)), v.algo, v.hash)
                && e == ChecksumMismatch(Lower(v.hash), FileOf(disks(a))(v.algo))
  }

  lemma {:induction false} InSomeRound(log: seq<seq<Verdict>>, v: Verdict) returns (a: nat)
    requires v in Concat(log)
    ensures a < |log| && v in log[a]
    decreases |log|
  {
    var n := |log| - 1;
    if v in log[n] { a := n; } else { a := InSomeRound(log[..n], v); }
  }

  lemma MismatchReported(disks: nat -> Disk, log: seq<seq<Verdict>>, v: Verdict, e: Error)
    requires TrueRounds(disks, log) && v in Concat(log) && v.status == Mismatch
    requires e == ChecksumMismatch(Lower(v.hash), if v.computed.Some? then v.computed.value else "")
    ensures Reports(disks, log, v, e)
  {
    hide Lower, Trim;
    var a := InSomeRound(log, v);
    assert IsTrue(FileOf(disks(a)), v);
  }

  lemma RowsVerified(disks: nat -> Disk, log: seq<seq<Verdict>>, rows: seq<Checksum>)
    requires TrueRounds(disks, log) && AllJudged(rows, Concat(log))
    requires forall v :: v in Concat(log) ==> v.status != Mismatch
    ensures AllVerified(Concat(log))
    ensures forall row :: row in rows && Checkable(row) ==> VerifiedSomewhere(disks, log, row)
  {
    hide Lower, Trim;
    forall v | v in Concat(log) ensures v.status == Verified && v.computed == None {
      var a := InSomeRound(log, v);
      assert IsTrue(FileOf(disks(a)), v);
    }
    forall row | row in rows && Checkable(row) ensures VerifiedSomewhere(disks, log, row) {
      var v :| v in Concat(log) && SameDigest(row, v.algo, v.hash);
      var a := InSomeRound(log, v);
      assert IsTrue(FileOf(disks(a)), v);
      assert About(log[a], row);
    }
  }

  predicate AllTrue(file: File, vs: seq<Verdict>) {
    forall v :: v in vs ==> IsTrue(file, v)
  }

  predicate AllOpen(rows: seq<Checksum>, idx: seq<nat>, judged: seq<Verdict>) {
    Indices(idx, rows) && forall k :: 0 <= k < |idx| ==> Checkable(rows[idx[k]]) && !Judged(judged, rows[idx[k]])
  }

  /** The checkable rows whose digest has not been judged yet. */
  method OpenRows(rows: seq<Checksum>, judged: seq<Verdict>) returns (idx: seq<nat>)
    ensures AllOpen(rows, idx, judged)
    ensures idx == [] ==> AllJudged(rows, judged)
  {
    var all := RowsToVerify(rows);
    forall k | 0 <= k < |all| ensures all[k] < |rows| && Checkable(rows[all[k]]) {
      assert all[k] in all;
      RowsToVerifyAre(rows, all[k]);
    }
    idx := Unjudged(rows, all, judged);
    forall k | 0 <= k < |idx| ensures idx[k] < |rows| && Checkable(rows[idx[k]]) && !Judged(judged, rows[idx[k]]) {
      assert idx[k] in idx;
      UnjudgedAre(rows, all, judged, idx[k]);
      RowsToVerifyAre(rows, idx[k]);
    }
    if idx == [] { NothingOpen(rows, judged); }
  }

  lemma NothingOpen(rows: seq<Checksum>, judged: seq<Verdict>)
    requires Indices(RowsToVerify(rows), rows) && Unjudged(rows, RowsToVerify(rows), judged) == []
    ensures AllJudged(rows, judged)
  {
    forall row | row in rows && Checkable(row) ensures Judged(judged, row) {
      var i :| 0 <= i < |rows| && rows[i] == row;
      RowsToVerifyAre(rows, i);
      UnjudgedAre(rows, RowsToVerify(rows), judged, i);
    }
  }

  lemma ConcatHas(log: seq<seq<Verdict>>, a: nat, v: Verdict)
    requires a < |log| && v in log[a]
    ensures v in Concat(log)
    decreases |log|
  {
    if a < |log| - 1 { ConcatHas(log[..|log| - 1], a, v); }
  }

  /** A round that checked only open rows brings only new digests, and at least one. */
  lemma NewRound(log: seq<seq<Verdict>>, judged: seq<Verdict>, rows: seq<Checksum>, idx: seq<nat>,
      found: seq<Verdict>, universe: set<(Algo, string)>)
    requires judged == Concat(log) && Rounds(log) && idx != [] && |found| == |idx|
    requires AllOpen(rows, idx, judged) && forall k :: 0 <= k < |idx| ==> Names(found[k], rows[idx[k]])
    requires forall row :: row in rows && Checkable(row) ==> Digest(row.algo, row.hash) in universe
    requires Digests(judged) <= universe
    ensures Rounds(log + [found])
    ensures Digests(judged + found) <= universe && Digests(judged) < Digests(judged + found)
  {
    hide Lower, Trim;
    forall v, w | v in found && w in judged ensures DigestOf(v) != DigestOf(w) && DigestOf(v) in universe {
      var k :| 0 <= k < |found| && found[k] == v;
      assert !SameDigest(rows[idx[k]], w.algo, w.hash);
    }
    forall v | v in found ensures DigestOf(v) in universe {
      var k :| 0 <= k < |found| && found[k] == v;
      assert rows[idx[k]] in rows;
    }
    var longer := log + [found];
    forall a, b, v, w | 0 <= a < b < |longer| && v in longer[a] && w in longer[b] ensures DigestOf(v) != DigestOf(w) {
      if b == |log| { ConcatHas(log, a, v); }
    }
    assert DigestOf(found[0]) in Digests(judged + found) by { assert found[0] in judged + found; }
    assert DigestOf(found[0]) !in Digests(judged) by { assert found[0] in found; }
  }

  /** Recording what a successful run reported on the list it last read marks every checkable row verified. */
  lemma SuccessMarksEveryRow(rows: seq<Checksum>, vs: seq<Verdict>, row: Checksum)
    requires AllVerified(vs) && AllJudged(rows, vs) && row in rows && Checkable(row)
    ensures RecordedAll(row, vs).status == Verified && RecordedAll(row, vs).expected == None
  {
    RecordsVerified(row, vs);
  }

  lemma {:induction false} RecordsVerified(row: Checksum, vs: seq<Verdict>)
    requires AllVerified(vs)
    ensures RecordedAll(row, vs) == if About(vs, row) then row.(status := Verified, expected := None) else row
    decreases |vs|
  {
    hide Lower, Trim;
    if vs != [] {
      var init, v := vs[..|vs| - 1], vs[|vs| - 1];
      assert vs == init + [v];
      RecordsVerified(row, init);
      assert v in vs;
      assert About(vs, row) <==> About(init, row) || SameDigest(row, v.algo, v.hash);
    }
  }
}
