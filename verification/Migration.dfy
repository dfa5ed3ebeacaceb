/** The schema ladder of the store: one rung a transaction, and a process that may die between any two. */
module Migration {
  import opened Text

  // ---------------------------------------------------------------------------
  // The database, as far as the ladder sees it

  /** The row of `schema_version`, and the columns of `jobs` if that table exists. */
  datatype Db = Db(version: Option<int>, jobs: Option<set<string>>)

  datatype Stmt = AddColumn(column: string, decl: string)

  /** The columns CREATE TABLE lists, the version this build writes, what each rung adds, and how the column of
      a statement is read off it. */
  datatype Schema = Schema(table: set<string>, current: nat, rung: int -> seq<Stmt>, scan: Stmt -> Option<string>)

  predicate HasRung(h: Schema, v: int) {
    2 <= v <= h.current
  }

  function Names(stmts: seq<Stmt>): set<string> {
    if stmts == [] then {} else {stmts[0].column} + Names(stmts[1..])
  }

  /** Every column the ladder has added by version `v`. */
  function ColumnsUpTo(h: Schema, v: nat): set<string> {
    if v == 0 then {} else ColumnsUpTo(h, v - 1) + Names(h.rung(v))
  }

  // ---------------------------------------------------------------------------
  // One rung

  function SqlText(s: Stmt): string {
    "ALTER TABLE jobs ADD COLUMN " + s.column + " " + s.decl
  }

  function FirstWord(s: string): Option<string> {
    var t := TrimStart(s);
    if t == "" then None else Some(Word(t))
  }

  function Word(s: string): string {
    if s == "" || IsWhite(s[0]) then "" else [s[0]] + Word(s[1..])
  }

  /** `added_column`: the word after `add column`, whatever its case. */
  function AddedColumn(stmt: string): Option<string> {
    match Find(Lower(stmt), "add column")
    case None => None
    case Some(i) => FirstWord(stmt[i + 10..])
  }

  predicate IsName(c: string) {
    c != "" && forall i :: 0 <= i < |c| ==> !IsWhite(c[i])
  }

  lemma {:induction false} WordStops(a: string, b: string)
    requires forall i :: 0 <= i < |a| ==> !IsWhite(a[i])
    ensures Word(a + " " + b) == a
    decreases |a|
  {
    if a == "" {
      assert ("" + " " + b)[0] == ' ';
    } else {
      assert (a + " " + b)[1..] == a[1..] + " " + b;
      WordStops(a[1..], b);
    }
  }

  /** The scan finds the column of any statement of this shape, whatever the column is called. */
  lemma AddedColumnReadsBack(s: Stmt)
    requires IsName(s.column)
    ensures AddedColumn(SqlText(s)) == Some(s.column)
  {
    var rest := " " + s.column + " " + s.decl;
    var text := "ALTER TABLE jobs ADD COLUMN" + rest;
    assert SqlText(s) == text;
    AddColumnIsFirst(text);
    assert text[27..] == rest;
    FirstWordOf(s.column, s.decl);
  }

  lemma FirstWordOf(name: string, decl: string)
    requires IsName(name)
    ensures FirstWord(" " + name + " " + decl) == Some(name)
  {
    var rest, t := " " + name + " " + decl, name + " " + decl;
    assert rest[0] == ' ' && rest[1..] == t && t[0] == name[0];
    assert TrimStart(t) == t;
    assert TrimStart(rest) == t;
    WordStops(name, decl);
  }

  lemma AddColumnIsFirst(text: string)
    requires |text| >= 27 && text[..27] == "ALTER TABLE jobs ADD COLUMN"
    ensures Find(Lower(text), "add column") == Some(17)
  {
    hide Lower, OccursAt, Contains;
    var l := Lower(text);
    LoweredHead(text);
    HeadHasAdd(l);
    forall i | 0 <= i < 17 ensures !OccursAt(l, "add column", i) {
      if OccursAt(l, "add column", i) {
        OccursChar(l, "add column", i, 0);
        OccursChar(l, "add column", i, 1);
        NoEarlierAdd(i);
      }
    }
  }

  const HEAD := "alter table jobs add column"

  lemma LoweredHead(text: string)
    requires |text| >= 27 && text[..27] == "ALTER TABLE jobs ADD COLUMN"
    ensures |Lower(text)| >= 27 && forall i :: 0 <= i < 27 ==> Lower(text)[i] == HEAD[i]
  {
    hide Lower;
    forall i | 0 <= i < 27 ensures Lower(text)[i] == HEAD[i] { assert text[i] == text[..27][i]; }
  }

  lemma HeadHasAdd(l: string)
    requires |l| >= 27 && forall i :: 0 <= i < 27 ==> l[i] == HEAD[i]
    ensures OccursAt(l, "add column", 17) && Contains(l, "add column")
  {
    assert l[17..27] == "add column";
    assert OccursAt(l, "add column", 17);
  }

  lemma NoEarlierAdd(i: nat)
    requires i < 17
    ensures !(HEAD[i] == 'a' && HEAD[i + 1] == 'd')
  {
  }

  /** The statements of one rung against the columns: a column that is there is skipped, and adding one
      that is there anyway would be an error. */
  function Applied(h: Schema, cols: set<string>, stmts: seq<Stmt>): Option<set<string>>
    decreases |stmts|
  {
    if stmts == [] then Some(cols)
    else
      var c := h.scan(stmts[0]);
      if c.Some? && c.value in cols then Applied(h, cols, stmts[1..])
      else if stmts[0].column in cols then None
      else Applied(h, cols + {stmts[0].column}, stmts[1..])
  }

  datatype Outcome =
    | Done(db: Db)
    | Crashed(db: Db)   // the process died; this is what is on disk
    | Corrupt(db: Db)   // refused
    | SqlError(db: Db)  // duplicate column

  /** The loop, with `budget` commits before the process dies. */
  function Climb(h: Schema, db: Db, n: int, budget: nat): Outcome
    decreases h.current - n
  {
    if n >= h.current then Done(db)
    else if !HasRung(h, n + 1) || db.jobs.None? then Corrupt(db)
    else if budget == 0 then Crashed(db)
    else match Applied(h, db.jobs.value, h.rung(n + 1))
      case None => SqlError(db)
      case Some(cols) => Climb(h, Db(Some(n + 1), Some(cols)), n + 1, budget - 1)
  }

  function Created(h: Schema, db: Db): Db {
    if db.jobs.None? then db.(jobs := Some(h.table)) else db
  }

  /** `migrate`, on whatever is on disk. */
  function Opened(h: Schema, db: Db, budget: nat): Outcome {
    var created := Created(h, db);
    var left := if db.jobs.None? && budget > 0 then budget - 1 else budget;
    if db.jobs.None? && budget == 0 then Crashed(db)
    else match db.version
      case None => if left == 0 then Crashed(created) else Done(created.(version := Some(h.current)))
      case Some(v) => if v > h.current then Corrupt(created) else Climb(h, created, v, left)
  }

  class Store {
    var version: Option<int>
    var jobs: Option<set<string>>

    ghost function View(): Db
      reads this
    {
      Db(version, jobs)
    }

    constructor (db: Db)
      ensures View() == db
    {
      version, jobs := db.version, db.jobs;
    }

    /** `apply_migration`: the statements and the version in one transaction. */
    method ApplyMigration(h: Schema, next: int, ddl: seq<Stmt>) returns (ok: bool)
      requires jobs.Some?
      modifies this
      ensures ok <==> Applied(h, old(jobs).value, ddl).Some?
      ensures View() == if ok then Db(Some(next), Applied(h, old(jobs).value, ddl)) else old(View())
    {
      var cols := jobs.value;
      for i := 0 to |ddl|
        invariant Applied(h, cols, ddl[i..]) == Applied(h, old(jobs).value, ddl)
      {
        assert ddl[i..][0] == ddl[i] && ddl[i..][1..] == ddl[i + 1..];
        var column := h.scan(ddl[i]);
        if column.Some? && column.value in cols {
          continue;
        }
        if ddl[i].column in cols {
          return false;
        }
        cols := cols + {ddl[i].column};
      }
      jobs, version := Some(cols), Some(next);
      return true;
    }

    /** `migrate`; `budget` is how many commits the process lives to make. */
    method Migrate(h: Schema, budget: nat) returns (outcome: Outcome)
      modifies this
      ensures outcome == Opened(h, old(View()), budget) && View() == outcome.db
    {
      var left := budget;
      if jobs.None? {
        if left == 0 { return Crashed(OnDisk()); }
        jobs, left := Some(h.table), left - 1;
      }
      if version.None? {
        if left == 0 { return Crashed(OnDisk()); }
        version := Some(h.current);
        return Done(OnDisk());
      }
      var n := version.value;
      if n > h.current { return Corrupt(OnDisk()); }
      while n < h.current
        invariant n <= h.current && jobs.Some?
        invariant Climb(h, View(), n, left) == Opened(h, old(View()), budget)
      {
        if !HasRung(h, n + 1) { return Corrupt(OnDisk()); }
        if left == 0 { return Crashed(OnDisk()); }
        var ok := ApplyMigration(h, n + 1, h.rung(n + 1));
        if !ok { return SqlError(OnDisk()); }
        n, left := n + 1, left - 1;
      }
      return Done(OnDisk());
    }

    function OnDisk(): Db
      reads this
    {
      Db(version, jobs)
    }
  }

  // ---------------------------------------------------------------------------
  // What survives every crash

  /** The scan reads every statement of the ladder rightly, and a new table has every column of the ladder. */
  ghost predicate IsSchema(h: Schema) {
    (forall v, s :: s in h.rung(v) ==> h.scan(s) == Some(s.column)) && ColumnsUpTo(h, h.current) <= h.table
  }

  /** A rung never adds a column that is there, from any set of columns; it ends with all of its own. */
  lemma {:induction false} AppliedAddsMissing(h: Schema, cols: set<string>, stmts: seq<Stmt>)
    requires forall s :: s in stmts ==> h.scan(s) == Some(s.column)
    ensures Applied(h, cols, stmts) == Some(cols + Names(stmts))
    decreases |stmts|
  {
    if stmts == [] {
      assert cols + {} == cols;
    } else {
      var cols' := if stmts[0].column in cols then cols else cols + {stmts[0].column};
      AppliedAddsMissing(h, cols', stmts[1..]);
      assert cols' + Names(stmts[1..]) == cols + Names(stmts);
    }
  }

  /** A recorded version vouches for its columns; a database without one is empty or freshly created. */
  predicate Sound(h: Schema, db: Db) {
    match db.version
    case None => db.jobs.None? || h.table <= db.jobs.value
    case Some(v) => db.jobs.Some? && (1 <= v <= h.current ==> ColumnsUpTo(h, v) <= db.jobs.value)
  }

  /** At the current version, with every column of the ladder and those of `cols`. */
  predicate Complete(h: Schema, cols: set<string>, db: Db) {
    db.version == Some(h.current) && db.jobs.Some? && cols + ColumnsUpTo(h, h.current) <= db.jobs.value
  }

  /** One rung up. */
  function Next(h: Schema, db: Db, n: int): Db
    requires db.jobs.Some?
  {
    Db(Some(n + 1), Some(db.jobs.value + Names(h.rung(n + 1))))
  }

  /** The climb when no statement can fail. */
  function Ascent(h: Schema, db: Db, n: int, budget: nat): Outcome
    requires db.jobs.Some?
    decreases h.current - n
  {
    if n >= h.current then Done(db)
    else if !HasRung(h, n + 1) then Corrupt(db)
    else if budget == 0 then Crashed(db)
    else Ascent(h, Next(h, db, n), n + 1, budget - 1)
  }

  lemma ClimbStep(h: Schema, db: Db, n: int, budget: nat)
    requires IsSchema(h) && db.jobs.Some? && n < h.current && HasRung(h, n + 1) && budget > 0
    ensures Climb(h, db, n, budget) == Climb(h, Next(h, db, n), n + 1, budget - 1)
  {
    AppliedAddsMissing(h, db.jobs.value, h.rung(n + 1));
  }

  lemma ClimbStops(h: Schema, db: Db, n: int, budget: nat)
    requires db.jobs.Some? && (n >= h.current || !HasRung(h, n + 1) || budget == 0)
    ensures Climb(h, db, n, budget) == Ascent(h, db, n, budget)
  {
  }

  lemma {:induction false} ClimbIsAscent(h: Schema, db: Db, n: int, budget: nat)
    requires IsSchema(h) && db.jobs.Some?
    ensures Climb(h, db, n, budget) == Ascent(h, db, n, budget)
    decreases h.current - n
  {
    if n >= h.current || !HasRung(h, n + 1) || budget == 0 {
      ClimbStops(h, db, n, budget);
    } else {
      ClimbStep(h, db, n, budget);
      ClimbIsAscent(h, Next(h, db, n), n + 1, budget - 1);
      assert Ascent(h, db, n, budget) == Ascent(h, Next(h, db, n), n + 1, budget - 1);
    }
  }

  lemma NextKeeps(h: Schema, db: Db, n: int)
    requires db.version == Some(n) && db.jobs.Some? && 1 <= n < h.current
    ensures var next := Next(h, db, n);
            db.jobs.value <= next.jobs.value && (Sound(h, db) ==> Sound(h, next))
  {
    assert ColumnsUpTo(h, n + 1) == ColumnsUpTo(h, n) + Names(h.rung(n + 1));
  }

  lemma {:induction false} AscentKeeps(h: Schema, db: Db, n: int, budget: nat)
    requires db.version == Some(n) && db.jobs.Some? && n <= h.current
    ensures var r := Ascent(h, db, n, budget);
            && !r.SqlError?
            && r.db.jobs.Some? && r.db.version.Some? && n <= r.db.version.value <= h.current
            && db.jobs.value <= r.db.jobs.value
            && (Sound(h, db) ==> Sound(h, r.db))
            && (1 <= n ==> !r.Corrupt?)
            && (1 <= n && budget >= h.current - n ==> r.Done? && r.db.version == Some(h.current))
            && (1 <= n && budget < h.current - n ==> r.Crashed? && r.db.version == Some(n + budget))
    decreases h.current - n
  {
    if n < h.current && HasRung(h, n + 1) && budget > 0 {
      NextKeeps(h, db, n);
      AscentKeeps(h, Next(h, db, n), n + 1, budget - 1);
    }
  }

  lemma ClimbKeeps(h: Schema, db: Db, n: int, budget: nat)
    requires IsSchema(h) && db.version == Some(n) && db.jobs.Some? && n <= h.current
    ensures var r := Climb(h, db, n, budget);
            && !r.SqlError?
            && r.db.jobs.Some? && r.db.version.Some? && n <= r.db.version.value <= h.current
            && (Sound(h, db) ==> Sound(h, r.db))
            && (1 <= n ==> !r.Corrupt?)
            && (1 <= n && budget >= h.current - n && Sound(h, db) ==> r.Done? && Complete(h, db.jobs.value, r.db))
            && (1 <= n && budget < h.current - n ==> r.Crashed? && r.db.version == Some(n + budget))
  {
    ClimbIsAscent(h, db, n, budget);
    AscentKeeps(h, db, n, budget);
  }

  /** Opening a database, however far the process gets, keeps the version's word and never trips over a
      column that is already there. */
  lemma OpenKeepsSound(h: Schema, db: Db, budget: nat)
    requires IsSchema(h)
    ensures Sound(h, db) ==> Sound(h, Opened(h, db, budget).db)
    ensures !Opened(h, db, budget).SqlError?
  {
    if db.version.Some? && db.version.value <= h.current {
      if db.jobs.Some? { ClimbKeeps(h, db, db.version.value, budget); }
      else if budget > 0 { ClimbKeeps(h, Created(h, db), db.version.value, budget - 1); }
    }
  }

  /** One start of the program after another, each dying after so many commits. */
  function Restarts(h: Schema, db: Db, budgets: seq<nat>): Db
    decreases |budgets|
  {
    if budgets == [] then db else Restarts(h, Opened(h, db, budgets[0]).db, budgets[1..])
  }

  /** A database an earlier start may have left: recorded versions are in the ladder's range. */
  predicate Known(h: Schema, db: Db) {
    Sound(h, db) && (db.version.Some? ==> 1 <= db.version.value <= h.current)
  }

  lemma OpenKeepsKnown(h: Schema, db: Db, budget: nat)
    requires IsSchema(h) && h.current >= 1 && Known(h, db)
    ensures Known(h, Opened(h, db, budget).db)
    ensures budget > h.current ==> Opened(h, db, budget).Done? && Complete(h, {}, Opened(h, db, budget).db)
  {
    OpenKeepsSound(h, db, budget);
    if db.version.Some? {
      ClimbKeeps(h, db, db.version.value, budget);
    }
  }

  /** The commits a start has to get through: one for each missing rung, or for the job table and the stamp. */
  function CommitsNeeded(h: Schema, db: Db): int {
    match db.version
    case Some(v) => h.current - v
    case None => if db.jobs.None? then 2 else 1
  }

  /** A start is done exactly when it lives through all of them, and one that dies earlier has climbed a rung
      with each. */
  lemma StartsExactly(h: Schema, db: Db, budget: nat)
    requires IsSchema(h) && h.current >= 1 && Known(h, db)
    ensures var r := Opened(h, db, budget);
            if budget >= CommitsNeeded(h, db) then r.Done? && r.db.version == Some(h.current)
            else r.Crashed? && (budget == 0 ==> r.db == db) &&
                 r.db.version == if db.version.Some? then Some(db.version.value + budget) else None
  {
    if db.version.Some? {
      ClimbKeeps(h, db, db.version.value, budget);
    }
  }

  lemma {:induction false} RestartsKeepKnown(h: Schema, db: Db, budgets: seq<nat>)
    requires IsSchema(h) && h.current >= 1 && Known(h, db)
    ensures Known(h, Restarts(h, db, budgets))
    decreases |budgets|
  {
    if budgets != [] {
      OpenKeepsKnown(h, db, budgets[0]);
      RestartsKeepKnown(h, Opened(h, db, budgets[0]).db, budgets[1..]);
    }
  }

  /** However often the program died on the way, the recorded version vouches for its columns, and the first
      start that is left alone ends at the current version with every column. */
  lemma LadderSurvivesCrashes(h: Schema, db: Db, budgets: seq<nat>, last: nat)
    requires IsSchema(h) && h.current >= 1 && Known(h, db) && last > h.current
    ensures var on := Restarts(h, db, budgets);
            Sound(h, on) && Opened(h, on, last).Done? && Complete(h, {}, Opened(h, on, last).db)
  {
    RestartsKeepKnown(h, db, budgets);
    OpenKeepsKnown(h, Restarts(h, db, budgets), last);
  }

  /** A database stranded with columns ahead of its version, any columns at all, is brought up to date and
      keeps what it had. */
  lemma StrandedIsRecovered(h: Schema, v: int, cols: set<string>, budget: nat)
    requires IsSchema(h) && 1 <= v <= h.current && ColumnsUpTo(h, v) <= cols && budget >= h.current
    ensures var r := Opened(h, Db(Some(v), Some(cols)), budget); r.Done? && Complete(h, cols, r.db)
  {
    ClimbKeeps(h, Db(Some(v), Some(cols)), v, budget);
  }

  /** A version the ladder does not know, newer or older, is refused: the version and the columns stay as they
      were, and all that can happen before is that a missing job table is created. */
  lemma UnknownIsRefused(h: Schema, v: int, jobs: Option<set<string>>, budget: nat)
    requires IsSchema(h) && h.current >= 1 && (jobs.None? ==> budget > 0)
    ensures var db := Db(Some(v), jobs);
            && (v > h.current || v < 1 <==> Opened(h, db, budget).Corrupt?)
            && (Opened(h, db, budget).Corrupt? ==> Opened(h, db, budget) == Corrupt(Created(h, db)))
  {
    var db := Db(Some(v), jobs);
    var left := if jobs.None? then budget - 1 else budget;
    if 1 <= v <= h.current { ClimbKeeps(h, Created(h, db), v, left); }
  }

  /** A database without a recorded version is stamped with the current one and not climbed. That is right
      exactly when its job table is missing or already complete. */
  lemma UnstampedIsTrusted(h: Schema, jobs: Option<set<string>>, budget: nat)
    requires IsSchema(h) && budget >= 2
    ensures var r := Opened(h, Db(None, jobs), budget);
            && r.Done? && r.db.version == Some(h.current)
            && (Complete(h, {}, r.db) <==> jobs.None? || ColumnsUpTo(h, h.current) <= jobs.value)
  {
  }

  // ---------------------------------------------------------------------------
  // The ladder of the store

  function Rung(v: int): seq<Stmt> {
    match v
    case 2 => [AddColumn("advanced_json", "TEXT NOT NULL DEFAULT '{}'"),
        AddColumn("checksums_json", "TEXT NOT NULL DEFAULT '[]'")]
    case 3 => [AddColumn("started_at", "TEXT"), AddColumn("finished_at", "TEXT"),
        AddColumn("retries", "INTEGER NOT NULL DEFAULT 0")]
    case 4 => [AddColumn("response_headers_json", "TEXT NOT NULL DEFAULT 'null'")]
    case 5 => [AddColumn("error_json", "TEXT NOT NULL DEFAULT 'null'")]
    case 6 => [AddColumn("interruptions", "INTEGER NOT NULL DEFAULT 0")]
    case 7 => [AddColumn("verify_pending", "INTEGER NOT NULL DEFAULT 0")]
    case 8 => [AddColumn("active_ms", "INTEGER")]
    case 9 => [AddColumn("work_root", "TEXT")]
    case _ => []
  }

  /** The columns of CREATE TABLE, in its order. */
  function TableColumns(): set<string> {
    {"id", "url", "save_dir", "filename", "referrer", "headers_json", "max_connections", "speed_limit_override",
     "queue_id", "queue_position", "phase", "downloaded", "total", "final_path", "proxy", "auth_user",
     "auth_password_enc", "proxy_password_enc", "cookies_enc", "created_at", "advanced_json", "checksums_json",
     "category", "started_at", "finished_at", "retries", "interruptions", "verify_pending", "active_ms",
     "work_root", "response_headers_json", "error_json"}
  }

  function JobsSchema(): Schema {
    Schema(TableColumns(), 9, Rung, s => AddedColumn(SqlText(s)))
  }

  /** The store's own ladder is one of these: its statements are read rightly, and the table a new database gets
      lists every column the ladder adds. */
  lemma JobsSchemaIsSchema()
    ensures IsSchema(JobsSchema()) && JobsSchema().current == 9
  {
    hide AddedColumn, SqlText, TableColumns;
    var h := JobsSchema();
    forall v, s | s in h.rung(v) ensures h.scan(s) == Some(s.column) {
      RungHasNames(v, s);
      AddedColumnReadsBack(s);
    }
    TableHasLadder(9);
  }

  lemma {:induction false} TableHasLadder(v: nat)
    requires v <= 9
    ensures ColumnsUpTo(JobsSchema(), v) <= TableColumns()
  {
    hide TableColumns;
    if v > 0 {
      TableHasLadder(v - 1);
      TableHasRung(v);
    }
  }

  lemma TableHasRung(v: int)
    ensures Names(Rung(v)) <= TableColumns()
  {
    forall c | c in Names(Rung(v)) ensures c in TableColumns() {
      var s := NamedBy(Rung(v), c);
      RungInTable(v, s);
    }
  }

  lemma {:induction false} NamedBy(stmts: seq<Stmt>, c: string) returns (s: Stmt)
    requires c in Names(stmts)
    ensures s in stmts && s.column == c
    decreases |stmts|
  {
    if stmts[0].column == c { s := stmts[0]; } else { s := NamedBy(stmts[1..], c); }
  }

  lemma RungInTable(v: int, s: Stmt)
    requires s in Rung(v)
    ensures s.column in TableColumns()
  {
    RungColumns(v, s);
  }

  lemma RungColumns(v: int, s: Stmt)
    requires s in Rung(v)
    ensures var c := s.column;
            || c == "advanced_json" || c == "checksums_json" || c == "started_at" || c == "finished_at"
            || c == "retries" || c == "response_headers_json" || c == "error_json" || c == "interruptions"
            || c == "verify_pending" || c == "active_ms" || c == "work_root"
  {
  }

  lemma RungHasNames(v: int, s: Stmt)
    requires s in Rung(v)
    ensures IsName(s.column)
  {
    RungColumns(v, s);
    EarlyNames();
    LateNames();
  }

  lemma EarlyNames()
    ensures IsName("advanced_json") && IsName("checksums_json")
    ensures IsName("started_at") && IsName("finished_at") && IsName("retries")
  {
  }

  lemma LateNames()
    ensures IsName("response_headers_json") && IsName("error_json") && IsName("interruptions")
    ensures IsName("verify_pending") && IsName("active_ms") && IsName("work_root")
  {
  }

  /** A job table from before the last rung, in a database that lost its version: it is stamped 9 and stays
      without `work_root`. */
  lemma UnstampedExample()
    ensures var r := Opened(JobsSchema(), Db(None, Some(TableColumns() - {"work_root"})), 2);
            r.Done? && r.db.version == Some(9) && !Complete(JobsSchema(), {}, r.db)
  {
    hide TableColumns, Complete;
    var h := JobsSchema();
    JobsSchemaIsSchema();
    UnstampedIsTrusted(h, Some(TableColumns() - {"work_root"}), 2);
    LastRungAdds();
    assert ColumnsUpTo(h, 9) == ColumnsUpTo(h, 8) + Names(h.rung(9));
  }

  lemma LastRungAdds()
    ensures "work_root" in Names(Rung(9))
  {
  }

  // ---------------------------------------------------------------------------
  // An upgraded table is a new one

  /** The columns the job table had in the first release. */
  function FirstColumns(): set<string> {
    {"id", "url", "save_dir", "filename", "referrer", "headers_json", "max_connections", "speed_limit_override",
     "queue_id", "queue_position", "phase", "downloaded", "total", "final_path", "proxy", "auth_user",
     "auth_password_enc", "proxy_password_enc", "cookies_enc", "created_at", "category"}
  }

  /** The release that brought a column of the table. */
  function Since(c: string): nat {
    if c == "advanced_json" || c == "checksums_json" then 2
    else if c == "started_at" || c == "finished_at" || c == "retries" then 3
    else if c == "response_headers_json" then 4
    else if c == "error_json" then 5
    else if c == "interruptions" then 6
    else if c == "verify_pending" then 7
    else if c == "active_ms" then 8
    else if c == "work_root" then 9
    else 1
  }

  /** The job table as release `v` left it. */
  function ReleaseColumns(v: nat): set<string> {
    FirstColumns() + ColumnsUpTo(JobsSchema(), v)
  }

  lemma RungSince(v: nat, c: string)
    requires v <= 9
    ensures c in Names(Rung(v)) <==> v >= 2 && Since(c) == v
  {
    if v == 2 {
      assert Rung(2)[1..] == [Rung(2)[1]] && Rung(2)[1..][1..] == [];
    } else if v == 3 {
      assert Rung(3)[1..] == [Rung(3)[1], Rung(3)[2]] && Rung(3)[1..][1..] == [Rung(3)[2]];
      assert [Rung(3)[2]][1..] == [];
    } else if v >= 4 {
      assert Rung(v)[1..] == [];
    }
  }

  lemma {:induction false} LadderSince(v: nat, c: string)
    requires v <= 9
    ensures c in ColumnsUpTo(JobsSchema(), v) <==> 2 <= Since(c) <= v
  {
    hide Since, Rung, Names;
    if v == 0 {
    } else {
      RungSince(v, c);
      LadderSince(v - 1, c);
    }
  }

  lemma TableSince(c: string)
    ensures c in FirstColumns() ==> Since(c) == 1 && c in TableColumns()
    ensures Since(c) > 1 ==> c in TableColumns()
    ensures c in TableColumns() && Since(c) == 1 ==> c in FirstColumns()
  {
  }

  /** Each release had exactly the columns of today's table that had been brought by then. */
  lemma ReleasesExactly(v: nat, c: string)
    requires 1 <= v <= 9
    ensures c in ReleaseColumns(v) <==> c in TableColumns() && Since(c) <= v
  {
    hide Since, TableColumns, FirstColumns, ColumnsUpTo;
    LadderSince(v, c);
    TableSince(c);
    SinceIsPositive(c);
  }

  lemma SinceIsPositive(c: string)
    ensures Since(c) >= 1
  {
  }

  lemma {:induction false} AscentExactly(h: Schema, db: Db, n: int, budget: nat)
    requires db.version == Some(n) && db.jobs.Some? && 1 <= n <= h.current && budget >= h.current - n
    requires ColumnsUpTo(h, n) <= db.jobs.value
    ensures Ascent(h, db, n, budget) == Done(Db(Some(h.current), Some(db.jobs.value + ColumnsUpTo(h, h.current))))
    decreases h.current - n
  {
    if n == h.current {
      assert db.jobs.value + ColumnsUpTo(h, n) == db.jobs.value;
    } else {
      var next := Next(h, db, n);
      assert ColumnsUpTo(h, n + 1) == ColumnsUpTo(h, n) + Names(h.rung(n + 1));
      AscentExactly(h, next, n + 1, budget - 1);
      UpToGrows(h, n + 1, h.current);
      assert next.jobs.value + ColumnsUpTo(h, h.current) == db.jobs.value + ColumnsUpTo(h, h.current);
    }
  }

  lemma {:induction false} UpToGrows(h: Schema, v: nat, w: nat)
    requires v <= w
    ensures ColumnsUpTo(h, v) <= ColumnsUpTo(h, w)
    ensures v > 0 ==> Names(h.rung(v)) <= ColumnsUpTo(h, w)
    decreases w
  {
    if v < w { UpToGrows(h, v, w - 1); }
  }

  /** A database of any release, opened once and left alone, ends with exactly the columns of a new one. */
  lemma UpgradedIsNew(v: nat)
    requires 1 <= v <= 9
    ensures Opened(JobsSchema(), Db(Some(v), Some(ReleaseColumns(v))), 9) == Done(Db(Some(9), Some(TableColumns())))
  {
    hide TableColumns, FirstColumns, ReleaseColumns, Since, Rung, ColumnsUpTo;
    var h, db := JobsSchema(), Db(Some(v), Some(ReleaseColumns(v)));
    JobsSchemaIsSchema();
    ClimbIsAscent(h, db, v, 9);
    ReleaseHolds(v);
    AscentExactly(h, db, v, 9);
    forall c ensures c in ReleaseColumns(v) + ColumnsUpTo(h, 9) <==> c in TableColumns() {
      ReleasesExactly(v, c);
      ReleasesExactly(9, c);
      ReleaseHolds(9);
      SinceIsBounded(c);
    }
    assert ReleaseColumns(v) + ColumnsUpTo(h, 9) == TableColumns();
  }

  /** What CREATE TABLE says of a column that a later release brought. */
  function Declared(c: string): string {
    if c == "advanced_json" then "TEXT NOT NULL DEFAULT '{}'"
    else if c == "checksums_json" then "TEXT NOT NULL DEFAULT '[]'"
    else if c == "response_headers_json" || c == "error_json" then "TEXT NOT NULL DEFAULT 'null'"
    else if c == "retries" || c == "interruptions" || c == "verify_pending" then "INTEGER NOT NULL DEFAULT 0"
    else if c == "active_ms" then "INTEGER"
    else "TEXT"
  }

  /** And the ladder declares each of its columns the same way. */
  lemma LadderDeclares(v: int, s: Stmt)
    requires s in Rung(v)
    ensures s.decl == Declared(s.column)
  {
    if v <= 3 { EarlyDeclares(v, s); }
  }

  lemma EarlyDeclares(v: int, s: Stmt)
    requires s in Rung(v) && v <= 3
    ensures s.decl == Declared(s.column)
  {
    if v == 2 {
      assert s == Rung(2)[0] || s == Rung(2)[1];
    } else {
      assert s == Rung(3)[0] || s == Rung(3)[1] || s == Rung(3)[2];
    }
  }

  lemma ReleaseHolds(v: nat)
    ensures ColumnsUpTo(JobsSchema(), v) <= ReleaseColumns(v)
    ensures ReleaseColumns(v) == FirstColumns() + ColumnsUpTo(JobsSchema(), v)
  {
  }

  lemma SinceIsBounded(c: string)
    ensures 1 <= Since(c) <= 9
  {
  }
}
