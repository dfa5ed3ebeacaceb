/** The run order of downloads: rows keyed by (position, creation time) in the job table, and the plain
    list they stand for. */
module JobOrder {
  import opened Text

  datatype Row = Row(position: int, created: int)

  /** The job table as far as order goes, by job id. */
  type Table = map<nat, Row>

  /** ORDER BY queue_position, created_at. */
  predicate Before(a: Row, b: Row) {
    a.position < b.position || (a.position == b.position && a.created < b.created)
  }

  /** `l` is a list of the table's jobs in that order; rows that tie may come either way round. */
  ghost predicate Listing(t: Table, l: seq<nat>) {
    && Distinct(l)
    && (forall id :: id in l <==> id in t)
    && forall i, j :: 0 <= i < j < |l| ==> !Before(t[l[j]], t[l[i]])
  }

  /** COALESCE(MAX(queue_position), 0). */
  ghost predicate IsTop(t: Table, m: int) {
    if t == map[] then m == 0
    else (forall id :: id in t ==> t[id].position <= m) && exists id :: id in t && t[id].position == m
  }

  // ---------------------------------------------------------------------------
  // The statements

  function Raised(t: Table, id: nat, position: int): Table {
    if id in t then t[id := t[id].(position := position)] else t
  }

  function Ordered(t: Table, base: int, ids: seq<nat>): Table {
    if ids == [] then t
    else Raised(Ordered(t, base, ids[..|ids| - 1]), ids[|ids| - 1], base + |ids|)
  }

  /** An existing row keeps its position and creation time; a new one starts at position 0. */
  function Upserted(t: Table, id: nat, created: int): Table {
    if id in t then t else t[id := Row(0, created)]
  }

  method MaxPosition(t: Table) returns (m: int)
    ensures IsTop(t, m)
  {
    m := 0;
    var todo := t.Keys;
    var first := true;
    while todo != {}
      invariant todo <= t.Keys && (first <==> todo == t.Keys || t == map[])
      invariant first ==> m == 0
      invariant !first ==> forall id :: id in t && id !in todo ==> t[id].position <= m
      invariant !first ==> exists id :: id in t && t[id].position == m
      decreases todo
    {
      var id :| id in todo;
      if first || t[id].position > m { m := t[id].position; }
      todo, first := todo - {id}, false;
    }
  }

  class JobTable {
    var jobs: Table

    constructor ()
      ensures jobs == map[]
    {
      jobs := map[];
    }

    method MoveJobToEnd(id: nat)
      modifies this
      ensures exists m :: IsTop(old(jobs), m) && jobs == Raised(old(jobs), id, m + 1)
    {
      var m := MaxPosition(jobs);
      if id in jobs { jobs := jobs[id := jobs[id].(position := m + 1)]; }
    }

    method SetQueueOrder(ids: seq<nat>)
      modifies this
      ensures exists m :: IsTop(old(jobs), m) && jobs == Ordered(old(jobs), m, ids)
    {
      var base := MaxPosition(jobs);
      for i := 0 to |ids|
        invariant jobs == Ordered(old(jobs), base, ids[..i])
      {
        assert ids[..i + 1][..i] == ids[..i];
        if ids[i] in jobs { jobs := jobs[ids[i] := jobs[ids[i]].(position := base + 1 + i)]; }
      }
      assert ids[..|ids|] == ids;
    }

    method UpsertJob(id: nat, created: int)
      modifies this
      ensures jobs == Upserted(old(jobs), id, created)
    {
      if id !in jobs { jobs := jobs[id := Row(0, created)]; }
    }

    method DeleteJob(id: nat)
      modifies this
      ensures jobs == old(jobs) - {id}
    {
      jobs := jobs - {id};
    }
  }

  // ---------------------------------------------------------------------------
  // The list they refine

  function Without(l: seq<nat>, x: nat): seq<nat> {
    if l == [] then [] else (if l[0] == x then [] else [l[0]]) + Without(l[1..], x)
  }

  function ToEnd(l: seq<nat>, x: nat): seq<nat> {
    if x in l then Without(l, x) + [x] else l
  }

  /** One job after the other goes to the end. */
  function AllToEnd(l: seq<nat>, ids: seq<nat>): seq<nat> {
    if ids == [] then l else ToEnd(AllToEnd(l, ids[..|ids| - 1]), ids[|ids| - 1])
  }

  lemma {:induction false} WithoutSplit(a: seq<nat>, x: nat, b: seq<nat>)
    requires x !in a && x !in b
    ensures Without(a + [x] + b, x) == a + b
    decreases |a|
  {
    var l := a + [x] + b;
    if a == [] {
      assert l[0] == x && l[1..] == b;
      WithoutAbsent(b, x);
    } else {
      assert l[0] == a[0] && l[1..] == a[1..] + [x] + b;
      WithoutSplit(a[1..], x, b);
    }
  }

  lemma {:induction false} WithoutAbsent(l: seq<nat>, x: nat)
    requires x !in l
    ensures Without(l, x) == l
  {
    if l != [] { WithoutAbsent(l[1..], x); }
  }

  lemma SplitAt(l: seq<nat>, x: nat) returns (a: seq<nat>, b: seq<nat>)
    requires Distinct(l) && x in l
    ensures l == a + [x] + b && x !in a && x !in b
  {
    var i :| 0 <= i < |l| && l[i] == x;
    a, b := l[..i], l[i + 1..];
  }

  /** The jobs of `l` that are not in `ids`. */
  function Minus(l: seq<nat>, ids: seq<nat>): seq<nat> {
    if l == [] then [] else (if l[0] in ids then [] else [l[0]]) + Minus(l[1..], ids)
  }

  /** The ids that are jobs of `l`. */
  function Within(ids: seq<nat>, l: seq<nat>): seq<nat> {
    if ids == [] then [] else Within(ids[..|ids| - 1], l) + if ids[|ids| - 1] in l then [ids[|ids| - 1]] else []
  }

  lemma {:induction false} MinusOneMore(l: seq<nat>, ids: seq<nat>, x: nat)
    ensures Minus(l, ids + [x]) == Without(Minus(l, ids), x)
  {
    if l != [] {
      var rest := Minus(l[1..], ids);
      MinusOneMore(l[1..], ids, x);
      assert l[0] in ids + [x] <==> l[0] in ids || l[0] == x;
      if l[0] in ids { assert [] + rest == rest; } else { assert ([l[0]] + rest)[1..] == rest; }
    }
  }

  lemma {:induction false} MinusNothing(l: seq<nat>)
    ensures Minus(l, []) == l
  {
    if l != [] { MinusNothing(l[1..]); }
  }

  lemma {:induction false} MinusHas(l: seq<nat>, ids: seq<nat>, x: nat)
    ensures x in Minus(l, ids) <==> x in l && x !in ids
  {
    if l != [] { MinusHas(l[1..], ids, x); }
  }

  lemma {:induction false} WithinHas(ids: seq<nat>, l: seq<nat>, x: nat)
    ensures x in Within(ids, l) <==> x in ids && x in l
  {
    if ids != [] {
      assert ids == ids[..|ids| - 1] + [ids[|ids| - 1]];
      WithinHas(ids[..|ids| - 1], l, x);
    }
  }

  lemma {:induction false} WithoutAppend(a: seq<nat>, b: seq<nat>, x: nat)
    ensures Without(a + b, x) == Without(a, x) + Without(b, x)
    decreases |a|
  {
    if a == [] {
      assert a + b == b;
    } else {
      assert (a + b)[1..] == a[1..] + b;
      WithoutAppend(a[1..], b, x);
    }
  }

  /** For distinct ids that is: the old order without them, then they in the order given. Ids of jobs that
      do not exist are passed over. */
  lemma {:induction false} AllToEndClosed(l: seq<nat>, ids: seq<nat>)
    requires Distinct(ids)
    ensures AllToEnd(l, ids) == Minus(l, ids) + Within(ids, l)
    decreases |ids|
  {
    hide Minus, Without;
    if ids == [] {
      MinusNothing(l);
    } else {
      var init, x := ids[..|ids| - 1], ids[|ids| - 1];
      assert ids == init + [x];
      AllToEndClosed(l, init);
      var stay, moved := Minus(l, init), Within(init, l);
      MinusOneMore(l, init, x);
      MinusHas(l, init, x);
      WithinHas(init, l, x);
      WithoutAppend(stay, moved, x);
      WithoutAbsent(moved, x);
      if x !in l { WithoutAbsent(stay, x); }
    }
  }

  // ---------------------------------------------------------------------------
  // Refinement

  /** A position above every other puts a job at the end and leaves the rest as they were. */
  lemma RaiseRefines(t: Table, l: seq<nat>, id: nat, p: int)
    requires Listing(t, l) && forall x :: x in t ==> t[x].position < p
    ensures Listing(Raised(t, id, p), ToEnd(l, id))
  {
    if id in t {
      var a, b := SplitAt(l, id);
      WithoutSplit(a, id, b);
      var r, t' := a + b + [id], Raised(t, id, p);
      assert ToEnd(l, id) == r;
      forall i, j | 0 <= i < j < |r| ensures r[i] != r[j] && !Before(t'[r[j]], t'[r[i]]) {
        var i', j' := if i < |a| then i else i + 1, if j < |a| then j else j + 1;
        assert j < |r| - 1 ==> r[i] == l[i'] && r[j] == l[j'] && r[i] != id && r[j] != id;
        assert j == |r| - 1 ==> r[j] == id && r[i] == l[i'] && r[i] != id;
      }
      forall x ensures x in r <==> x in t' { assert x in l <==> x in a || x == id || x in b; }
    }
  }

  lemma {:induction false} OrderRefines(t: Table, l: seq<nat>, base: int, ids: seq<nat>)
    requires Listing(t, l) && forall x :: x in t ==> t[x].position <= base
    ensures Listing(Ordered(t, base, ids), AllToEnd(l, ids))
    ensures forall x :: x in Ordered(t, base, ids) ==> Ordered(t, base, ids)[x].position <= base + |ids|
    decreases |ids|
  {
    hide Listing, ToEnd;
    if ids != [] {
      var init, x := ids[..|ids| - 1], ids[|ids| - 1];
      OrderRefines(t, l, base, init);
      RaiseRefines(Ordered(t, base, init), AllToEnd(l, init), x, base + |ids|);
    }
  }

  /** Where a new row goes: behind everything that does not come after it. */
  function Place(t: Table, l: seq<nat>, row: Row): (k: nat)
    requires forall id :: id in l ==> id in t
    ensures k <= |l|
  {
    if l == [] || Before(row, t[l[0]]) then 0 else 1 + Place(t, l[1..], row)
  }

  lemma {:induction false} PlaceSplits(t: Table, l: seq<nat>, row: Row)
    requires (forall id :: id in l ==> id in t) && forall i, j :: 0 <= i < j < |l| ==> !Before(t[l[j]], t[l[i]])
    ensures forall i :: 0 <= i < Place(t, l, row) ==> !Before(row, t[l[i]])
    ensures forall i :: Place(t, l, row) <= i < |l| ==> Before(row, t[l[i]])
    decreases |l|
  {
    if l != [] && !Before(row, t[l[0]]) {
      PlaceSplits(t, l[1..], row);
    }
  }

  function Inserted(t: Table, l: seq<nat>, id: nat, created: int): seq<nat>
    requires forall x :: x in l ==> x in t
  {
    if id in t then l else var k := Place(t, l, Row(0, created)); l[..k] + [id] + l[k..]
  }

  lemma UpsertRefines(t: Table, l: seq<nat>, id: nat, created: int)
    requires Listing(t, l)
    ensures Listing(Upserted(t, id, created), Inserted(t, l, id, created))
    ensures Without(Inserted(t, l, id, created), id) == if id in t then Without(l, id) else l
  {
    if id !in t {
      var row := Row(0, created);
      var k := Place(t, l, row);
      PlaceSplits(t, l, row);
      InsertedListing(t, l, id, row, k);
      assert l[..k] + l[k..] == l;
      WithoutSplit(l[..k], id, l[k..]);
      assert Inserted(t, l, id, created) == l[..k] + [id] + l[k..];
    }
  }

  lemma InsertedListing(t: Table, l: seq<nat>, id: nat, row: Row, k: nat)
    requires Listing(t, l) && id !in t && k <= |l|
    requires (forall i :: 0 <= i < k ==> !Before(row, t[l[i]])) && forall i :: k <= i < |l| ==> Before(row, t[l[i]])
    ensures Listing(t[id := row], l[..k] + [id] + l[k..])
  {
    var r, t' := l[..k] + [id] + l[k..], t[id := row];
    assert l == l[..k] + l[k..];
    forall x ensures x in r <==> x in t' { assert x in l <==> x in l[..k] || x in l[k..]; }
    forall i, j | 0 <= i < j < |r| ensures r[i] != r[j] && !Before(t'[r[j]], t'[r[i]]) {
      InsertedPair(t, l, id, row, k, i, j);
    }
  }

  lemma InsertedPair(t: Table, l: seq<nat>, id: nat, row: Row, k: nat, i: nat, j: nat)
    requires Listing(t, l) && id !in t && k <= |l| && i < j <= |l|
    requires (forall i :: 0 <= i < k ==> !Before(row, t[l[i]])) && forall i :: k <= i < |l| ==> Before(row, t[l[i]])
    ensures var r, t' := l[..k] + [id] + l[k..], t[id := row];
            r[i] != r[j] && r[i] in t' && r[j] in t' && !Before(t'[r[j]], t'[r[i]])
  {
    if i == k {
      assert l[j - 1] in l;
    } else if j == k {
      assert l[i] in l;
    } else {
      var i', j' := if i < k then i else i - 1, if j < k then j else j - 1;
      assert l[i'] in l && l[j'] in l && l[i'] != l[j'];
    }
  }

  /** Where a new job stands, whatever listing the query gives: behind every job that was never moved and is
      older, and before every one that was moved to the end. */
  lemma NewJobStands(t: Table, id: nat, created: int, l: seq<nat>, i: nat, j: nat)
    requires id !in t && Listing(Upserted(t, id, created), l) && i < |l| && j < |l| && l[j] == id && i != j
    ensures t[l[i]].position == 0 && t[l[i]].created < created ==> i < j
    ensures t[l[i]].position > 0 ==> j < i
  {
    assert l[i] in l && l[i] != id;
  }

  lemma DeleteRefines(t: Table, l: seq<nat>, id: nat)
    requires Listing(t, l)
    ensures Listing(t - {id}, Without(l, id))
  {
    if id in t {
      var a, b := SplitAt(l, id);
      WithoutSplit(a, id, b);
      var r := a + b;
      forall i, j | 0 <= i < j < |r| ensures r[i] != r[j] && r[i] in t && r[j] in t && !Before(t[r[j]], t[r[i]]) {
        var i', j' := if i < |a| then i else i + 1, if j < |a| then j else j + 1;
        assert r[i] == l[i'] && r[j] == l[j'];
      }
      forall x ensures x in r <==> x in t && x != id { assert x in l <==> x in a || x == id || x in b; }
    } else {
      WithoutAbsent(l, id);
      assert t - {id} == t;
    }
  }

  datatype Call = MoveEnd(id: nat) | Order(ids: seq<nat>) | Upsert(id: nat, created: int) | Delete(id: nat)

  /** What a call may make of the table. */
  ghost predicate Effect(t: Table, c: Call, t': Table) {
    match c
    case MoveEnd(id) => exists m :: IsTop(t, m) && t' == Raised(t, id, m + 1)
    case Order(ids) => exists m :: IsTop(t, m) && t' == Ordered(t, m, ids)
    case Upsert(id, created) => t' == Upserted(t, id, created)
    case Delete(id) => t' == t - {id}
  }

  /** What the call means for the list. */
  function Meaning(t: Table, l: seq<nat>, c: Call): seq<nat>
    requires forall x :: x in l ==> x in t
  {
    match c
    case MoveEnd(id) => ToEnd(l, id)
    case Order(ids) => AllToEnd(l, ids)
    case Upsert(id, created) => Inserted(t, l, id, created)
    case Delete(id) => Without(l, id)
  }

  lemma CallRefines(t: Table, l: seq<nat>, c: Call, t': Table)
    requires Listing(t, l) && Effect(t, c, t')
    ensures Listing(t', Meaning(t, l, c))
  {
    assert forall x :: x in l ==> x in t;
    hide Listing, ToEnd, Without, IsTop;
    match c
    case MoveEnd(id) =>
      var m :| IsTop(t, m) && t' == Raised(t, id, m + 1);
      RaiseRefines(t, l, id, m + 1);
    case Order(ids) =>
      var m :| IsTop(t, m) && t' == Ordered(t, m, ids);
      OrderRefines(t, l, m, ids);
    case Upsert(id, created) => UpsertRefines(t, l, id, created);
    case Delete(id) => DeleteRefines(t, l, id);
  }

  lemma {:induction false} WithinAll(ids: seq<nat>, l: seq<nat>)
    requires forall x :: x in ids ==> x in l
    ensures Within(ids, l) == ids
  {
    if ids != [] {
      WithinAll(ids[..|ids| - 1], l);
      assert ids[|ids| - 1] in ids && ids == ids[..|ids| - 1] + [ids[|ids| - 1]];
    }
  }

  /** Writing a run order for distinct jobs: the others keep their order, then these in the order given.
      Moving one job to the end is the case of one. */
  lemma RunOrderMeans(t: Table, l: seq<nat>, ids: seq<nat>, t': Table)
    requires Listing(t, l) && Distinct(ids) && forall x :: x in ids ==> x in t
    requires Effect(t, Order(ids), t') || (|ids| == 1 && Effect(t, MoveEnd(ids[0]), t'))
    ensures Listing(t', Minus(l, ids) + ids)
  {
    AllToEndClosed(l, ids);
    WithinAll(ids, l);
    if Effect(t, Order(ids), t') {
      CallRefines(t, l, Order(ids), t');
    } else {
      CallRefines(t, l, MoveEnd(ids[0]), t');
      assert ids[..0] == [] && AllToEnd(l, []) == l;
    }
  }

  /** The tables along a sequence of calls. */
  ghost predicate Trace(ts: seq<Table>, calls: seq<Call>) {
    |ts| == |calls| + 1 && forall k :: 0 <= k < |calls| ==> Effect(ts[k], calls[k], ts[k + 1])
  }

  /** The list along them. */
  ghost function Lists(ts: seq<Table>, l: seq<nat>, calls: seq<Call>, k: nat): (r: seq<nat>)
    requires Trace(ts, calls) && Listing(ts[0], l) && k <= |calls|
    ensures Listing(ts[k], r)
  {
    if k == 0 then l
    else
      var m := Lists(ts, l, calls, k - 1);
      CallRefines(ts[k - 1], m, calls[k - 1], ts[k]);
      Meaning(ts[k - 1], m, calls[k - 1])
  }

  ghost predicate Untied(t: Table) {
    forall x, y :: x in t && y in t && t[x] == t[y] ==> x == y
  }

  /** Where no two rows tie, there is only one listing. */
  lemma {:induction false} ListingUnique(t: Table, l: seq<nat>, m: seq<nat>)
    requires Untied(t) && Listing(t, l) && Listing(t, m)
    ensures l == m
    decreases |l|
  {
    if l == [] {
      var m0 := if m == [] then 0 else m[0];
      assert m != [] ==> m0 in m;
    } else {
      assert l[0] in l && l[0] in m;
      var i :| 0 <= i < |m| && m[i] == l[0];
      assert m[0] in m && m[0] in l;
      var j :| 0 <= j < |l| && l[j] == m[0];
      assert l[0] == m[0];
      DropFirst(t, l);
      DropFirst(t, m);
      ListingUnique(t - {l[0]}, l[1..], m[1..]);
    }
  }

  lemma DropFirst(t: Table, l: seq<nat>)
    requires Listing(t, l) && l != []
    ensures Listing(t - {l[0]}, l[1..])
  {
    forall x ensures x in l[1..] <==> x in t && x != l[0] { assert x in l <==> x == l[0] || x in l[1..]; }
  }

  /** Where every creation time is its own, no call makes a tie, so the listing the table determines is the
      one the list operations give: over any sequence of calls from an empty table. */
  lemma CallsDetermineTheList(ts: seq<Table>, calls: seq<Call>, k: nat, l: seq<nat>)
    requires Trace(ts, calls) && ts[0] == map[] && k <= |calls|
    requires forall x, y :: x in ts[k] && y in ts[k] && ts[k][x].created == ts[k][y].created ==> x == y
    requires Listing(ts[k], l)
    ensures Listing(ts[0], []) && l == Lists(ts, [], calls, k)
  {
    assert Listing(ts[0], []);
    ListingUnique(ts[k], l, Lists(ts, [], calls, k));
  }
}
