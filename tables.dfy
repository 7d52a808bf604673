/**
 * The two tables as values and the SQL statements the gateway issues on
 * them, each by its meaning: a query is a scan that keeps the rows its
 * WHERE clause selects, an UPDATE overlays ContentValues on the selected
 * rows and is rolled back when it breaks the UNIQUE constraint on
 * ID_FROM_SERVER, a DELETE removes the selected rows, and ORDER BY
 * DATE_TIME sorts a scan.
 */
module Tables {
  import opened Records

  /**
   * A table: each stored row under its `_id`, and the AUTOINCREMENT counter,
   * the id the next insert receives (ids are never reused, even after a
   * DELETE).
   */
  datatype Table = Table(rows: map<int, Row>, nextId: int)

  /** Every `_id` is positive and below the counter. */
  predicate IdsBelowNext(t: Table) {
    1 <= t.nextId && forall id :: id in t.rows ==> 1 <= id < t.nextId
  }

  /** One row of a cursor: its `_id` and its columns. */
  datatype Record = Record(id: int, row: Row)

  /** A cursor, read from first to last. */
  type Cursor = seq<Record>

  /** The WHERE clauses the gateway builds, by what they mean. */
  datatype Where =
    | IdIs(id: int)                           // `_id=<n>`
    | NoId                                    // `_id=null`
    | HashIs(hash: string)                    // `MY_HASH="<hash>"`
    | FavoriteIs(hash: string)                // `FAVORITE = "<hash>"`
    | FileNotUploadedRows
    | FileToDownloadRows
    | NeverSyncedRows
    | ModifiedSinceSyncRows(notSynced: string)
    | DeletedRows
    | LiveRows
    | LiveIdIn(ids: set<int>)                 // `_id in (<ids>) AND <live>`

  /** Whether the row stored under `id` satisfies the clause. */
  predicate Selects(w: Where, id: int, r: Row) {
    match w
    case IdIs(n) => id == n
    case NoId => false
    case HashIs(h) => r.myHash == h
    case FavoriteIs(h) => r.favorite == Some(h)
    case FileNotUploadedRows => FileNotUploaded(r)
    case FileToDownloadRows => HasFileToDownload(r)
    case NeverSyncedRows => NeverSynced(r)
    case ModifiedSinceSyncRows(ns) => ModifiedSinceSync(r, ns)
    case DeletedRows => IsDeleted(r)
    case LiveRows => IsLive(r)
    case LiveIdIn(ids) => id in ids && IsLive(r)
  }

  predicate IdsIncreasing(c: Cursor) {
    forall i, j :: 0 <= i < j < |c| ==> c[i].id < c[j].id
  }

  predicate DistinctIds(c: Cursor) {
    forall i, j :: 0 <= i < j < |c| ==> c[i].id != c[j].id
  }

  /** The records of the selected rows with an `_id` from `lo` up to the counter, in `_id` order. */
  function Collect(t: Table, w: Where, lo: int): (c: Cursor)
    ensures forall x :: x in c ==>
      lo <= x.id && x.id in t.rows && x.row == t.rows[x.id] && Selects(w, x.id, x.row)
    ensures forall id :: lo <= id < t.nextId && id in t.rows && Selects(w, id, t.rows[id]) ==>
      Record(id, t.rows[id]) in c
    ensures IdsIncreasing(c)
    decreases t.nextId - lo
  {
    if lo >= t.nextId then []
    else
      var rest := Collect(t, w, lo + 1);
      if lo in t.rows && Selects(w, lo, t.rows[lo]) then [Record(lo, t.rows[lo])] + rest else rest
  }

  /**
   * A query without ORDER BY: exactly the selected rows, each with its
   * stored columns, in ascending `_id` order.
   */
  function Scan(t: Table, w: Where): (c: Cursor)
    requires IdsBelowNext(t)
    ensures forall x :: x in c ==> x.id in t.rows && x.row == t.rows[x.id] && Selects(w, x.id, x.row)
    ensures forall id :: id in t.rows && Selects(w, id, t.rows[id]) ==> Record(id, t.rows[id]) in c
    ensures IdsIncreasing(c)
  {
    Collect(t, w, 1)
  }

  /**
   * `moveToFirst` on a query without ORDER BY: the selected row with the
   * least `_id`, or None when no row is selected.
   */
  function First(t: Table, w: Where): (r: Option<Record>)
    requires IdsBelowNext(t)
    ensures r.None? <==> forall id :: id in t.rows ==> !Selects(w, id, t.rows[id])
    ensures r.Some? ==>
      r.value.id in t.rows && r.value.row == t.rows[r.value.id] && Selects(w, r.value.id, r.value.row)
    ensures r.Some? ==> forall id :: id in t.rows && Selects(w, id, t.rows[id]) ==> r.value.id <= id
  {
    var c := Scan(t, w);
    if c == [] then None
    else
      assert forall id :: id in t.rows && Selects(w, id, t.rows[id]) ==> c[0].id <= id by {
        forall id | id in t.rows && Selects(w, id, t.rows[id]) ensures c[0].id <= id {
          var i :| 0 <= i < |c| && c[i] == Record(id, t.rows[id]);
        }
      }
      Some(c[0])
  }

  // UPDATE

  /** The table after overlaying `cv` on every selected row, before constraints are checked. */
  function Overlaid(t: Table, cv: ContentValues, w: Where): Table {
    Table(map id | id in t.rows :: if Selects(w, id, t.rows[id]) then Overlay(t.rows[id], cv) else t.rows[id],
          t.nextId)
  }

  /** The UNIQUE constraint on ID_FROM_SERVER (NULLs are distinct from each other). */
  predicate UniqueServerIds(t: Table) {
    forall a, b :: a in t.rows && b in t.rows && a != b && t.rows[a].idFromServer.Some? ==>
      t.rows[a].idFromServer != t.rows[b].idFromServer
  }

  /** Whether some row already holds the server id `sid`. */
  predicate ServerIdTaken(t: Table, sid: Option<int>) {
    sid.Some? && exists id :: id in t.rows && t.rows[id].idFromServer == sid
  }

  /**
   * An UPDATE: the overlaid table, or None when the result would break the
   * UNIQUE constraint, in which case SQLite aborts and rolls the statement
   * back (SQLiteConstraintException).
   */
  function Update(t: Table, cv: ContentValues, w: Where): (r: Option<Table>)
    ensures r.Some? ==> UniqueServerIds(r.value)
    ensures r.Some? ==> r.value.rows.Keys == t.rows.Keys && r.value.nextId == t.nextId
  {
    var u := Overlaid(t, cv, w);
    if UniqueServerIds(u) then Some(u) else None
  }

  /**
   * An UPDATE keeps every row and changes only the selected ones, on each of
   * which exactly the put columns take the put values.
   */
  lemma UpdateChangesOnlySelected(t: Table, cv: ContentValues, w: Where)
    requires WellTyped(cv) && Update(t, cv, w).Some?
    ensures forall id :: id in t.rows && !Selects(w, id, t.rows[id]) ==> Update(t, cv, w).value.rows[id] == t.rows[id]
    ensures forall id, c :: id in t.rows && Selects(w, id, t.rows[id]) ==>
      Get(Update(t, cv, w).value.rows[id], c) == if c in cv then Some(cv[c]) else Get(t.rows[id], c)
  {
    forall id | id in t.rows && Selects(w, id, t.rows[id]) {
      OverlayWritesExactlyItsColumns(t.rows[id], cv);
    }
  }

  /** An UPDATE that does not write ID_FROM_SERVER never breaks its uniqueness. */
  lemma UpdateWithoutServerIdSucceeds(t: Table, cv: ContentValues, w: Where)
    requires UniqueServerIds(t) && IdFromServer !in cv
    ensures Update(t, cv, w) == Some(Overlaid(t, cv, w))
  {
    var u := Overlaid(t, cv, w);
    forall id | id in t.rows ensures u.rows[id].idFromServer == t.rows[id].idFromServer {
    }
  }

  /**
   * An UPDATE that writes ID_FROM_SERVER := n is rolled back exactly when it
   * selects two rows, or selects a row while another row already holds n.
   */
  lemma UpdateFailsExactlyOnServerIdClash(t: Table, cv: ContentValues, w: Where, n: int)
    requires UniqueServerIds(t) && IdFromServer in cv && cv[IdFromServer] == Integer(n)
    ensures Update(t, cv, w).None? <==> ServerIdClash(t, w, n)
  {
    var u := Overlaid(t, cv, w);
    assert forall id :: id in t.rows && Selects(w, id, t.rows[id]) ==> u.rows[id].idFromServer == Some(n);
    assert forall id :: id in t.rows && !Selects(w, id, t.rows[id]) ==> u.rows[id] == t.rows[id];
    if ServerIdClash(t, w, n) {
      ClashBreaksUniqueness(t, u, w, n);
    } else {
      NoClashKeepsUniqueness(t, u, w, n);
    }
  }

  /** Two selected rows, or a selected row and another row already holding `n`. */
  predicate ServerIdClash(t: Table, w: Where, n: int) {
    exists a, b :: a in t.rows && b in t.rows && a != b && Selects(w, a, t.rows[a]) &&
      (Selects(w, b, t.rows[b]) || t.rows[b].idFromServer == Some(n))
  }

  lemma ClashBreaksUniqueness(t: Table, u: Table, w: Where, n: int)
    requires u.rows.Keys == t.rows.Keys
    requires forall id :: id in t.rows && Selects(w, id, t.rows[id]) ==> u.rows[id].idFromServer == Some(n)
    requires forall id :: id in t.rows && !Selects(w, id, t.rows[id]) ==> u.rows[id] == t.rows[id]
    requires ServerIdClash(t, w, n)
    ensures !UniqueServerIds(u)
  {
    var a, b :| a in t.rows && b in t.rows && a != b && Selects(w, a, t.rows[a]) &&
      (Selects(w, b, t.rows[b]) || t.rows[b].idFromServer == Some(n));
    assert u.rows[a].idFromServer == Some(n) == u.rows[b].idFromServer;
  }

  lemma NoClashKeepsUniqueness(t: Table, u: Table, w: Where, n: int)
    requires UniqueServerIds(t) && u.rows.Keys == t.rows.Keys
    requires forall id :: id in t.rows && Selects(w, id, t.rows[id]) ==> u.rows[id].idFromServer == Some(n)
    requires forall id :: id in t.rows && !Selects(w, id, t.rows[id]) ==> u.rows[id] == t.rows[id]
    requires !ServerIdClash(t, w, n)
    ensures UniqueServerIds(u)
  {
    forall a, b | a in u.rows && b in u.rows && a != b && u.rows[a].idFromServer.Some?
      ensures u.rows[a].idFromServer != u.rows[b].idFromServer
    {
      if Selects(w, a, t.rows[a]) {
        assert !Selects(w, b, t.rows[b]) && t.rows[b].idFromServer != Some(n);
      } else if Selects(w, b, t.rows[b]) {
        assert t.rows[a].idFromServer != Some(n);
      }
    }
  }

  /**
   * An update keyed by `_id` and one keyed by MY_HASH have the same effect
   * when exactly the row under that id holds that hash.
   */
  lemma UpdateByIdIsUpdateByHash(t: Table, cv: ContentValues, k: int, h: string)
    requires forall id :: id in t.rows ==> (t.rows[id].myHash == h <==> id == k)
    ensures Update(t, cv, IdIs(k)) == Update(t, cv, HashIs(h))
  {
    assert Overlaid(t, cv, IdIs(k)) == Overlaid(t, cv, HashIs(h));
  }

  // DELETE

  /** A DELETE: the table without the selected rows; the counter is kept. */
  function Delete(t: Table, w: Where): Table {
    Table(map id | id in t.rows && !Selects(w, id, t.rows[id]) :: t.rows[id], t.nextId)
  }

  /**
   * A DELETE removes exactly the selected rows, keeps every other row as it
   * was, and leaves no row that the same clause selects.
   */
  lemma DeleteRemovesExactlySelected(t: Table, w: Where)
    requires IdsBelowNext(t)
    ensures forall id :: id in Delete(t, w).rows <==> id in t.rows && !Selects(w, id, t.rows[id])
    ensures forall id :: id in Delete(t, w).rows ==> Delete(t, w).rows[id] == t.rows[id]
    ensures IdsBelowNext(Delete(t, w)) && First(Delete(t, w), w).None?
    ensures UniqueServerIds(t) ==> UniqueServerIds(Delete(t, w))
  {
  }

  // INSERT

  /** An INSERT that the constraints accept: the row goes under the counter, which moves on. */
  function Insert(t: Table, r: Row): Table {
    Table(t.rows[t.nextId := r], t.nextId + 1)
  }

  /**
   * An accepted insert adds exactly the new row under a fresh id above all
   * others, keeps the constraint when its server id is not taken, and the
   * new row is then the one a lookup by its id finds.
   */
  lemma InsertAddsOneRow(t: Table, r: Row)
    requires IdsBelowNext(t) && UniqueServerIds(t) && !ServerIdTaken(t, r.idFromServer)
    ensures t.nextId !in t.rows
    ensures Insert(t, r).rows.Keys == t.rows.Keys + {t.nextId}
    ensures forall id :: id in t.rows ==> Insert(t, r).rows[id] == t.rows[id]
    ensures IdsBelowNext(Insert(t, r)) && UniqueServerIds(Insert(t, r))
    ensures First(Insert(t, r), IdIs(t.nextId)) == Some(Record(t.nextId, r))
  {
  }

  // ORDER BY DATE_TIME

  /** SQLite's order on a nullable DATE_TIME: NULL before every value. */
  predicate DateLess(a: Option<int>, b: Option<int>) {
    (a.None? && b.Some?) || (a.Some? && b.Some? && a.value < b.value)
  }

  /**
   * The position of `x` before `y` in a listing `ORDER BY DATE_TIME asc`
   * (or `desc`); rows with equal DATE_TIME keep their `_id` order.
   */
  predicate Precedes(x: Record, y: Record, descending: bool) {
    if x.row.dateTime == y.row.dateTime then x.id < y.id
    else if descending then DateLess(y.row.dateTime, x.row.dateTime)
    else DateLess(x.row.dateTime, y.row.dateTime)
  }

  predicate SortedBy(c: Cursor, descending: bool) {
    forall i, j :: 0 <= i < j < |c| ==> Precedes(c[i], c[j], descending)
  }

  lemma PrecedesTotal(x: Record, y: Record, descending: bool)
    requires x.id != y.id
    ensures Precedes(x, y, descending) || Precedes(y, x, descending)
  {
  }

  lemma PrecedesTransitive(x: Record, y: Record, z: Record, descending: bool)
    requires Precedes(x, y, descending) && Precedes(y, z, descending)
    ensures Precedes(x, z, descending)
  {
  }

  /** `x` put into its place in a sorted cursor. */
  function InsertInOrder(x: Record, c: Cursor, descending: bool): (r: Cursor)
    requires SortedBy(c, descending)
    requires forall y :: y in c ==> y.id != x.id
    ensures SortedBy(r, descending)
    ensures multiset(r) == multiset(c) + multiset{x}
  {
    if c == [] then [x]
    else if Precedes(x, c[0], descending) then
      PrecedesSortedHead(x, c, descending);
      SortedCons(x, c, descending);
      [x] + c
    else
      var rest := InsertInOrder(x, c[1..], descending);
      assert c == [c[0]] + c[1..];
      PrecedesTotal(x, c[0], descending);
      HeadPrecedesInserted(x, c, rest, descending);
      SortedCons(c[0], rest, descending);
      [c[0]] + rest
  }

  /** What precedes the head of a sorted cursor precedes all of it. */
  lemma PrecedesSortedHead(x: Record, c: Cursor, descending: bool)
    requires SortedBy(c, descending) && c != [] && Precedes(x, c[0], descending)
    ensures forall y :: y in c ==> Precedes(x, y, descending)
  {
    forall y | y in c ensures Precedes(x, y, descending) {
      if y != c[0] {
        var j :| 0 <= j < |c| && c[j] == y;
        PrecedesTransitive(x, c[0], c[j], descending);
      }
    }
  }

  /** A record preceding every record of a sorted cursor can head it. */
  lemma SortedCons(h: Record, c: Cursor, descending: bool)
    requires SortedBy(c, descending)
    requires forall y :: y in c ==> Precedes(h, y, descending)
    ensures SortedBy([h] + c, descending)
  {
    var r := [h] + c;
    forall i, j | 0 <= i < j < |r| ensures Precedes(r[i], r[j], descending) {
      if i == 0 {
        assert r[j] == c[j - 1];
      } else {
        assert r[i] == c[i - 1] && r[j] == c[j - 1];
      }
    }
  }

  /** The head of a sorted cursor precedes its sorted tail with `x` put in, when it precedes `x`. */
  lemma HeadPrecedesInserted(x: Record, c: Cursor, rest: Cursor, descending: bool)
    requires SortedBy(c, descending) && c != [] && Precedes(c[0], x, descending)
    requires multiset(rest) == multiset(c[1..]) + multiset{x}
    ensures forall y :: y in rest ==> Precedes(c[0], y, descending)
  {
    forall y | y in rest ensures Precedes(c[0], y, descending) {
      assert y in multiset(rest);
      if y != x {
        assert y in multiset(c[1..]);
        var j :| 0 <= j < |c[1..]| && c[1..][j] == y;
        assert c[j + 1] == y;
      }
    }
  }

  /** A cursor with distinct ids sorted into listing order (insertion sort). */
  function SortByDate(c: Cursor, descending: bool): (r: Cursor)
    requires DistinctIds(c)
    ensures SortedBy(r, descending)
    ensures multiset(r) == multiset(c)
  {
    if c == [] then []
    else
      var rest := SortByDate(c[1..], descending);
      assert c == [c[0]] + c[1..];
      assert forall y :: y in rest ==> y.id != c[0].id by {
        forall y | y in rest ensures y.id != c[0].id {
          assert y in multiset(c[1..]);
          var j :| 0 <= j < |c[1..]| && c[1..][j] == y;
          assert c[j + 1] == y;
        }
      }
      InsertInOrder(c[0], rest, descending)
  }

  lemma IncreasingIsDistinct(c: Cursor)
    requires IdsIncreasing(c)
    ensures DistinctIds(c)
  {
  }

  /**
   * A query `ORDER BY DATE_TIME asc` (or `desc`): exactly the rows the
   * clause selects, in listing order.
   */
  function Listing(t: Table, w: Where, descending: bool): (c: Cursor)
    requires IdsBelowNext(t)
    ensures SortedBy(c, descending)
    ensures forall x :: x in c <==> x in Scan(t, w)
    ensures forall x :: x in c ==> x.id in t.rows && x.row == t.rows[x.id] && Selects(w, x.id, x.row)
    ensures forall id :: id in t.rows && Selects(w, id, t.rows[id]) ==> Record(id, t.rows[id]) in c
  {
    var s := Scan(t, w);
    IncreasingIsDistinct(s);
    var c := SortByDate(s, descending);
    assert forall x :: x in c <==> x in multiset(s);
    c
  }

  /** `x` comes before `y` in the cursor. */
  predicate ComesBefore(c: Cursor, x: Record, y: Record) {
    exists i, j :: 0 <= i < j < |c| && c[i] == x && c[j] == y
  }

  /**
   * The ascending and the descending listing hold the same rows, and two of
   * them with different DATE_TIME come in opposite orders in the two.
   */
  lemma ListingsInOppositeOrders(t: Table, w: Where, x: Record, y: Record)
    requires IdsBelowNext(t)
    requires x in Listing(t, w, false) && y in Listing(t, w, false)
    requires x.row.dateTime != y.row.dateTime
    ensures x in Listing(t, w, true) && y in Listing(t, w, true)
    ensures ComesBefore(Listing(t, w, false), x, y) <==> ComesBefore(Listing(t, w, true), y, x)
  {
    OppositeOrders(Listing(t, w, false), Listing(t, w, true), x, y);
  }

  /**
   * Two records with different DATE_TIME that are in both an ascending and a
   * descending cursor come in opposite orders in the two.
   */
  lemma OppositeOrders(asc: Cursor, desc: Cursor, x: Record, y: Record)
    requires SortedBy(asc, false) && SortedBy(desc, true)
    requires x in asc && y in asc && x in desc && y in desc
    requires x.row.dateTime != y.row.dateTime
    ensures ComesBefore(asc, x, y) <==> ComesBefore(desc, y, x)
  {
    var i :| 0 <= i < |asc| && asc[i] == x;
    var j :| 0 <= j < |asc| && asc[j] == y;
    var i' :| 0 <= i' < |desc| && desc[i'] == x;
    var j' :| 0 <= j' < |desc| && desc[j'] == y;
    assert i != j && i' != j';
    if i < j {
      assert DateLess(x.row.dateTime, y.row.dateTime);
      assert !Precedes(x, y, true);
      assert j' < i';
      assert ComesBefore(desc, y, x);
    } else {
      assert DateLess(y.row.dateTime, x.row.dateTime);
      assert !Precedes(y, x, true);
      assert i' < j';
      NotBeforeInSorted(asc, x, y, i, j, false);
      NotBeforeInSorted(desc, y, x, j', i', true);
    }
  }

  /** In a sorted cursor with `x` at i and `y` at an earlier j, `x` does not come before `y`. */
  lemma NotBeforeInSorted(c: Cursor, x: Record, y: Record, i: int, j: int, descending: bool)
    requires SortedBy(c, descending) && 0 <= j < i < |c| && c[i] == x && c[j] == y
    ensures !ComesBefore(c, x, y)
  {
    assert Precedes(y, x, descending);
  }
}
