/**
 * DatabaseAdapter: the gateway between the expense tracker and its two
 * tables. Every public operation of the gateway is a method (it writes) or a
 * function (it reads) of the class below; the WHERE clauses it builds from
 * strings are read through Decimal and Tables.
 */
module Adapter {
  import opened Records
  import opened Decimal
  import opened Tables

  /** The result of a call that may let an exception escape to its caller. */
  datatype Outcome<T> = Returned(value: T) | Threw

  /** The clause `_id=<text>`; None when the text makes the statement fail. */
  function IdClause(text: string): Option<Where> {
    match ParseId(text)
    case RowWithId(n) => Some(IdIs(n))
    case NoRow => Some(NoId)
    case BadSql => None
  }

  /** The clause `_id=<id>` for a record's Long id; a null id reads `_id=null`. */
  function RecordIdClause(id: Option<int>): Where {
    if id.Some? then IdIs(id.value) else NoId
  }

  /** A Java string spliced into SQL text: null becomes "null". */
  function HashText(h: Option<string>): string {
    if h.Some? then h.value else "null"
  }

  /**
   * The ids inside `_id in (<text>)` once the trailing character is
   * stripped: none for a null text (`_id in (null)`), None when the list is
   * not numeric literals and the statement fails.
   */
  function IdListClause(id: Option<string>): Option<set<int>> {
    match StripLast(id)
    case None => Some({})
    case Some(s) => ParseIdList(s)
  }

  /** The soft delete: DELETED := true. */
  const DeleteBit: ContentValues := map[Deleted := Flag(true)]

  /** The resync mark: FILE_UPLOADED := false, SYNC_BIT := the "not synced" text. */
  function UploadReset(notSynced: string): ContentValues {
    map[FileUploaded := Flag(false), SyncBit := Text(notSynced)]
  }

  /** The unlinking of entries from a deleted favorite: FAVORITE := "", SYNC_BIT := "not synced". */
  function LinkCleared(notSynced: string): ContentValues {
    map[FavoriteLink := Text(""), SyncBit := Text(notSynced)]
  }

  function SoftDeleted(t: Table, w: Where): Table {
    Overlaid(t, DeleteBit, w)
  }

  /** Every EntryTable row has a DATE_TIME (declared NOT NULL). */
  predicate EntryRows(t: Table) {
    forall id :: id in t.rows ==> t.rows[id].dateTime.Some?
  }

  /** A FavoriteTable row has neither a DATE_TIME nor a FAVORITE column. */
  predicate FavoriteRows(t: Table) {
    forall id :: id in t.rows ==> t.rows[id].dateTime.None? && t.rows[id].favorite.None?
  }

  /** insertToFavoriteTable fails (returns -1) on a NULL TYPE or a taken ID_FROM_SERVER. */
  predicate FavoriteRejected(t: Table, f: Favorite) {
    f.type_.None? || ServerIdTaken(t, f.idFromServer)
  }

  /** insertToEntryTable also fails on a NULL DATE_TIME. */
  predicate EntryRejected(t: Table, e: Entry) {
    e.base.type_.None? || e.timeInMillis.None? || ServerIdTaken(t, e.base.idFromServer)
  }

  /** An overlay keeps the row set and the counter, and the row kinds when it writes no foreign column. */
  lemma OverlaidKeepsShape(t: Table, cv: ContentValues, w: Where)
    ensures Overlaid(t, cv, w).rows.Keys == t.rows.Keys && Overlaid(t, cv, w).nextId == t.nextId
    ensures IdsBelowNext(t) ==> IdsBelowNext(Overlaid(t, cv, w))
    ensures EntryRows(t) && (DateTime in cv ==> cv[DateTime].Integer?) ==> EntryRows(Overlaid(t, cv, w))
    ensures FavoriteRows(t) && DateTime !in cv && FavoriteLink !in cv ==> FavoriteRows(Overlaid(t, cv, w))
  {
  }

  /**
   * A soft delete always succeeds and sets the delete bit of exactly the
   * selected rows, changing nothing else.
   */
  lemma SoftDeleteMarksSelected(t: Table, w: Where)
    requires UniqueServerIds(t)
    ensures Update(t, DeleteBit, w) == Some(SoftDeleted(t, w))
    ensures SoftDeleted(t, w).rows.Keys == t.rows.Keys && SoftDeleted(t, w).nextId == t.nextId
    ensures forall id :: id in t.rows ==>
      SoftDeleted(t, w).rows[id] ==
        if Selects(w, id, t.rows[id]) then t.rows[id].(deleted := Some(true)) else t.rows[id]
  {
    UpdateWithoutServerIdSucceeds(t, DeleteBit, w);
    SoftDeletedRows(t, w);
  }

  /** The rows a soft delete leaves: the selected ones with the delete bit set, the others as they were. */
  lemma SoftDeletedRows(t: Table, w: Where)
    ensures SoftDeleted(t, w).rows.Keys == t.rows.Keys && SoftDeleted(t, w).nextId == t.nextId
    ensures forall id :: id in t.rows ==>
      SoftDeleted(t, w).rows[id] ==
        if Selects(w, id, t.rows[id]) then t.rows[id].(deleted := Some(true)) else t.rows[id]
  {
    forall id | id in t.rows && Selects(w, id, t.rows[id])
      ensures SoftDeleted(t, w).rows[id] == t.rows[id].(deleted := Some(true))
    {
      assert Overlay(t.rows[id], DeleteBit) == t.rows[id].(deleted := Some(true));
    }
  }

  /**
   * After a soft delete no selected row is live any more, and every selected
   * row is in the deleted query that the sync sends to the server.
   */
  lemma SoftDeletedRowsLeaveLiveViews(t: Table, w: Where)
    requires IdsBelowNext(t) && UniqueServerIds(t)
    ensures IdsBelowNext(SoftDeleted(t, w))
    ensures forall x :: x in Scan(SoftDeleted(t, w), LiveRows) ==>
      x.id in t.rows && !Selects(w, x.id, t.rows[x.id]) && x.row == t.rows[x.id]
    ensures forall id :: id in t.rows && Selects(w, id, t.rows[id]) ==>
      Record(id, t.rows[id].(deleted := Some(true))) in Scan(SoftDeleted(t, w), DeletedRows)
  {
    OverlaidKeepsShape(t, DeleteBit, w);
    SoftDeletedLiveScan(t, w);
    SoftDeletedInDeletedScan(t, w);
  }

  /** The live scan after a soft delete holds only unselected rows, unchanged. */
  lemma SoftDeletedLiveScan(t: Table, w: Where)
    requires IdsBelowNext(t) && UniqueServerIds(t)
    ensures forall x :: x in Scan(SoftDeleted(t, w), LiveRows) ==>
      x.id in t.rows && !Selects(w, x.id, t.rows[x.id]) && x.row == t.rows[x.id]
  {
    OverlaidKeepsShape(t, DeleteBit, w);
    var u := SoftDeleted(t, w);
    forall id | id in t.rows
      ensures Selects(w, id, t.rows[id]) ==> !IsLive(u.rows[id])
      ensures !Selects(w, id, t.rows[id]) ==> u.rows[id] == t.rows[id]
    {
      DeleteBitDeletes(t.rows[id]);
    }
    LiveScanOfMarked(t, u, w);
  }

  /** A table whose selected rows are all dead and whose other rows are unchanged scans live as the unselected rows. */
  lemma LiveScanOfMarked(t: Table, u: Table, w: Where)
    requires IdsBelowNext(u) && u.rows.Keys == t.rows.Keys
    requires forall id :: id in t.rows && Selects(w, id, t.rows[id]) ==> !IsLive(u.rows[id])
    requires forall id :: id in t.rows && !Selects(w, id, t.rows[id]) ==> u.rows[id] == t.rows[id]
    ensures forall x :: x in Scan(u, LiveRows) ==>
      x.id in t.rows && !Selects(w, x.id, t.rows[x.id]) && x.row == t.rows[x.id]
  {
  }

  /** The delete bit overlaid on a row leaves it deleted. */
  lemma DeleteBitDeletes(r: Row)
    ensures !IsLive(Overlay(r, DeleteBit))
  {
    assert Overlay(r, DeleteBit).deleted == Some(true);
  }

  /** The deleted scan after a soft delete holds every selected row, with its delete bit set. */
  lemma SoftDeletedInDeletedScan(t: Table, w: Where)
    requires IdsBelowNext(t) && UniqueServerIds(t)
    ensures forall id :: id in t.rows && Selects(w, id, t.rows[id]) ==>
      Record(id, t.rows[id].(deleted := Some(true))) in Scan(SoftDeleted(t, w), DeletedRows)
  {
    SoftDeleteMarksSelected(t, w);
    OverlaidKeepsShape(t, DeleteBit, w);
    var u := SoftDeleted(t, w);
    forall id | id in t.rows && Selects(w, id, t.rows[id])
      ensures Record(id, t.rows[id].(deleted := Some(true))) in Scan(u, DeletedRows)
    {
      assert Selects(DeletedRows, id, u.rows[id]);
    }
  }

  /**
   * The resync mark always succeeds and, on exactly the selected rows, sets
   * FILE_UPLOADED to false and SYNC_BIT to "not synced".
   */
  lemma UploadResetMarksSelected(t: Table, w: Where, notSynced: string)
    requires UniqueServerIds(t)
    ensures Update(t, UploadReset(notSynced), w) == Some(Overlaid(t, UploadReset(notSynced), w))
    ensures forall id :: id in t.rows ==>
      Overlaid(t, UploadReset(notSynced), w).rows[id] ==
        if Selects(w, id, t.rows[id])
        then t.rows[id].(fileUploaded := Some(false), syncBit := Some(notSynced))
        else t.rows[id]
  {
    UpdateWithoutServerIdSucceeds(t, UploadReset(notSynced), w);
    UploadResetRows(t, w, notSynced);
  }

  /** The rows the resync mark leaves: the selected ones marked, the others as they were. */
  lemma UploadResetRows(t: Table, w: Where, notSynced: string)
    ensures forall id :: id in t.rows ==>
      Overlaid(t, UploadReset(notSynced), w).rows[id] ==
        if Selects(w, id, t.rows[id])
        then t.rows[id].(fileUploaded := Some(false), syncBit := Some(notSynced))
        else t.rows[id]
  {
    forall id | id in t.rows && Selects(w, id, t.rows[id])
      ensures Overlaid(t, UploadReset(notSynced), w).rows[id] ==
        t.rows[id].(fileUploaded := Some(false), syncBit := Some(notSynced))
    {
      var r := t.rows[id];
      assert Overlay(r, UploadReset(notSynced)) == r.(fileUploaded := Some(false), syncBit := Some(notSynced));
    }
  }

  /**
   * Unlinking entries from favorite `h` always succeeds, empties the link and
   * marks for resync exactly the entries that named `h`, and afterwards no
   * entry names `h` unless `h` is itself the empty link.
   */
  lemma LinkClearedUnlinks(t: Table, h: string, notSynced: string)
    requires UniqueServerIds(t)
    ensures Update(t, LinkCleared(notSynced), FavoriteIs(h)) == Some(Overlaid(t, LinkCleared(notSynced), FavoriteIs(h)))
    ensures forall id :: id in t.rows ==>
      Overlaid(t, LinkCleared(notSynced), FavoriteIs(h)).rows[id] ==
        if t.rows[id].favorite == Some(h)
        then t.rows[id].(favorite := Some(""), syncBit := Some(notSynced))
        else t.rows[id]
    ensures h != "" ==> forall id :: id in t.rows ==>
      Overlaid(t, LinkCleared(notSynced), FavoriteIs(h)).rows[id].favorite != Some(h)
  {
    var cv := LinkCleared(notSynced);
    UpdateWithoutServerIdSucceeds(t, cv, FavoriteIs(h));
    var u := Overlaid(t, cv, FavoriteIs(h));
    forall id | id in t.rows
      ensures u.rows[id] == if t.rows[id].favorite == Some(h)
        then t.rows[id].(favorite := Some(""), syncBit := Some(notSynced)) else t.rows[id]
    {
      if t.rows[id].favorite == Some(h) {
        assert u.rows[id] == Overlay(t.rows[id], cv);
      }
    }
  }

  /**
   * A successful favorite edit writes every non-null field into its column
   * of each selected row, keeps the columns of null fields and MY_HASH, and
   * leaves the unselected rows alone.
   */
  lemma FavoriteEditResult(t: Table, f: Favorite, w: Where)
    requires Update(t, FavoriteChanges(f), w).Some?
    ensures forall id :: id in t.rows && !Selects(w, id, t.rows[id]) ==>
      Update(t, FavoriteChanges(f), w).value.rows[id] == t.rows[id]
    ensures forall id, c :: id in t.rows && Selects(w, id, t.rows[id]) ==>
      Get(Update(t, FavoriteChanges(f), w).value.rows[id], c) ==
        if c != MyHash && Field(f, c).Some? then Field(f, c) else Get(t.rows[id], c)
  {
    forall id | id in t.rows && Selects(w, id, t.rows[id]) {
      FavoriteEditEffect(t.rows[id], f);
    }
  }

  /** The same for an entry edit, whose Entry also carries DATE_TIME and FAVORITE. */
  lemma EntryEditResult(t: Table, e: Entry, w: Where)
    requires Update(t, EntryChanges(e), w).Some?
    ensures forall id :: id in t.rows && !Selects(w, id, t.rows[id]) ==>
      Update(t, EntryChanges(e), w).value.rows[id] == t.rows[id]
    ensures forall id, c :: id in t.rows && Selects(w, id, t.rows[id]) ==>
      Get(Update(t, EntryChanges(e), w).value.rows[id], c) ==
        if c != MyHash && EntryField(e, c).Some? then EntryField(e, c) else Get(t.rows[id], c)
  {
    forall id | id in t.rows && Selects(w, id, t.rows[id]) {
      EntryEditEffect(t.rows[id], e);
    }
  }

  /**
   * Editing a favorite through its `_id` and through its MY_HASH has the same
   * effect when its id and hash name the same single row.
   */
  lemma FavoriteEditPathsAgree(t: Table, f: Favorite)
    requires f.id.Some? && f.myHash.Some?
    requires forall id :: id in t.rows ==> (t.rows[id].myHash == f.myHash.value <==> id == f.id.value)
    ensures Update(t, FavoriteChanges(f), RecordIdClause(f.id)) ==
      Update(t, FavoriteChanges(f), HashIs(HashText(f.myHash)))
  {
    UpdateByIdIsUpdateByHash(t, FavoriteChanges(f), f.id.value, f.myHash.value);
  }

  /** The same for the two entry edits. */
  lemma EntryEditPathsAgree(t: Table, e: Entry)
    requires e.base.id.Some? && e.base.myHash.Some?
    requires forall id :: id in t.rows ==> (t.rows[id].myHash == e.base.myHash.value <==> id == e.base.id.value)
    ensures Update(t, EntryChanges(e), RecordIdClause(e.base.id)) ==
      Update(t, EntryChanges(e), HashIs(HashText(e.base.myHash)))
  {
    UpdateByIdIsUpdateByHash(t, EntryChanges(e), e.base.id.value, e.base.myHash.value);
  }

  /**
   * The gateway over an open database. `notSynced` is the application's
   * "not synced" sync-bit text; `entries` and `favorites` are EntryTable and
   * FavoriteTable.
   */
  class DatabaseAdapter {
    const notSynced: string
    var entries: Table
    var favorites: Table

    ghost predicate Valid()
      reads this
    {
      IdsBelowNext(entries) && UniqueServerIds(entries) && EntryRows(entries) &&
      IdsBelowNext(favorites) && UniqueServerIds(favorites) && FavoriteRows(favorites)
    }

    /** A freshly created database: both tables empty, both counters at 1. */
    constructor(notSynced: string)
      ensures Valid() && this.notSynced == notSynced
      ensures entries == Table(map[], 1) && favorites == Table(map[], 1)
    {
      this.notSynced := notSynced;
      entries := Table(map[], 1);
      favorites := Table(map[], 1);
    }

    // Inserts. `freshHash` is the value Utils.getMD5 would generate.

    method InsertToFavoriteTable(f: Favorite, freshHash: string) returns (id: int)
      requires Valid()
      modifies this
      ensures Valid() && entries == old(entries)
      ensures id == -1 <==> FavoriteRejected(old(favorites), f)
      ensures id == -1 ==> favorites == old(favorites)
      ensures id != -1 ==> id == old(favorites).nextId && favorites == Insert(old(favorites), InsertedRow(f, freshHash))
      ensures id != -1 ==> id >= 1 && forall k :: k in old(favorites).rows ==> k < id
      ensures id != -1 ==> GetFavHashById(DecimalText(id)) == StoredHash(f.myHash, freshHash)
      ensures id != -1 ==> FindFavoriteByMyHash(StoredHash(f.myHash, freshHash))
    {
      if FavoriteRejected(favorites, f) {
        id := -1;
        return;
      }
      var r := InsertedRow(f, freshHash);
      InsertAddsOneRow(favorites, r);
      id := favorites.nextId;
      favorites := Insert(favorites, r);
      ParseIdOfDecimalText(id);
    }

    method InsertToEntryTable(e: Entry, freshHash: string) returns (id: int)
      requires Valid()
      modifies this
      ensures Valid() && favorites == old(favorites)
      ensures id == -1 <==> EntryRejected(old(entries), e)
      ensures id == -1 ==> entries == old(entries)
      ensures id != -1 ==> id == old(entries).nextId && entries == Insert(old(entries), InsertedEntryRow(e, freshHash))
      ensures id != -1 ==> id >= 1 && forall k :: k in old(entries).rows ==> k < id
      ensures id != -1 ==> GetEntryHashById(DecimalText(id)) == StoredHash(e.base.myHash, freshHash)
      ensures id != -1 ==> FindEntryByMyHash(StoredHash(e.base.myHash, freshHash))
    {
      if EntryRejected(entries, e) {
        id := -1;
        return;
      }
      var r := InsertedEntryRow(e, freshHash);
      InsertAddsOneRow(entries, r);
      id := entries.nextId;
      entries := Insert(entries, r);
      ParseIdOfDecimalText(id);
    }

    // Soft deletes: the row stays, with its delete bit set, until the sync removes it.

    method DeleteFavoriteEntryByHash(hash: string) returns (ok: bool)
      requires Valid()
      modifies this
      ensures Valid() && ok && entries == old(entries)
      ensures favorites == SoftDeleted(old(favorites), HashIs(hash))
      ensures forall x :: x in GetFavoriteTableComplete() ==> x.row.myHash != hash
    {
      SoftDeletedRowsLeaveLiveViews(favorites, HashIs(hash));
      OverlaidKeepsShape(favorites, DeleteBit, HashIs(hash));
      favorites := SoftDeleted(favorites, HashIs(hash));
      ok := true;
    }

    method DeleteFavoriteEntryByID(favID: string) returns (ok: bool)
      requires Valid()
      modifies this
      ensures Valid() && entries == old(entries)
      ensures ok <==> !ParseId(favID).BadSql?
      ensures favorites == if ok then SoftDeleted(old(favorites), IdClause(favID).value) else old(favorites)
      ensures ParseId(favID).RowWithId? ==> forall x :: x in GetFavoriteTableComplete() ==> x.id != ParseId(favID).id
    {
      var w := IdClause(favID);
      if w.None? {
        ok := false;
        return;
      }
      SoftDeletedRowsLeaveLiveViews(favorites, w.value);
      OverlaidKeepsShape(favorites, DeleteBit, w.value);
      favorites := SoftDeleted(favorites, w.value);
      ok := true;
    }

    method DeleteEntryTableByHash(hash: string) returns (ok: bool)
      requires Valid()
      modifies this
      ensures Valid() && ok && favorites == old(favorites)
      ensures entries == SoftDeleted(old(entries), HashIs(hash))
      ensures forall x :: x in GetEntryTableDateDatabaseDescending() ==> x.row.myHash != hash
    {
      SoftDeletedRowsLeaveLiveViews(entries, HashIs(hash));
      OverlaidKeepsShape(entries, DeleteBit, HashIs(hash));
      entries := SoftDeleted(entries, HashIs(hash));
      ok := true;
    }

    /** deleteEntryTableMyHash has the same statement as deleteEntryTableByHash. */
    method DeleteEntryTableMyHash(hash: string) returns (ok: bool)
      requires Valid()
      modifies this
      ensures Valid() && ok && favorites == old(favorites)
      ensures entries == SoftDeleted(old(entries), HashIs(hash))
      ensures forall x :: x in GetEntryTableDateDatabaseDescending() ==> x.row.myHash != hash
    {
      ok := DeleteEntryTableByHash(hash);
    }

    method DeleteEntryTableEntryID(id: string) returns (ok: bool)
      requires Valid()
      modifies this
      ensures Valid() && favorites == old(favorites)
      ensures ok <==> !ParseId(id).BadSql?
      ensures entries == if ok then SoftDeleted(old(entries), IdClause(id).value) else old(entries)
      ensures ParseId(id).RowWithId? ==> forall x :: x in GetEntryTableDateDatabaseDescending() ==> x.id != ParseId(id).id
    {
      var w := IdClause(id);
      if w.None? {
        ok := false;
        return;
      }
      SoftDeletedRowsLeaveLiveViews(entries, w.value);
      OverlaidKeepsShape(entries, DeleteBit, w.value);
      entries := SoftDeleted(entries, w.value);
      ok := true;
    }

    // Permanent deletes, issued once the server has confirmed a deletion.

    method PermanentDeleteEntryTableByHash(hash: string) returns (ok: bool)
      requires Valid()
      modifies this
      ensures Valid() && ok && favorites == old(favorites)
      ensures entries == Delete(old(entries), HashIs(hash))
      ensures !FindEntryByMyHash(hash) && GetEntryIdByHash(hash) == ""
    {
      DeleteRemovesExactlySelected(entries, HashIs(hash));
      entries := Delete(entries, HashIs(hash));
      ok := true;
    }

    method PermanentDeleteFavoriteTableByHash(hash: string) returns (ok: bool)
      requires Valid()
      modifies this
      ensures Valid() && ok && entries == old(entries)
      ensures favorites == Delete(old(favorites), HashIs(hash))
      ensures !FindFavoriteByMyHash(hash) && GetFavIdByHash(hash) == ""
    {
      DeleteRemovesExactlySelected(favorites, HashIs(hash));
      favorites := Delete(favorites, HashIs(hash));
      ok := true;
    }

    /** permanentDeleteFavoriteTableMyHash has the same statement as permanentDeleteFavoriteTableByHash. */
    method PermanentDeleteFavoriteTableMyHash(hash: string) returns (ok: bool)
      requires Valid()
      modifies this
      ensures Valid() && ok && entries == old(entries)
      ensures favorites == Delete(old(favorites), HashIs(hash))
      ensures !FindFavoriteByMyHash(hash) && GetFavIdByHash(hash) == ""
    {
      ok := PermanentDeleteFavoriteTableByHash(hash);
    }

    method PermanentDeleteFavoriteTableEntryID(favID: string) returns (ok: bool)
      requires Valid()
      modifies this
      ensures Valid() && entries == old(entries)
      ensures ok <==> !ParseId(favID).BadSql?
      ensures favorites == if ok then Delete(old(favorites), IdClause(favID).value) else old(favorites)
      ensures ok ==> GetFavHashById(favID) == ""
    {
      var w := IdClause(favID);
      if w.None? {
        ok := false;
        return;
      }
      DeleteRemovesExactlySelected(favorites, w.value);
      favorites := Delete(favorites, w.value);
      ok := true;
    }

    method PermanentDeleteEntryTableEntryID(id: string) returns (ok: bool)
      requires Valid()
      modifies this
      ensures Valid() && favorites == old(favorites)
      ensures ok <==> !ParseId(id).BadSql?
      ensures entries == if ok then Delete(old(entries), IdClause(id).value) else old(entries)
      ensures ok ==> FindEntryById(id) == Returned(false)
      ensures ok ==> GetEntryHashById(id) == ""
    {
      var w := IdClause(id);
      if w.None? {
        ok := false;
        return;
      }
      DeleteRemovesExactlySelected(entries, w.value);
      entries := Delete(entries, w.value);
      ok := true;
    }

    // Resync marks: the row's file goes back to "not uploaded" and the row to "not synced".

    method UpdateFileUploadedEntryTable(id: string) returns (ok: bool)
      requires Valid()
      modifies this
      ensures Valid() && favorites == old(favorites)
      ensures ok <==> !ParseId(id).BadSql?
      ensures entries == if ok then Overlaid(old(entries), UploadReset(notSynced), IdClause(id).value) else old(entries)
      ensures ParseId(id).RowWithId? && ParseId(id).id in entries.rows ==>
        Record(ParseId(id).id, entries.rows[ParseId(id).id]) in GetEntryDataFileNotUploaded()
    {
      var w := IdClause(id);
      if w.None? {
        ok := false;
        return;
      }
      UploadResetMarksSelected(entries, w.value, notSynced);
      OverlaidKeepsShape(entries, UploadReset(notSynced), w.value);
      entries := Overlaid(entries, UploadReset(notSynced), w.value);
      ok := true;
    }

    method UpdateFileUploadedFavoriteTable(favID: string) returns (ok: bool)
      requires Valid()
      modifies this
      ensures Valid() && entries == old(entries)
      ensures ok <==> !ParseId(favID).BadSql?
      ensures favorites == if ok then Overlaid(old(favorites), UploadReset(notSynced), IdClause(favID).value) else old(favorites)
      ensures ParseId(favID).RowWithId? && ParseId(favID).id in favorites.rows ==>
        Record(ParseId(favID).id, favorites.rows[ParseId(favID).id]) in GetFavoriteDataFileNotUploaded()
    {
      var w := IdClause(favID);
      if w.None? {
        ok := false;
        return;
      }
      UploadResetMarksSelected(favorites, w.value, notSynced);
      OverlaidKeepsShape(favorites, UploadReset(notSynced), w.value);
      favorites := Overlaid(favorites, UploadReset(notSynced), w.value);
      ok := true;
    }

    // Partial edits: only the non-null fields of the object are written.

    /**
     * editFavoriteTable: no non-null field makes the update throw, which the
     * method catches; a clash on ID_FROM_SERVER rolls the statement back.
     */
    method EditFavoriteTable(f: Favorite) returns (ok: bool)
      requires Valid()
      modifies this
      ensures Valid() && entries == old(entries)
      ensures ok <==> FavoriteChanges(f) != map[] && Update(old(favorites), FavoriteChanges(f), RecordIdClause(f.id)).Some?
      ensures favorites == if ok then Update(old(favorites), FavoriteChanges(f), RecordIdClause(f.id)).value else old(favorites)
    {
      var cv := FavoriteEditValues(f);
      if cv == map[] {
        ok := false;
        return;
      }
      var u := Update(favorites, cv, RecordIdClause(f.id));
      if u.None? {
        ok := false;
        return;
      }
      OverlaidKeepsShape(favorites, cv, RecordIdClause(f.id));
      favorites := u.value;
      ok := true;
    }

    method EditFavoriteTableByHash(f: Favorite) returns (ok: bool)
      requires Valid()
      modifies this
      ensures Valid() && entries == old(entries)
      ensures ok <==> FavoriteChanges(f) != map[] && Update(old(favorites), FavoriteChanges(f), HashIs(HashText(f.myHash))).Some?
      ensures favorites == if ok then Update(old(favorites), FavoriteChanges(f), HashIs(HashText(f.myHash))).value else old(favorites)
    {
      var cv := FavoriteEditValues(f);
      if cv == map[] {
        ok := false;
        return;
      }
      var u := Update(favorites, cv, HashIs(HashText(f.myHash)));
      if u.None? {
        ok := false;
        return;
      }
      OverlaidKeepsShape(favorites, cv, HashIs(HashText(f.myHash)));
      favorites := u.value;
      ok := true;
    }

    /**
     * editEntryTable: the empty-update exception is not an SQLiteException,
     * so it escapes; the table is then unchanged. A clash returns false.
     */
    method EditEntryTable(e: Entry) returns (r: Outcome<bool>)
      requires Valid()
      modifies this
      ensures Valid() && favorites == old(favorites)
      ensures r.Threw? <==> EntryChanges(e) == map[]
      ensures r == Returned(true) <==> EntryChanges(e) != map[] && Update(old(entries), EntryChanges(e), RecordIdClause(e.base.id)).Some?
      ensures entries == if r == Returned(true) then Update(old(entries), EntryChanges(e), RecordIdClause(e.base.id)).value else old(entries)
    {
      var cv := EntryEditValues(e);
      if cv == map[] {
        r := Threw;
        return;
      }
      var u := Update(entries, cv, RecordIdClause(e.base.id));
      if u.None? {
        r := Returned(false);
        return;
      }
      ChangesAreWellTyped(e.base, e);
      OverlaidKeepsShape(entries, cv, RecordIdClause(e.base.id));
      entries := u.value;
      r := Returned(true);
    }

    method EditEntryTableByHash(e: Entry) returns (r: Outcome<bool>)
      requires Valid()
      modifies this
      ensures Valid() && favorites == old(favorites)
      ensures r.Threw? <==> EntryChanges(e) == map[]
      ensures r == Returned(true) <==> EntryChanges(e) != map[] && Update(old(entries), EntryChanges(e), HashIs(HashText(e.base.myHash))).Some?
      ensures entries == if r == Returned(true) then Update(old(entries), EntryChanges(e), HashIs(HashText(e.base.myHash))).value else old(entries)
    {
      var cv := EntryEditValues(e);
      if cv == map[] {
        r := Threw;
        return;
      }
      var u := Update(entries, cv, HashIs(HashText(e.base.myHash)));
      if u.None? {
        r := Returned(false);
        return;
      }
      ChangesAreWellTyped(e.base, e);
      OverlaidKeepsShape(entries, cv, HashIs(HashText(e.base.myHash)));
      entries := u.value;
      r := Returned(true);
    }

    /** editFavoriteHashEntryTable: unlink every entry from the favorite with hash `hash`. */
    method EditFavoriteHashEntryTable(hash: string)
      requires Valid()
      modifies this
      ensures Valid() && favorites == old(favorites)
      ensures entries == Overlaid(old(entries), LinkCleared(notSynced), FavoriteIs(hash))
      ensures hash != "" ==> forall id :: id in entries.rows ==> entries.rows[id].favorite != Some(hash)
    {
      LinkClearedUnlinks(entries, hash, notSynced);
      OverlaidKeepsShape(entries, LinkCleared(notSynced), FavoriteIs(hash));
      entries := Overlaid(entries, LinkCleared(notSynced), FavoriteIs(hash));
    }

    // Lookups.

    function GetEntryIdByHash(hash: string): (id: string)
      reads this
      requires Valid()
      ensures id == "" <==> forall k :: k in entries.rows ==> entries.rows[k].myHash != hash
      ensures id != "" ==>
        ParseId(id).RowWithId? && ParseId(id).id in entries.rows && entries.rows[ParseId(id).id].myHash == hash
      ensures id != "" ==> forall k :: k in entries.rows && entries.rows[k].myHash == hash ==> ParseId(id).id <= k
    {
      match First(entries, HashIs(hash))
      case None => ""
      case Some(x) => ParseIdOfDecimalText(x.id); DecimalText(x.id)
    }

    function GetFavIdByHash(hash: string): (id: string)
      reads this
      requires Valid()
      ensures id == "" <==> forall k :: k in favorites.rows ==> favorites.rows[k].myHash != hash
      ensures id != "" ==>
        ParseId(id).RowWithId? && ParseId(id).id in favorites.rows && favorites.rows[ParseId(id).id].myHash == hash
      ensures id != "" ==> forall k :: k in favorites.rows && favorites.rows[k].myHash == hash ==> ParseId(id).id <= k
    {
      match First(favorites, HashIs(hash))
      case None => ""
      case Some(x) => ParseIdOfDecimalText(x.id); DecimalText(x.id)
    }

    function GetFavHashById(id: string): (hash: string)
      reads this
      requires Valid()
      ensures ParseId(id).RowWithId? && ParseId(id).id in favorites.rows ==>
        hash == favorites.rows[ParseId(id).id].myHash
      ensures !(ParseId(id).RowWithId? && ParseId(id).id in favorites.rows) ==> hash == ""
    {
      match IdClause(id)
      case None => ""
      case Some(w) => if First(favorites, w).Some? then First(favorites, w).value.row.myHash else ""
    }

    function GetEntryHashById(id: string): (hash: string)
      reads this
      requires Valid()
      ensures ParseId(id).RowWithId? && ParseId(id).id in entries.rows ==>
        hash == entries.rows[ParseId(id).id].myHash
      ensures !(ParseId(id).RowWithId? && ParseId(id).id in entries.rows) ==> hash == ""
    {
      match IdClause(id)
      case None => ""
      case Some(w) => if First(entries, w).Some? then First(entries, w).value.row.myHash else ""
    }

    /** findEntryById has no handler: an id text that is not SQL throws. */
    function FindEntryById(id: string): (r: Outcome<bool>)
      reads this
      requires Valid()
      ensures r.Threw? <==> ParseId(id).BadSql?
      ensures r.Returned? ==> (r.value <==> ParseId(id).RowWithId? && ParseId(id).id in entries.rows)
    {
      match IdClause(id)
      case None => Threw
      case Some(w) => Returned(First(entries, w).Some?)
    }

    function FindEntryByMyHash(hash: string): (present: bool)
      reads this
      requires Valid()
      ensures present <==> exists k :: k in entries.rows && entries.rows[k].myHash == hash
    {
      First(entries, HashIs(hash)).Some?
    }

    function FindFavoriteByMyHash(hash: string): (present: bool)
      reads this
      requires Valid()
      ensures present <==> exists k :: k in favorites.rows && favorites.rows[k].myHash == hash
    {
      First(favorites, HashIs(hash)).Some?
    }

    // Queries; a cursor without ORDER BY lists its rows in `_id` order.

    function GetFavoriteByHash(hash: string): (c: Cursor)
      reads this
      requires Valid()
      ensures forall x :: x in c <==> x.id in favorites.rows && x.row == favorites.rows[x.id] && x.row.myHash == hash
      ensures IdsIncreasing(c)
    {
      Scan(favorites, HashIs(hash))
    }

    function GetEntryByHash(hash: string): (c: Cursor)
      reads this
      requires Valid()
      ensures forall x :: x in c <==> x.id in entries.rows && x.row == entries.rows[x.id] && x.row.myHash == hash
      ensures IdsIncreasing(c)
    {
      Scan(entries, HashIs(hash))
    }

    function GetEntryDataFileNotUploaded(): (c: Cursor)
      reads this
      requires Valid()
      ensures forall x :: x in c <==> x.id in entries.rows && x.row == entries.rows[x.id] && FileNotUploaded(x.row)
      ensures IdsIncreasing(c)
    {
      Scan(entries, FileNotUploadedRows)
    }

    function GetFavoriteDataFileNotUploaded(): (c: Cursor)
      reads this
      requires Valid()
      ensures forall x :: x in c <==> x.id in favorites.rows && x.row == favorites.rows[x.id] && FileNotUploaded(x.row)
      ensures IdsIncreasing(c)
    {
      Scan(favorites, FileNotUploadedRows)
    }

    function GetEntryDataNotSyncedAndCreated(): (c: Cursor)
      reads this
      requires Valid()
      ensures forall x :: x in c <==> x.id in entries.rows && x.row == entries.rows[x.id] && NeverSynced(x.row)
      ensures IdsIncreasing(c)
    {
      Scan(entries, NeverSyncedRows)
    }

    function GetFavoriteDataNotSyncedAndCreated(): (c: Cursor)
      reads this
      requires Valid()
      ensures forall x :: x in c <==> x.id in favorites.rows && x.row == favorites.rows[x.id] && NeverSynced(x.row)
      ensures IdsIncreasing(c)
    {
      Scan(favorites, NeverSyncedRows)
    }

    function GetEntryDataFileToDownload(): (c: Cursor)
      reads this
      requires Valid()
      ensures forall x :: x in c <==> x.id in entries.rows && x.row == entries.rows[x.id] && HasFileToDownload(x.row)
      ensures IdsIncreasing(c)
    {
      Scan(entries, FileToDownloadRows)
    }

    function GetFavoriteDataFileToDownload(): (c: Cursor)
      reads this
      requires Valid()
      ensures forall x :: x in c <==> x.id in favorites.rows && x.row == favorites.rows[x.id] && HasFileToDownload(x.row)
      ensures IdsIncreasing(c)
    {
      Scan(favorites, FileToDownloadRows)
    }

    function GetEntryDataNotSyncedAndUpdated(): (c: Cursor)
      reads this
      requires Valid()
      ensures forall x :: x in c <==> x.id in entries.rows && x.row == entries.rows[x.id] && ModifiedSinceSync(x.row, notSynced)
      ensures IdsIncreasing(c)
    {
      Scan(entries, ModifiedSinceSyncRows(notSynced))
    }

    function GetFavoriteDataNotSyncedAndUpdated(): (c: Cursor)
      reads this
      requires Valid()
      ensures forall x :: x in c <==> x.id in favorites.rows && x.row == favorites.rows[x.id] && ModifiedSinceSync(x.row, notSynced)
      ensures IdsIncreasing(c)
    {
      Scan(favorites, ModifiedSinceSyncRows(notSynced))
    }

    function GetEntryDataNotSyncedAndDeleted(): (c: Cursor)
      reads this
      requires Valid()
      ensures forall x :: x in c <==> x.id in entries.rows && x.row == entries.rows[x.id] && IsDeleted(x.row)
      ensures IdsIncreasing(c)
    {
      Scan(entries, DeletedRows)
    }

    function GetFavoriteDataNotSyncedAndDeleted(): (c: Cursor)
      reads this
      requires Valid()
      ensures forall x :: x in c <==> x.id in favorites.rows && x.row == favorites.rows[x.id] && IsDeleted(x.row)
      ensures IdsIncreasing(c)
    {
      Scan(favorites, DeletedRows)
    }

    function GetFavoriteTableComplete(): (c: Cursor)
      reads this
      requires Valid()
      ensures forall x :: x in c <==> x.id in favorites.rows && x.row == favorites.rows[x.id] && IsLive(x.row)
      ensures IdsIncreasing(c)
    {
      Scan(favorites, LiveRows)
    }

    // The date listings of live entries.

    function GetEntryTableDateDatabaseDescending(): (c: Cursor)
      reads this
      requires Valid()
      ensures forall x :: x in c <==> x.id in entries.rows && x.row == entries.rows[x.id] && IsLive(x.row)
      ensures SortedBy(c, true)
    {
      Listing(entries, LiveRows, true)
    }

    function GetEntryTableDateDatabaseAscending(): (c: Cursor)
      reads this
      requires Valid()
      ensures forall x :: x in c <==> x.id in entries.rows && x.row == entries.rows[x.id] && IsLive(x.row)
      ensures SortedBy(c, false)
    {
      Listing(entries, LiveRows, false)
    }

    /** getEntryTableDateDatabaseDescending(String id): the live entries among a list of ids. */
    function GetEntryTableDateDatabaseDescendingOf(id: Option<string>): (r: Outcome<Cursor>)
      reads this
      requires Valid()
      ensures r.Threw? <==> IdListClause(id).None?
      ensures r.Returned? ==> SortedBy(r.value, true)
      ensures r.Returned? ==> forall x :: x in r.value <==>
        x.id in IdListClause(id).value && x.id in entries.rows && x.row == entries.rows[x.id] && IsLive(x.row)
    {
      match IdListClause(id)
      case None => Threw
      case Some(ids) => Returned(Listing(entries, LiveIdIn(ids), true))
    }

    function GetEntryTableDateDatabaseAscendingOf(id: Option<string>): (r: Outcome<Cursor>)
      reads this
      requires Valid()
      ensures r.Threw? <==> IdListClause(id).None?
      ensures r.Returned? ==> SortedBy(r.value, false)
      ensures r.Returned? ==> forall x :: x in r.value <==>
        x.id in IdListClause(id).value && x.id in entries.rows && x.row == entries.rows[x.id] && IsLive(x.row)
    {
      match IdListClause(id)
      case None => Threw
      case Some(ids) => Returned(Listing(entries, LiveIdIn(ids), false))
    }

    // Properties relating several operations.

    /** Looking up the id of a stored hash and then the hash of that id gives the hash back. */
    lemma EntryHashOfIdOfHash(hash: string)
      requires Valid() && GetEntryIdByHash(hash) != ""
      ensures GetEntryHashById(GetEntryIdByHash(hash)) == hash
    {
    }

    lemma FavoriteHashOfIdOfHash(hash: string)
      requires Valid() && GetFavIdByHash(hash) != ""
      ensures GetFavHashById(GetFavIdByHash(hash)) == hash
    {
    }

    /** When row `k` alone holds its hash, looking up its hash and then that hash's id gives `k` back. */
    lemma EntryIdOfHashOfId(k: nat)
      requires Valid() && k in entries.rows
      requires forall j :: j in entries.rows && entries.rows[j].myHash == entries.rows[k].myHash ==> j == k
      ensures GetEntryIdByHash(GetEntryHashById(DecimalText(k))) == DecimalText(k)
    {
      ParseIdOfDecimalText(k);
      var id := GetEntryIdByHash(entries.rows[k].myHash);
      DecimalTextInjective(ParseId(id).id, k);
    }

    lemma FavoriteIdOfHashOfId(k: nat)
      requires Valid() && k in favorites.rows
      requires forall j :: j in favorites.rows && favorites.rows[j].myHash == favorites.rows[k].myHash ==> j == k
      ensures GetFavIdByHash(GetFavHashById(DecimalText(k))) == DecimalText(k)
    {
      ParseIdOfDecimalText(k);
      var id := GetFavIdByHash(favorites.rows[k].myHash);
      DecimalTextInjective(ParseId(id).id, k);
    }

    /**
     * The sync's three entry queries split the work: a created row is never
     * also an updated one, an updated row is never a deleted one, and every
     * row is in exactly one of the live listing and the deleted query.
     */
    lemma EntrySyncQueriesDisjoint()
      requires Valid()
      ensures forall x :: x in GetEntryDataNotSyncedAndCreated() ==> x !in GetEntryDataNotSyncedAndUpdated()
      ensures forall x :: x in GetEntryDataNotSyncedAndUpdated() ==> x !in GetEntryDataNotSyncedAndDeleted()
      ensures forall k :: k in entries.rows ==>
        (Record(k, entries.rows[k]) in GetEntryTableDateDatabaseAscending() <==>
         Record(k, entries.rows[k]) !in GetEntryDataNotSyncedAndDeleted())
    {
      forall x | x in GetEntryDataNotSyncedAndCreated() ensures x !in GetEntryDataNotSyncedAndUpdated() {
        NeverSyncedExcludesModified(x.row, notSynced);
      }
      forall k | k in entries.rows {
        LiveExactlyWhenNotDeleted(entries.rows[k]);
      }
    }

    lemma FavoriteSyncQueriesDisjoint()
      requires Valid()
      ensures forall x :: x in GetFavoriteDataNotSyncedAndCreated() ==> x !in GetFavoriteDataNotSyncedAndUpdated()
      ensures forall x :: x in GetFavoriteDataNotSyncedAndUpdated() ==> x !in GetFavoriteDataNotSyncedAndDeleted()
      ensures forall k :: k in favorites.rows ==>
        (Record(k, favorites.rows[k]) in GetFavoriteTableComplete() <==>
         Record(k, favorites.rows[k]) !in GetFavoriteDataNotSyncedAndDeleted())
    {
      forall x | x in GetFavoriteDataNotSyncedAndCreated() ensures x !in GetFavoriteDataNotSyncedAndUpdated() {
        NeverSyncedExcludesModified(x.row, notSynced);
      }
      forall k | k in favorites.rows {
        LiveExactlyWhenNotDeleted(favorites.rows[k]);
      }
    }

    /**
     * The ascending and descending listings order two entries with different
     * dates oppositely.
     */
    lemma DateListingsAreOpposite(x: Record, y: Record)
      requires Valid()
      requires x in GetEntryTableDateDatabaseAscending() && y in GetEntryTableDateDatabaseAscending()
      requires x.row.dateTime != y.row.dateTime
      ensures ComesBefore(GetEntryTableDateDatabaseAscending(), x, y) <==>
        ComesBefore(GetEntryTableDateDatabaseDescending(), y, x)
    {
      ListingsInOppositeOrders(entries, LiveRows, x, y);
    }

    /**
     * A list of chosen ids, each followed by a comma (the shape the
     * one-character strip of the listing implies), lists exactly the live
     * entries among those ids.
     */
    lemma IdListListingSelectsChosenIds(ids: seq<nat>)
      requires Valid()
      ensures GetEntryTableDateDatabaseDescendingOf(Some(IdListText(ids))).Returned?
      ensures forall x :: x in GetEntryTableDateDatabaseDescendingOf(Some(IdListText(ids))).value <==>
        (exists k :: 0 <= k < |ids| && x.id == ids[k]) && x.id in entries.rows && x.row == entries.rows[x.id] && IsLive(x.row)
    {
      IdListRoundTrip(ids);
      var chosen := set x | x in ids :: x as int;
      assert IdListClause(Some(IdListText(ids))) == Some(chosen);
      forall id ensures id in chosen <==> exists k :: 0 <= k < |ids| && id == ids[k] {
        if id in chosen {
          var n :| n in ids && id == n as int;
          var k :| 0 <= k < |ids| && ids[k] == n;
        } else {
          forall k | 0 <= k < |ids| ensures id != ids[k] {
            assert ids[k] in ids;
          }
        }
      }
    }
  }
}
