# Expense tracker local store, in Dafny

This project models `DatabaseAdapter`. It is the gateway between the expense
tracker and its SQLite database, which holds two tables:

- **EntryTable** holds the expenses;
- **FavoriteTable** holds the reusable templates.

Both tables share one envelope of sync fields: MY_HASH, ID_FROM_SERVER,
UPDATED_AT, SYNC_BIT, DELETED, FILE_UPLOADED, FILE_TO_DOWNLOAD and
FILE_UPLOADED_AT. On these tables the gateway offers:

- inserts, where the row hash defaults to a fresh one;
- partial edits by `_id` or by MY_HASH, which write only the non-null fields;
- soft deletes, which set the delete bit, and permanent deletes;
- two writes that force a resync;
- lookups between ids and hashes;
- the queries the sync engine polls;
- the date listings;
- the schema callbacks onCreate and onUpgrade.

The modules:

- **Records**: rows, the Favorite and Entry objects, ContentValues and the
  UPDATE overlay. It also has the method that builds an edit's ContentValues
  with one conditional put per field, and the row predicates behind the WHERE
  clauses (live, deleted, never synced, modified since sync, file not
  uploaded, file to download).
- **Decimal**: the text forms of ids. This covers the decimal text a cursor
  returns for `_id`, how an id text spliced into `_id=<text>` is read, and the
  comma-terminated id list of the id-restricted listings with its
  trailing-character strip.
- **Tables**: a table is a map from `_id` to row plus the AUTOINCREMENT
  counter. This module has the meaning of each WHERE clause, SELECT in `_id`
  order, ORDER BY DATE_TIME, UPDATE with the UNIQUE(ID_FROM_SERVER) rollback,
  DELETE and INSERT.
- **Adapter**: the class `DatabaseAdapter`. It has one method per writing
  operation and one function per reading operation, and its invariant
  `Valid()` holds the table constraints. The module also holds lemmas about
  the gateway's own ContentValues: the delete bit, the resync mark and the
  favorite unlink.
- **Schema**: the schema as a map from table name to column names, with
  `create table if not exists`, `RENAME` and `ADD`. The class `Database` has
  the onCreate and onUpgrade callbacks.

Some facts about the platform are modelled as follows:

- `SQLiteDatabase.insert` returns -1 when a constraint fails. Those are NOT
  NULL on TYPE and DATE_TIME, and UNIQUE on ID_FROM_SERVER, where NULLs are
  distinct.
- AUTOINCREMENT hands out the counter as the new id and never reuses an id.
- An UPDATE that would duplicate an ID_FROM_SERVER is rolled back and throws
  an `SQLiteConstraintException`.
- An update with empty ContentValues throws `IllegalArgumentException`. This
  matters for the edits:
  - `editFavoriteTable*` catch `Exception`, so they return false;
  - `editEntryTable*` catch only `SQLiteException`, so the exception escapes.
    The model returns `Outcome.Threw`.
- A Java `null` spliced into SQL text reads `null`:
  - `_id=null` matches no row;
  - `MY_HASH="null"` compares with the text "null".
- An id text that is neither digits nor `null` makes the statement fail.
  Methods with a handler then return false or "". `findEntryById` has no
  handler, so it lets the exception out (`Threw`). The same holds for the
  id-list listings.
- A cursor without ORDER BY lists its rows in `_id` order.

## Model

| member | source | states |
|---|---|---|
| Records.OverlayWritesExactlyItsColumns | src/com/vinsol/expensetracker/helpers/DatabaseAdapter.java:442-445 | an UPDATE gives every put column its put value and leaves every other column as it was |
| Records.InsertedRow | src/com/vinsol/expensetracker/helpers/DatabaseAdapter.java:128-149 | the inserted row holds every field of the object exactly, null included; MY_HASH is the caller's hash when non-empty, else the fresh hash |
| Records.InsertedEntryRow | src/com/vinsol/expensetracker/helpers/DatabaseAdapter.java:120-126 | an entry insert also stores DATE_TIME and FAVORITE from the entry, and keeps the same hash rule |
| Records.FavoriteChangesAt | src/com/vinsol/expensetracker/helpers/DatabaseAdapter.java:417-440 | a favorite edit puts a column exactly when it is one of the eleven editable columns and the field is non-null, with the field's value |
| Records.EntryChangesAt | src/com/vinsol/expensetracker/helpers/DatabaseAdapter.java:491-516 | the same for an entry edit, whose editable columns add DATE_TIME and FAVORITE |
| Records.PutIfNotNull | src/com/vinsol/expensetracker/helpers/DatabaseAdapter.java:419-420 | one conditional put extends the values built so far by exactly the next field in put order |
| Records.FavoriteEditValues | src/com/vinsol/expensetracker/helpers/DatabaseAdapter.java:417-440 | the ContentValues built put by put equal the declarative change set; MY_HASH, DATE_TIME and FAVORITE are never put |
| Records.EntryEditValues | src/com/vinsol/expensetracker/helpers/DatabaseAdapter.java:491-516 | the entry's ContentValues equal its declarative change set; MY_HASH is never put |
| Records.FavoriteEditEffect | src/com/vinsol/expensetracker/helpers/DatabaseAdapter.java:417-452 | on an edited row every non-null field overwrites its column, every null field leaves it; MY_HASH, DATE_TIME and FAVORITE are untouched |
| Records.EntryEditEffect | src/com/vinsol/expensetracker/helpers/DatabaseAdapter.java:491-530 | the same for an entry; MY_HASH is untouched and DATE_TIME stays non-null |
| Records.LiveExactlyWhenNotDeleted | src/com/vinsol/expensetracker/helpers/DatabaseAdapter.java:670-676 | a row satisfies the live clause exactly when it fails the deleted clause |
| Records.NeverSyncedExcludesModified | src/com/vinsol/expensetracker/helpers/DatabaseAdapter.java:583-611 | no row is both "not synced and created" and "not synced and updated" |
| Decimal.DecimalText | src/com/vinsol/expensetracker/helpers/DatabaseAdapter.java:220-234 | the id text a cursor returns is a non-empty digit string without a comma and without a leading zero |
| Decimal.DecimalRoundTrip | src/com/vinsol/expensetracker/helpers/DatabaseAdapter.java:220-264 | reading back the decimal text of an id gives the id |
| Decimal.DecimalTextInjective | src/com/vinsol/expensetracker/helpers/DatabaseAdapter.java:220-249 | different ids have different id texts |
| Decimal.ParseIdOfDecimalText | src/com/vinsol/expensetracker/helpers/DatabaseAdapter.java:251-279 | the id text a lookup returns is read back by `_id=` as the same id |
| Decimal.StripLastDropsTerminator | src/com/vinsol/expensetracker/helpers/DatabaseAdapter.java:628-630 | a non-empty text followed by any one character is given back without that character |
| Decimal.ParseIdListOfPieces | src/com/vinsol/expensetracker/helpers/DatabaseAdapter.java:631 | comma-free pieces joined with commas are accepted exactly when every piece is a non-empty digit string, and then name the set of the pieces' values; otherwise the statement fails |
| Decimal.IdListRoundTrip | src/com/vinsol/expensetracker/helpers/DatabaseAdapter.java:627-633 | a list of ids each followed by a comma (the shape the one-character strip implies), once stripped, is read as exactly the set of those ids |
| Tables.Scan | src/com/vinsol/expensetracker/helpers/DatabaseAdapter.java:573-621 | a SELECT lists exactly the rows the clause selects, each once, in increasing `_id` order |
| Tables.First | src/com/vinsol/expensetracker/helpers/DatabaseAdapter.java:220-234 | moveToFirst finds none exactly when no row is selected, else the selected row with the least id |
| Tables.Update | src/com/vinsol/expensetracker/helpers/DatabaseAdapter.java:61 | an accepted UPDATE keeps ID_FROM_SERVER unique, the row set and the counter |
| Tables.UpdateChangesOnlySelected | src/com/vinsol/expensetracker/helpers/DatabaseAdapter.java:442-445 | an UPDATE leaves unselected rows unchanged and writes exactly the put columns of selected rows |
| Tables.UpdateWithoutServerIdSucceeds | src/com/vinsol/expensetracker/helpers/DatabaseAdapter.java:151-161 | an UPDATE that does not write ID_FROM_SERVER is never rolled back |
| Tables.UpdateFailsExactlyOnServerIdClash | src/com/vinsol/expensetracker/helpers/DatabaseAdapter.java:526-529 | an UPDATE writing ID_FROM_SERVER := n is rolled back exactly when it selects two rows or one row while another holds n |
| Tables.UpdateByIdIsUpdateByHash | src/com/vinsol/expensetracker/helpers/DatabaseAdapter.java:454-489 | an update keyed by id equals one keyed by hash when exactly that row holds that hash |
| Tables.DeleteRemovesExactlySelected | src/com/vinsol/expensetracker/helpers/DatabaseAdapter.java:281-304 | a DELETE removes exactly the selected rows, keeps the others unchanged, keeps the constraints, and leaves nothing the clause selects |
| Tables.InsertAddsOneRow | src/com/vinsol/expensetracker/helpers/DatabaseAdapter.java:54 | an accepted insert adds one row under a fresh id above all others, changes no other row, keeps the constraints and is found by its id |
| Tables.InsertInOrder | src/com/vinsol/expensetracker/helpers/DatabaseAdapter.java:623-625 | placing a row into a date-sorted cursor keeps it sorted and adds exactly that row |
| Tables.SortByDate | src/com/vinsol/expensetracker/helpers/DatabaseAdapter.java:623-625 | ORDER BY DATE_TIME yields a sorted permutation of the selected rows |
| Tables.Listing | src/com/vinsol/expensetracker/helpers/DatabaseAdapter.java:623-645 | a listing holds exactly the selected rows, sorted by DATE_TIME with NULL lowest |
| Tables.ListingsInOppositeOrders | src/com/vinsol/expensetracker/helpers/DatabaseAdapter.java:623-645 | for two rows with different dates, the ascending listing puts them in the opposite order of the descending one |
| Adapter.OverlaidKeepsShape | src/com/vinsol/expensetracker/helpers/DatabaseAdapter.java:57 | an update keeps the row set and the counter, keeps DATE_TIME non-null in EntryTable, and adds no DATE_TIME or FAVORITE to FavoriteTable |
| Adapter.SoftDeleteMarksSelected | src/com/vinsol/expensetracker/helpers/DatabaseAdapter.java:151-173 | a soft delete always succeeds and sets DELETED on exactly the matching rows, with no other column or row changed and the row count kept |
| Adapter.SoftDeletedRowsLeaveLiveViews | src/com/vinsol/expensetracker/helpers/DatabaseAdapter.java:666-676 | after a soft delete no matched row is live, and each is in the deleted query |
| Adapter.UploadResetMarksSelected | src/com/vinsol/expensetracker/helpers/DatabaseAdapter.java:175-203 | the resync mark always succeeds and sets FILE_UPLOADED false and SYNC_BIT "not synced" on exactly the row with that id |
| Adapter.LinkClearedUnlinks | src/com/vinsol/expensetracker/helpers/DatabaseAdapter.java:658-664 | entries that named h now have FAVORITE "" and SYNC_BIT "not synced", the others are unchanged, and for h != "" no entry names h |
| Adapter.FavoriteEditResult | src/com/vinsol/expensetracker/helpers/DatabaseAdapter.java:417-489 | a successful favorite edit writes each non-null field, keeps null fields' columns and MY_HASH, and leaves unmatched rows alone |
| Adapter.EntryEditResult | src/com/vinsol/expensetracker/helpers/DatabaseAdapter.java:491-571 | the same for the entry edits |
| Adapter.FavoriteEditPathsAgree | src/com/vinsol/expensetracker/helpers/DatabaseAdapter.java:417-489 | editing a favorite by id and by hash have the same effect when id and hash name the same single row |
| Adapter.EntryEditPathsAgree | src/com/vinsol/expensetracker/helpers/DatabaseAdapter.java:491-571 | the same for the two entry edits |
| Adapter.DatabaseAdapter.constructor | src/com/vinsol/expensetracker/helpers/DatabaseAdapter.java:685-688 | a new database has both tables empty with their counters at 1 |
| Adapter.DatabaseAdapter.InsertToFavoriteTable | src/com/vinsol/expensetracker/helpers/DatabaseAdapter.java:114-118 | returns -1 and changes nothing exactly on a null TYPE or taken server id; otherwise returns the fresh id, adds the row, whose hash the id looks up |
| Adapter.DatabaseAdapter.InsertToEntryTable | src/com/vinsol/expensetracker/helpers/DatabaseAdapter.java:120-126 | the same, also rejecting a null DATE_TIME |
| Adapter.DatabaseAdapter.DeleteFavoriteEntryByHash | src/com/vinsol/expensetracker/helpers/DatabaseAdapter.java:151-161 | returns true and soft-deletes every favorite with the hash, which then leaves getFavoriteTableComplete |
| Adapter.DatabaseAdapter.DeleteFavoriteEntryByID | src/com/vinsol/expensetracker/helpers/DatabaseAdapter.java:163-173 | false and no change exactly for an id text that is not SQL; else soft-deletes that row, which leaves getFavoriteTableComplete |
| Adapter.DatabaseAdapter.DeleteEntryTableByHash | src/com/vinsol/expensetracker/helpers/DatabaseAdapter.java:205-218 | returns true and soft-deletes every entry with the hash, which then leaves the date listings |
| Adapter.DatabaseAdapter.DeleteEntryTableMyHash | src/com/vinsol/expensetracker/helpers/DatabaseAdapter.java:334-347 | the same statement as deleteEntryTableByHash |
| Adapter.DatabaseAdapter.DeleteEntryTableEntryID | src/com/vinsol/expensetracker/helpers/DatabaseAdapter.java:306-320 | false exactly for a bad id text; else soft-deletes that entry, which then leaves the date listings |
| Adapter.DatabaseAdapter.PermanentDeleteEntryTableByHash | src/com/vinsol/expensetracker/helpers/DatabaseAdapter.java:281-292 | removes exactly the entries with the hash; findEntryByMyHash is then false and getEntryIdByHash "" |
| Adapter.DatabaseAdapter.PermanentDeleteFavoriteTableByHash | src/com/vinsol/expensetracker/helpers/DatabaseAdapter.java:294-304 | removes exactly the favorites with the hash; findFavoriteByMyHash is then false and getFavIdByHash "" |
| Adapter.DatabaseAdapter.PermanentDeleteFavoriteTableMyHash | src/com/vinsol/expensetracker/helpers/DatabaseAdapter.java:322-332 | the same statement as permanentDeleteFavoriteTableByHash |
| Adapter.DatabaseAdapter.PermanentDeleteFavoriteTableEntryID | src/com/vinsol/expensetracker/helpers/DatabaseAdapter.java:349-359 | false exactly for a bad id text; else removes that favorite, whose hash lookup is then "" |
| Adapter.DatabaseAdapter.PermanentDeleteEntryTableEntryID | src/com/vinsol/expensetracker/helpers/DatabaseAdapter.java:404-415 | false exactly for a bad id text; else removes that entry, after which findEntryById is false and getEntryHashById "" |
| Adapter.DatabaseAdapter.UpdateFileUploadedEntryTable | src/com/vinsol/expensetracker/helpers/DatabaseAdapter.java:175-188 | false exactly for a bad id text; else marks that entry for re-upload, after which it is in the "file not uploaded" query |
| Adapter.DatabaseAdapter.UpdateFileUploadedFavoriteTable | src/com/vinsol/expensetracker/helpers/DatabaseAdapter.java:190-203 | the same on FavoriteTable |
| Adapter.DatabaseAdapter.EditFavoriteTable | src/com/vinsol/expensetracker/helpers/DatabaseAdapter.java:417-452 | true exactly when some field is non-null and the update by id keeps server ids unique; the table is then the updated one, else unchanged |
| Adapter.DatabaseAdapter.EditFavoriteTableByHash | src/com/vinsol/expensetracker/helpers/DatabaseAdapter.java:454-489 | the same keyed by the favorite's hash |
| Adapter.DatabaseAdapter.EditEntryTable | src/com/vinsol/expensetracker/helpers/DatabaseAdapter.java:532-571 | throws exactly when no field is non-null; false and no change on a server id clash; otherwise true with the updated table |
| Adapter.DatabaseAdapter.EditEntryTableByHash | src/com/vinsol/expensetracker/helpers/DatabaseAdapter.java:491-530 | the same keyed by the entry's hash |
| Adapter.DatabaseAdapter.EditFavoriteHashEntryTable | src/com/vinsol/expensetracker/helpers/DatabaseAdapter.java:658-664 | unlinks every entry from favorite hash; afterwards no entry names that hash when it is non-empty |
| Adapter.DatabaseAdapter.GetEntryIdByHash | src/com/vinsol/expensetracker/helpers/DatabaseAdapter.java:220-234 | "" exactly when no entry holds the hash, deleted ones included; else the text of the least id holding it |
| Adapter.DatabaseAdapter.GetFavIdByHash | src/com/vinsol/expensetracker/helpers/DatabaseAdapter.java:236-249 | the same on FavoriteTable |
| Adapter.DatabaseAdapter.GetFavHashById | src/com/vinsol/expensetracker/helpers/DatabaseAdapter.java:251-264 | the hash of the favorite the id text names, or "" when it names none or is not SQL |
| Adapter.DatabaseAdapter.GetEntryHashById | src/com/vinsol/expensetracker/helpers/DatabaseAdapter.java:266-279 | the same on EntryTable |
| Adapter.DatabaseAdapter.FindEntryById | src/com/vinsol/expensetracker/helpers/DatabaseAdapter.java:361-370 | throws exactly for a bad id text; else true exactly when the named entry exists |
| Adapter.DatabaseAdapter.FindEntryByMyHash | src/com/vinsol/expensetracker/helpers/DatabaseAdapter.java:372-381 | true exactly when some entry, deleted or not, holds the hash |
| Adapter.DatabaseAdapter.FindFavoriteByMyHash | src/com/vinsol/expensetracker/helpers/DatabaseAdapter.java:383-392 | true exactly when some favorite holds the hash |
| Adapter.DatabaseAdapter.GetFavoriteByHash | src/com/vinsol/expensetracker/helpers/DatabaseAdapter.java:394-397 | exactly the favorites with the hash, in id order |
| Adapter.DatabaseAdapter.GetEntryByHash | src/com/vinsol/expensetracker/helpers/DatabaseAdapter.java:399-402 | exactly the entries with the hash, in id order |
| Adapter.DatabaseAdapter.GetEntryDataFileNotUploaded | src/com/vinsol/expensetracker/helpers/DatabaseAdapter.java:573-576 | exactly the entries whose FILE_UPLOADED is null or false, in id order |
| Adapter.DatabaseAdapter.GetFavoriteDataFileNotUploaded | src/com/vinsol/expensetracker/helpers/DatabaseAdapter.java:578-581 | the same on FavoriteTable |
| Adapter.DatabaseAdapter.GetEntryDataNotSyncedAndCreated | src/com/vinsol/expensetracker/helpers/DatabaseAdapter.java:583-586 | exactly the entries whose UPDATED_AT is null or "" |
| Adapter.DatabaseAdapter.GetFavoriteDataNotSyncedAndCreated | src/com/vinsol/expensetracker/helpers/DatabaseAdapter.java:588-591 | the same on FavoriteTable |
| Adapter.DatabaseAdapter.GetEntryDataFileToDownload | src/com/vinsol/expensetracker/helpers/DatabaseAdapter.java:593-596 | exactly the entries whose FILE_TO_DOWNLOAD is true |
| Adapter.DatabaseAdapter.GetFavoriteDataFileToDownload | src/com/vinsol/expensetracker/helpers/DatabaseAdapter.java:598-601 | the same on FavoriteTable |
| Adapter.DatabaseAdapter.GetEntryDataNotSyncedAndUpdated | src/com/vinsol/expensetracker/helpers/DatabaseAdapter.java:603-606 | exactly the live entries with a non-empty UPDATED_AT and SYNC_BIT "not synced" |
| Adapter.DatabaseAdapter.GetFavoriteDataNotSyncedAndUpdated | src/com/vinsol/expensetracker/helpers/DatabaseAdapter.java:608-611 | the same on FavoriteTable |
| Adapter.DatabaseAdapter.GetEntryDataNotSyncedAndDeleted | src/com/vinsol/expensetracker/helpers/DatabaseAdapter.java:613-616 | exactly the entries whose delete bit is set |
| Adapter.DatabaseAdapter.GetFavoriteDataNotSyncedAndDeleted | src/com/vinsol/expensetracker/helpers/DatabaseAdapter.java:618-621 | the same on FavoriteTable |
| Adapter.DatabaseAdapter.GetFavoriteTableComplete | src/com/vinsol/expensetracker/helpers/DatabaseAdapter.java:666-668 | exactly the live favorites, in id order |
| Adapter.DatabaseAdapter.GetEntryTableDateDatabaseDescending | src/com/vinsol/expensetracker/helpers/DatabaseAdapter.java:623-625 | exactly the live entries, latest DATE_TIME first |
| Adapter.DatabaseAdapter.GetEntryTableDateDatabaseAscending | src/com/vinsol/expensetracker/helpers/DatabaseAdapter.java:635-637 | exactly the live entries, earliest DATE_TIME first |
| Adapter.DatabaseAdapter.GetEntryTableDateDatabaseDescendingOf | src/com/vinsol/expensetracker/helpers/DatabaseAdapter.java:627-633 | throws exactly when the stripped id list is not numeric; else the live entries among the listed ids, latest first |
| Adapter.DatabaseAdapter.GetEntryTableDateDatabaseAscendingOf | src/com/vinsol/expensetracker/helpers/DatabaseAdapter.java:639-645 | the same, earliest first |
| Adapter.DatabaseAdapter.EntryHashOfIdOfHash | src/com/vinsol/expensetracker/helpers/DatabaseAdapter.java:220-279 | looking up the id of a stored entry hash and then that id's hash gives the hash back |
| Adapter.DatabaseAdapter.FavoriteHashOfIdOfHash | src/com/vinsol/expensetracker/helpers/DatabaseAdapter.java:236-264 | the same on FavoriteTable |
| Adapter.DatabaseAdapter.EntryIdOfHashOfId | src/com/vinsol/expensetracker/helpers/DatabaseAdapter.java:220-279 | for an entry whose hash no other entry holds, looking up its hash and then that hash's id gives its id text back |
| Adapter.DatabaseAdapter.FavoriteIdOfHashOfId | src/com/vinsol/expensetracker/helpers/DatabaseAdapter.java:236-264 | the same on FavoriteTable |
| Adapter.DatabaseAdapter.EntrySyncQueriesDisjoint | src/com/vinsol/expensetracker/helpers/DatabaseAdapter.java:583-625 | "created" and "updated" never share a row, nor "updated" and "deleted"; every entry is in exactly one of the live listing and the deleted query |
| Adapter.DatabaseAdapter.FavoriteSyncQueriesDisjoint | src/com/vinsol/expensetracker/helpers/DatabaseAdapter.java:588-668 | the same for FavoriteTable, with getFavoriteTableComplete as its live view |
| Adapter.DatabaseAdapter.DateListingsAreOpposite | src/com/vinsol/expensetracker/helpers/DatabaseAdapter.java:623-637 | two live entries with different dates come in opposite orders in the ascending and descending listings |
| Adapter.DatabaseAdapter.IdListListingSelectsChosenIds | src/com/vinsol/expensetracker/helpers/DatabaseAdapter.java:627-633 | a list of chosen ids each followed by a comma (the shape the one-character strip implies) never throws and lists exactly the live entries among those ids |
| Schema.DeclaredColumnsCoverRows | src/com/vinsol/expensetracker/helpers/DatabaseAdapter.java:52-86 | every row column is declared by EntryTable, and exactly those other than DATE_TIME and FAVORITE by FavoriteTable |
| Schema.CreatedIfAbsent | src/com/vinsol/expensetracker/helpers/DatabaseAdapter.java:52 | `create table if not exists` adds the table when absent and leaves every existing table as it was |
| Schema.Renamed | src/com/vinsol/expensetracker/helpers/DatabaseAdapter.java:698 | RENAME fails exactly when the source is missing or the target is taken; else the columns move to the new name and nothing else changes |
| Schema.ColumnAdded | src/com/vinsol/expensetracker/helpers/DatabaseAdapter.java:701 | ADD fails exactly when the table is missing or has the column; else only that table gains it |
| Schema.CreateOnEmptyGivesDeclaredTables | src/com/vinsol/expensetracker/helpers/DatabaseAdapter.java:685-688 | onCreate on a new database gives the two declared tables and nothing else |
| Schema.CreateTwiceChangesNothing | src/com/vinsol/expensetracker/helpers/DatabaseAdapter.java:685-688 | creating the tables twice changes nothing |
| Schema.CreateKeepsExistingTables | src/com/vinsol/expensetracker/helpers/DatabaseAdapter.java:71 | onCreate adds the missing tables and never alters an existing one |
| Schema.UpgradeFromOneOnlyRenames | src/com/vinsol/expensetracker/helpers/DatabaseAdapter.java:697-699 | from version 1 the upgrade only renames ExpenseTrackerTable to EntryTable, keeping its columns and every other table |
| Schema.UpgradeFromTwoOnlyAddsLocation | src/com/vinsol/expensetracker/helpers/DatabaseAdapter.java:700-702 | from version 2 it only adds LOCATION to FavoriteTable, which then has the declared columns |
| Schema.UpgradeFromTwoTwiceFails | src/com/vinsol/expensetracker/helpers/DatabaseAdapter.java:700-702 | the version-2 step fails when run again on its own result |
| Schema.UpgradeFromOneSkipsLaterSteps | src/com/vinsol/expensetracker/helpers/DatabaseAdapter.java:696-703 | a version-1 database upgraded to 3 keeps its FavoriteTable columns: the version-2 step is not chained |
| Schema.Database.OnCreate | src/com/vinsol/expensetracker/helpers/DatabaseAdapter.java:685-688 | runs both create statements; both tables exist afterwards |
| Schema.Database.OnUpgrade | src/com/vinsol/expensetracker/helpers/DatabaseAdapter.java:696-721 | applies the single step of the previous version; on failure the tables stay as they were; the version-3 branch is never taken |

## Left out

- `open`, `close`, the SQLiteOpenHelper lifecycle and `dropEntryTable`/`dropFavoriteTable` are platform plumbing. They are not modelled.
- Cursor objects are plain sequences of records. Column projection and closing are not modelled.
- WHERE clauses are modelled by their meaning, not their text:
  - hashes containing `"` are not modelled;
  - hashes that equal a column name are not modelled;
  - no SQL injection is modelled.
- An id text is read as a digit string, `null`, or a failing statement. Other valid SQL after `_id=` gets no other meaning, for example `-1`, `1+1` or `1 or 1`. The same goes for a non-numeric literal in the id list.
- `Utils.getMD5()` is an oracle, the `freshHash` argument of the inserts. Nothing is claimed about its uniqueness.
- `Strings.isEmpty` is taken as "null or of length zero".
- The `R.string.syncbit_not_synced` resource is the `notSynced` constant. It is taken to be a literal that compares equal to the SYNC_BIT text.
- `getFavoriteHashEntryTable` is not modelled. It projects only FAVORITE but reads MY_HASH, so its result is not defined.
- The SQL text of the version-3 upgrade is not modelled. That branch is unreachable with DB_VERSION = 3, and the model asserts only that.
- SQLite type affinity is not modelled. This covers the text defaults `'FALSE'`, DATE_TIME declared TEXT, and booleans stored as 0/1. DATE_TIME is ordered as an integer, with NULL lowest.
- Tables.Listing: rows with equal DATE_TIME keep `_id` order. SQLite leaves that order unspecified, so this is a modelling choice.
- The puts of the entry edits are modelled in favorite order, followed by DATE_TIME and FAVORITE. The source interleaves them, but the resulting ContentValues are the same.
- Failing storage (disk full, database locked) is not modelled. It would make any statement throw.
- The Favorite and Entry classes and CameraActivity.java are not part of this model. The fields of Favorite and Entry are taken from their uses in DatabaseAdapter.java.
- Schema.Database.OnUpgrade: an exception thrown by a step is modelled as `ok == false`, with the tables rolled back as the helper's transaction does. The exception itself is not modelled.
- onUpgrade runs one step chosen by `prevVersion`. The steps are not chained, and the version-2 step fails if repeated (Schema.UpgradeFromTwoTwiceFails, Schema.UpgradeFromOneSkipsLaterSteps).
- Logging (`Log.d`, `printStackTrace`) is not modelled. It has no effect on the tables or on any result.
