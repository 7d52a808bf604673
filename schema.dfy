/**
 * The schema state machine of MyCreateOpenHelper: the database's tables as a
 * map from table name to its column names, the statements onCreate and
 * onUpgrade issue, and what each upgrade step leaves behind.
 */
module Schema {
  import opened Records

  type Layout = map<string, set<string>>

  const DbVersion: int := 3
  const EntryTableName: string := "EntryTable"
  const FavoriteTableName: string := "FavoriteTable"
  const PreviousEntryTableName: string := "ExpenseTrackerTable"
  const KeyId: string := "_id"

  /** The columns ENTRY_TABLE_CREATE declares. */
  const EntryColumns: set<string> :=
    {KeyId, ColumnName(Tag), ColumnName(Amount), ColumnName(DateTime), ColumnName(Location),
     ColumnName(FavoriteLink), ColumnName(Type), ColumnName(IdFromServer), ColumnName(UpdatedAt),
     ColumnName(MyHash), ColumnName(Deleted), ColumnName(SyncBit), ColumnName(FileUploaded),
     ColumnName(FileToDownload), ColumnName(FileUpdatedAt)}

  /** The columns FAVORITE_TABLE_CREATE declares: those of EntryTable but DATE_TIME and FAVORITE. */
  const FavoriteColumns: set<string> :=
    {KeyId, ColumnName(Tag), ColumnName(Amount), ColumnName(Type), ColumnName(Location),
     ColumnName(IdFromServer), ColumnName(UpdatedAt), ColumnName(MyHash), ColumnName(Deleted),
     ColumnName(SyncBit), ColumnName(FileUploaded), ColumnName(FileToDownload), ColumnName(FileUpdatedAt)}

  /** Every column the rows carry is declared by EntryTable, and all but two by FavoriteTable. */
  lemma DeclaredColumnsCoverRows(c: Column)
    ensures ColumnName(c) in EntryColumns
    ensures c != DateTime && c != FavoriteLink <==> ColumnName(c) in FavoriteColumns
  {
  }

  /** `create table if not exists`: a table already present is left exactly as it is. */
  function CreatedIfAbsent(s: Layout, name: string, columns: set<string>): (r: Layout)
    ensures r.Keys == s.Keys + {name}
    ensures name !in s ==> r[name] == columns
    ensures forall n :: n in s ==> r[n] == s[n]
  {
    if name in s then s else s[name := columns]
  }

  /** `ALTER TABLE a RENAME TO b`; None (an SQLException) when `a` is missing or `b` is taken. */
  function Renamed(s: Layout, from: string, to: string): (r: Option<Layout>)
    ensures r.None? <==> from !in s || to in s
    ensures r.Some? ==> r.value.Keys == s.Keys - {from} + {to} && r.value[to] == s[from]
    ensures r.Some? ==> forall n :: n in s && n != from ==> r.value[n] == s[n]
  {
    if from !in s || to in s then None
    else Some((map n | n in s && n != from :: s[n])[to := s[from]])
  }

  /** `ALTER TABLE t ADD c`; None when `t` is missing or already has `c`. */
  function ColumnAdded(s: Layout, table: string, column: string): (r: Option<Layout>)
    ensures r.None? <==> table !in s || column in s[table]
    ensures r.Some? ==> r.value.Keys == s.Keys && r.value[table] == s[table] + {column}
    ensures r.Some? ==> forall n :: n in s && n != table ==> r.value[n] == s[n]
  {
    if table !in s || column in s[table] then None
    else Some(s[table := s[table] + {column}])
  }

  /** The schema onCreate leaves: both tables, each created only if it does not exist. */
  function AfterCreate(s: Layout): Layout {
    CreatedIfAbsent(CreatedIfAbsent(s, EntryTableName, EntryColumns), FavoriteTableName, FavoriteColumns)
  }

  /**
   * The schema onUpgrade leaves when called from `prevVersion`: one step,
   * chosen by the previous version alone, and None when its statement fails.
   */
  function AfterUpgrade(s: Layout, prevVersion: int): Option<Layout>
    requires 1 <= prevVersion < DbVersion
  {
    if prevVersion == 1 then Renamed(s, PreviousEntryTableName, EntryTableName)
    else ColumnAdded(s, FavoriteTableName, ColumnName(Location))
  }

  /** onCreate on a new database gives the two declared tables and nothing else. */
  lemma CreateOnEmptyGivesDeclaredTables()
    ensures AfterCreate(map[]) == map[EntryTableName := EntryColumns, FavoriteTableName := FavoriteColumns]
  {
    assert AfterCreate(map[]).Keys == {EntryTableName, FavoriteTableName};
  }

  /** Creating the tables a second time changes nothing. */
  lemma CreateTwiceChangesNothing(s: Layout)
    ensures AfterCreate(AfterCreate(s)) == AfterCreate(s)
  {
    var once := AfterCreate(s);
    assert EntryTableName in once && FavoriteTableName in once;
  }

  /** onCreate never alters a table that is already there, even one with an old column set. */
  lemma CreateKeepsExistingTables(s: Layout)
    ensures AfterCreate(s).Keys == s.Keys + {EntryTableName, FavoriteTableName}
    ensures forall n :: n in s ==> AfterCreate(s)[n] == s[n]
  {
  }

  /**
   * From version 1 the upgrade only renames ExpenseTrackerTable to
   * EntryTable: the columns move with it and every other table, FavoriteTable
   * included, is left as it was.
   */
  lemma UpgradeFromOneOnlyRenames(s: Layout)
    requires PreviousEntryTableName in s && EntryTableName !in s
    ensures AfterUpgrade(s, 1).Some?
    ensures AfterUpgrade(s, 1).value.Keys == s.Keys - {PreviousEntryTableName} + {EntryTableName}
    ensures AfterUpgrade(s, 1).value[EntryTableName] == s[PreviousEntryTableName]
    ensures forall n :: n in s && n != PreviousEntryTableName ==> AfterUpgrade(s, 1).value[n] == s[n]
  {
  }

  /**
   * From version 2 the upgrade only adds LOCATION to FavoriteTable; a
   * version-2 FavoriteTable thereby gets the declared columns.
   */
  lemma UpgradeFromTwoOnlyAddsLocation(s: Layout)
    requires FavoriteTableName in s && ColumnName(Location) !in s[FavoriteTableName]
    ensures AfterUpgrade(s, 2).Some?
    ensures AfterUpgrade(s, 2).value.Keys == s.Keys
    ensures AfterUpgrade(s, 2).value[FavoriteTableName] == s[FavoriteTableName] + {ColumnName(Location)}
    ensures forall n :: n in s && n != FavoriteTableName ==> AfterUpgrade(s, 2).value[n] == s[n]
    ensures s[FavoriteTableName] == FavoriteColumns - {ColumnName(Location)} ==>
      AfterUpgrade(s, 2).value[FavoriteTableName] == FavoriteColumns
  {
    if s[FavoriteTableName] == FavoriteColumns - {ColumnName(Location)} {
      assert ColumnName(Location) in FavoriteColumns;
    }
  }

  /**
   * The version-2 step is not idempotent: running it on the schema it has
   * already upgraded fails, since LOCATION is then present.
   */
  lemma UpgradeFromTwoTwiceFails(s: Layout)
    requires AfterUpgrade(s, 2).Some?
    ensures AfterUpgrade(AfterUpgrade(s, 2).value, 2).None?
  {
  }

  /** A version-1 database upgraded straight to version 3 keeps its FavoriteTable columns. */
  lemma UpgradeFromOneSkipsLaterSteps(s: Layout)
    requires PreviousEntryTableName in s && EntryTableName !in s && FavoriteTableName in s
    ensures AfterUpgrade(s, 1).Some? && AfterUpgrade(s, 1).value[FavoriteTableName] == s[FavoriteTableName]
  {
  }

  /** The database file's tables, changed in place by the helper's callbacks. */
  class Database {
    var tables: Layout

    constructor(tables: Layout)
      ensures this.tables == tables
    {
      this.tables := tables;
    }

    /** onCreate: ENTRY_TABLE_CREATE, then FAVORITE_TABLE_CREATE. */
    method OnCreate()
      modifies this
      ensures tables == AfterCreate(old(tables))
      ensures EntryTableName in tables && FavoriteTableName in tables
    {
      tables := CreatedIfAbsent(tables, EntryTableName, EntryColumns);
      tables := CreatedIfAbsent(tables, FavoriteTableName, FavoriteColumns);
    }

    /**
     * onUpgrade, which the helper calls only with an older version than the
     * current one: `ok` is false when the statement throws, and the helper's
     * transaction then leaves the tables as they were.
     */
    method OnUpgrade(prevVersion: int, newVersion: int) returns (ok: bool)
      requires 1 <= prevVersion < newVersion == DbVersion
      modifies this
      ensures ok <==> AfterUpgrade(old(tables), prevVersion).Some?
      ensures tables == if ok then AfterUpgrade(old(tables), prevVersion).value else old(tables)
    {
      ok := true;
      if prevVersion == 1 {
        var r := Renamed(tables, PreviousEntryTableName, EntryTableName);
        if r.None? {
          ok := false;
          return;
        }
        tables := r.value;
      }
      if prevVersion == 2 {
        var r := ColumnAdded(tables, FavoriteTableName, ColumnName(Location));
        if r.None? {
          ok := false;
          return;
        }
        tables := r.value;
      }
      if prevVersion == 3 {
        assert false;
      }
    }
  }
}
