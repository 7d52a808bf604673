/**
 * The record model of the expense tracker's local store: the two record
 * objects handed to the persistence gateway (Favorite and Entry, every field
 * nullable), the stored row of either table, the typed column values that
 * Android's ContentValues carry, and the row predicates that the gateway's
 * WHERE clauses stand for.
 */
module Records {

  datatype Option<T> = None | Some(value: T)

  /** The columns of EntryTable and FavoriteTable other than `_id`. */
  datatype Column =
    | Tag | Amount | DateTime | Location | FavoriteLink | Type
    | IdFromServer | UpdatedAt | SyncBit | MyHash | Deleted
    | FileUploaded | FileToDownload | FileUpdatedAt

  /** The column names as the schema declares them (KEY_FILE_UPDATED_AT is "FILE_UPLOADED_AT"). */
  function ColumnName(c: Column): string {
    match c
    case Tag => "TAG"
    case Amount => "AMOUNT"
    case DateTime => "DATE_TIME"
    case Location => "LOCATION"
    case FavoriteLink => "FAVORITE"
    case Type => "TYPE"
    case IdFromServer => "ID_FROM_SERVER"
    case UpdatedAt => "UPDATED_AT"
    case SyncBit => "SYNC_BIT"
    case MyHash => "MY_HASH"
    case Deleted => "DELETED"
    case FileUploaded => "FILE_UPLOADED"
    case FileToDownload => "FILE_TO_DOWNLOAD"
    case FileUpdatedAt => "FILE_UPLOADED_AT"
  }

  /** A non-null value put into a ContentValues. */
  datatype Value = Text(text: string) | Integer(number: int) | Flag(flag: bool)

  /** Android's ContentValues: the columns an insert or update writes. */
  type ContentValues = map<Column, Value>

  /** The kind of value each column holds. */
  predicate Fits(c: Column, v: Value) {
    match c
    case DateTime | IdFromServer => v.Integer?
    case Deleted | FileUploaded | FileToDownload => v.Flag?
    case _ => v.Text?
  }

  predicate WellTyped(cv: ContentValues) {
    forall c :: c in cv ==> Fits(c, cv[c])
  }

  /**
   * One stored row of either table (the map key is its `_id`). TYPE and
   * MY_HASH are never NULL in a stored row: TYPE is declared NOT NULL and
   * every insert writes a hash. A FavoriteTable row has no DATE_TIME and no
   * FAVORITE column; its `dateTime` and `favorite` are None.
   */
  datatype Row = Row(
    tag: Option<string>,
    amount: Option<string>,
    dateTime: Option<int>,
    location: Option<string>,
    favorite: Option<string>,
    typeCode: string,
    idFromServer: Option<int>,
    updatedAt: Option<string>,
    myHash: string,
    deleted: Option<bool>,
    syncBit: Option<string>,
    fileUploaded: Option<bool>,
    fileToDownload: Option<bool>,
    fileUpdatedAt: Option<string>)

  function TextValue(o: Option<string>): Option<Value> {
    match o
    case None => None
    case Some(s) => Some(Text(s))
  }

  function IntegerValue(o: Option<int>): Option<Value> {
    match o
    case None => None
    case Some(n) => Some(Integer(n))
  }

  function FlagValue(o: Option<bool>): Option<Value> {
    match o
    case None => None
    case Some(b) => Some(Flag(b))
  }

  /** What column `c` of row `r` holds, None standing for SQL NULL. */
  function Get(r: Row, c: Column): Option<Value> {
    match c
    case Tag => TextValue(r.tag)
    case Amount => TextValue(r.amount)
    case DateTime => IntegerValue(r.dateTime)
    case Location => TextValue(r.location)
    case FavoriteLink => TextValue(r.favorite)
    case Type => Some(Text(r.typeCode))
    case IdFromServer => IntegerValue(r.idFromServer)
    case UpdatedAt => TextValue(r.updatedAt)
    case SyncBit => TextValue(r.syncBit)
    case MyHash => Some(Text(r.myHash))
    case Deleted => FlagValue(r.deleted)
    case FileUploaded => FlagValue(r.fileUploaded)
    case FileToDownload => FlagValue(r.fileToDownload)
    case FileUpdatedAt => TextValue(r.fileUpdatedAt)
  }

  function PutText(cv: ContentValues, c: Column, was: Option<string>): Option<string> {
    if c in cv && cv[c].Text? then Some(cv[c].text) else was
  }

  function PutInteger(cv: ContentValues, c: Column, was: Option<int>): Option<int> {
    if c in cv && cv[c].Integer? then Some(cv[c].number) else was
  }

  function PutFlag(cv: ContentValues, c: Column, was: Option<bool>): Option<bool> {
    if c in cv && cv[c].Flag? then Some(cv[c].flag) else was
  }

  /** The row after an UPDATE that writes the columns of `cv`. */
  function Overlay(r: Row, cv: ContentValues): Row {
    Row(
      PutText(cv, Tag, r.tag),
      PutText(cv, Amount, r.amount),
      PutInteger(cv, DateTime, r.dateTime),
      PutText(cv, Location, r.location),
      PutText(cv, FavoriteLink, r.favorite),
      if Type in cv && cv[Type].Text? then cv[Type].text else r.typeCode,
      PutInteger(cv, IdFromServer, r.idFromServer),
      PutText(cv, UpdatedAt, r.updatedAt),
      if MyHash in cv && cv[MyHash].Text? then cv[MyHash].text else r.myHash,
      PutFlag(cv, Deleted, r.deleted),
      PutText(cv, SyncBit, r.syncBit),
      PutFlag(cv, FileUploaded, r.fileUploaded),
      PutFlag(cv, FileToDownload, r.fileToDownload),
      PutText(cv, FileUpdatedAt, r.fileUpdatedAt))
  }

  /** An UPDATE writes exactly the columns it puts and leaves every other column as it was. */
  lemma OverlayWritesExactlyItsColumns(r: Row, cv: ContentValues)
    requires WellTyped(cv)
    ensures forall c :: Get(Overlay(r, cv), c) == if c in cv then Some(cv[c]) else Get(r, c)
  {
    forall c ensures Get(Overlay(r, cv), c) == if c in cv then Some(cv[c]) else Get(r, c) {
      assert c in cv ==> Fits(c, cv[c]);
    }
  }

  /**
   * The Favorite object the gateway receives: every field may be null.
   * `description` is written to TAG.
   */
  datatype Favorite = Favorite(
    id: Option<int>,
    description: Option<string>,
    amount: Option<string>,
    type_: Option<string>,
    location: Option<string>,
    idFromServer: Option<int>,
    syncBit: Option<string>,
    updatedAt: Option<string>,
    myHash: Option<string>,
    deleted: Option<bool>,
    fileUploaded: Option<bool>,
    fileToDownload: Option<bool>,
    fileUpdatedAt: Option<string>)

  /** An Entry is a Favorite with a timestamp and a link to the favorite it came from. */
  datatype Entry = Entry(base: Favorite, timeInMillis: Option<int>, favorite: Option<string>)

  /** The value a Favorite object supplies for column `c` (None: null, or no such field). */
  function Field(f: Favorite, c: Column): Option<Value> {
    match c
    case Tag => TextValue(f.description)
    case Amount => TextValue(f.amount)
    case DateTime => None
    case Location => TextValue(f.location)
    case FavoriteLink => None
    case Type => TextValue(f.type_)
    case IdFromServer => IntegerValue(f.idFromServer)
    case UpdatedAt => TextValue(f.updatedAt)
    case SyncBit => TextValue(f.syncBit)
    case MyHash => TextValue(f.myHash)
    case Deleted => FlagValue(f.deleted)
    case FileUploaded => FlagValue(f.fileUploaded)
    case FileToDownload => FlagValue(f.fileToDownload)
    case FileUpdatedAt => TextValue(f.fileUpdatedAt)
  }

  /** The value an Entry object supplies for column `c`. */
  function EntryField(e: Entry, c: Column): Option<Value> {
    match c
    case DateTime => IntegerValue(e.timeInMillis)
    case FavoriteLink => TextValue(e.favorite)
    case _ => Field(e.base, c)
  }

  /** Strings.isEmpty, taken as "null or of length zero". */
  predicate IsEmpty(s: Option<string>) {
    s.None? || s.value == ""
  }

  /** The hash an insert stores: the caller's when non-empty, otherwise the freshly generated one. */
  function StoredHash(myHash: Option<string>, freshHash: string): string {
    if IsEmpty(myHash) then freshHash else myHash.value
  }

  /** The row getInsertContentValues describes for a favorite whose TYPE is not null. */
  function InsertedRow(f: Favorite, freshHash: string): (r: Row)
    requires f.type_.Some?
    ensures forall c :: c != MyHash ==> Get(r, c) == Field(f, c)
    ensures r.myHash != "" || freshHash == ""
    ensures !IsEmpty(f.myHash) ==> r.myHash == f.myHash.value
    ensures IsEmpty(f.myHash) ==> r.myHash == freshHash
  {
    Row(f.description, f.amount, None, f.location, None, f.type_.value, f.idFromServer,
        f.updatedAt, StoredHash(f.myHash, freshHash), f.deleted, f.syncBit,
        f.fileUploaded, f.fileToDownload, f.fileUpdatedAt)
  }

  /** The row insertToEntryTable writes: the favorite part plus DATE_TIME and FAVORITE. */
  function InsertedEntryRow(e: Entry, freshHash: string): (r: Row)
    requires e.base.type_.Some?
    ensures forall c :: c != MyHash ==> Get(r, c) == EntryField(e, c)
    ensures r.myHash == InsertedRow(e.base, freshHash).myHash
  {
    InsertedRow(e.base, freshHash).(dateTime := e.timeInMillis, favorite := e.favorite)
  }

  /** The columns an edit of FavoriteTable may write: all but `_id`, MY_HASH, DATE_TIME and FAVORITE. */
  const FavoriteEditColumns: set<Column> :=
    {Tag, Amount, Type, Location, IdFromServer, SyncBit, UpdatedAt,
     FileUploaded, FileToDownload, Deleted, FileUpdatedAt}

  /** The columns an edit of EntryTable may write: all but `_id` and MY_HASH. */
  const EntryEditColumns: set<Column> := FavoriteEditColumns + {DateTime, FavoriteLink}

  /** ContentValues.put of a field that is not null; a null field is not put. */
  function PutNonNull(cv: ContentValues, c: Column, v: Option<Value>): ContentValues {
    if v.Some? then cv[c := v.value] else cv
  }

  /**
   * The position of each column's put in the edit methods: the eleven
   * favorite columns first, then DATE_TIME and FAVORITE (entries only);
   * MY_HASH is never put by an edit.
   */
  function PutOrder(c: Column): nat {
    match c
    case Tag => 0
    case Amount => 1
    case Type => 2
    case Location => 3
    case IdFromServer => 4
    case SyncBit => 5
    case UpdatedAt => 6
    case FileUploaded => 7
    case FileToDownload => 8
    case Deleted => 9
    case FileUpdatedAt => 10
    case DateTime => 11
    case FavoriteLink => 12
    case MyHash => 13
  }

  /** The ContentValues after the first `k` conditional puts of an edit of `e`. */
  function PutsSoFar(e: Entry, k: nat): ContentValues {
    map c | PutOrder(c) < k && EntryField(e, c).Some? :: EntryField(e, c).value
  }

  /** What a favorite edit puts: every editable field of the favorite that is not null. */
  function FavoriteChanges(f: Favorite): ContentValues {
    PutsSoFar(Entry(f, None, None), 11)
  }

  /** What an entry edit puts: every editable field of the entry that is not null. */
  function EntryChanges(e: Entry): ContentValues {
    PutsSoFar(e, 13)
  }

  /** The next conditional put extends the ContentValues by the next column's field. */
  lemma PutNextField(e: Entry, k: nat, c: Column)
    requires PutOrder(c) == k
    ensures PutNonNull(PutsSoFar(e, k), c, EntryField(e, c)) == PutsSoFar(e, k + 1)
  {
  }

  /**
   * Column `c` is in a favorite edit's ContentValues exactly when it is
   * editable and its field is not null, and then it holds that field.
   */
  lemma FavoriteChangesAt(f: Favorite, c: Column)
    ensures c in FavoriteChanges(f) <==> c in FavoriteEditColumns && Field(f, c).Some?
    ensures c in FavoriteChanges(f) ==> FavoriteChanges(f)[c] == Field(f, c).value
  {
    assert EntryField(Entry(f, None, None), c) == Field(f, c);
    assert PutOrder(c) < 11 <==> c in FavoriteEditColumns;
  }

  /** The same for an entry edit, whose editable columns add DATE_TIME and FAVORITE. */
  lemma EntryChangesAt(e: Entry, c: Column)
    ensures c in EntryChanges(e) <==> c in EntryEditColumns && EntryField(e, c).Some?
    ensures c in EntryChanges(e) ==> EntryChanges(e)[c] == EntryField(e, c).value
  {
    assert PutOrder(c) < 13 <==> c in EntryEditColumns;
  }

  lemma ChangesAreWellTyped(f: Favorite, e: Entry)
    ensures WellTyped(FavoriteChanges(f)) && WellTyped(EntryChanges(e))
  {
    forall c | c in FavoriteChanges(f) ensures Fits(c, FavoriteChanges(f)[c]) { FavoriteChangesAt(f, c); }
    forall c | c in EntryChanges(e) ensures Fits(c, EntryChanges(e)[c]) { EntryChangesAt(e, c); }
  }

  /**
   * One conditional put of the edit methods: the field of column `c` goes in
   * when it is not null. After the first `k` puts, it makes the next one.
   */
  method PutIfNotNull(cv: ContentValues, e: Entry, ghost k: nat, c: Column) returns (next: ContentValues)
    requires cv == PutsSoFar(e, k) && PutOrder(c) == k
    ensures next == PutsSoFar(e, k + 1)
  {
    next := cv;
    var v := EntryField(e, c);
    if v.Some? {
      next := next[c := v.value];
    }
    PutNextField(e, k, c);
  }

  /**
   * The values a partial edit puts, built put by put as editFavoriteTable and
   * editFavoriteTableByHash do.
   */
  method FavoriteEditValues(f: Favorite) returns (cv: ContentValues)
    ensures cv == FavoriteChanges(f)
    ensures MyHash !in cv && DateTime !in cv && FavoriteLink !in cv
  {
    var e := Entry(f, None, None);
    cv := map[];
    assert cv == PutsSoFar(e, 0);
    cv := PutIfNotNull(cv, e, 0, Tag);
    cv := PutIfNotNull(cv, e, 1, Amount);
    cv := PutIfNotNull(cv, e, 2, Type);
    cv := PutIfNotNull(cv, e, 3, Location);
    cv := PutIfNotNull(cv, e, 4, IdFromServer);
    cv := PutIfNotNull(cv, e, 5, SyncBit);
    cv := PutIfNotNull(cv, e, 6, UpdatedAt);
    cv := PutIfNotNull(cv, e, 7, FileUploaded);
    cv := PutIfNotNull(cv, e, 8, FileToDownload);
    cv := PutIfNotNull(cv, e, 9, Deleted);
    cv := PutIfNotNull(cv, e, 10, FileUpdatedAt);
  }

  /** The values an entry edit puts, as editEntryTable and editEntryTableByHash build them. */
  method EntryEditValues(e: Entry) returns (cv: ContentValues)
    ensures cv == EntryChanges(e)
    ensures MyHash !in cv
  {
    cv := FavoriteEditValues(e.base);
    assert cv == PutsSoFar(e, 11) by {
      forall c ensures (c in cv <==> c in PutsSoFar(e, 11)) {
        FavoriteChangesAt(e.base, c);
      }
    }
    cv := PutIfNotNull(cv, e, 11, DateTime);
    cv := PutIfNotNull(cv, e, 12, FavoriteLink);
  }

  /**
   * A favorite edit writes every non-null field into its column, leaves the
   * column of every null field as it was, and never writes MY_HASH, DATE_TIME
   * or FAVORITE.
   */
  lemma FavoriteEditEffect(r: Row, f: Favorite)
    ensures forall c :: (Get(Overlay(r, FavoriteChanges(f)), c) ==
      if c != MyHash && Field(f, c).Some? then Field(f, c) else Get(r, c))
    ensures Overlay(r, FavoriteChanges(f)).myHash == r.myHash
    ensures Overlay(r, FavoriteChanges(f)).dateTime == r.dateTime
    ensures Overlay(r, FavoriteChanges(f)).favorite == r.favorite
  {
    ChangesAreWellTyped(f, Entry(f, None, None));
    OverlayWritesExactlyItsColumns(r, FavoriteChanges(f));
    forall c ensures Get(Overlay(r, FavoriteChanges(f)), c) ==
      (if c != MyHash && Field(f, c).Some? then Field(f, c) else Get(r, c))
    {
      FavoriteChangesAt(f, c);
    }
    assert Get(Overlay(r, FavoriteChanges(f)), MyHash) == Get(r, MyHash);
    assert Get(Overlay(r, FavoriteChanges(f)), DateTime) == Get(r, DateTime);
    assert Get(Overlay(r, FavoriteChanges(f)), FavoriteLink) == Get(r, FavoriteLink);
  }

  /** An entry edit writes every non-null field into its column and never writes MY_HASH. */
  lemma EntryEditEffect(r: Row, e: Entry)
    ensures forall c :: (Get(Overlay(r, EntryChanges(e)), c) ==
      if c != MyHash && EntryField(e, c).Some? then EntryField(e, c) else Get(r, c))
    ensures Overlay(r, EntryChanges(e)).myHash == r.myHash
    ensures r.dateTime.Some? ==> Overlay(r, EntryChanges(e)).dateTime.Some?
  {
    ChangesAreWellTyped(e.base, e);
    OverlayWritesExactlyItsColumns(r, EntryChanges(e));
    forall c ensures Get(Overlay(r, EntryChanges(e)), c) ==
      (if c != MyHash && EntryField(e, c).Some? then EntryField(e, c) else Get(r, c))
    {
      EntryChangesAt(e, c);
    }
    assert Get(Overlay(r, EntryChanges(e)), MyHash) == Get(r, MyHash);
  }

  // The row predicates behind the gateway's WHERE clauses.

  /** getNotDeletedString: `NOT DELETED OR DELETED IS NULL`. */
  predicate IsLive(r: Row) {
    r.deleted.None? || !r.deleted.value
  }

  /** getDeletedString: `DELETED`, true only for a set delete bit (NULL is not true). */
  predicate IsDeleted(r: Row) {
    r.deleted.Some? && r.deleted.value
  }

  /** `FILE_UPLOADED IS NULL OR FILE_UPLOADED = "" OR NOT FILE_UPLOADED`. */
  predicate FileNotUploaded(r: Row) {
    r.fileUploaded.None? || !r.fileUploaded.value
  }

  /** `FILE_TO_DOWNLOAD`. */
  predicate HasFileToDownload(r: Row) {
    r.fileToDownload.Some? && r.fileToDownload.value
  }

  /** `UPDATED_AT IS NULL OR UPDATED_AT = ""`: never confirmed by the server. */
  predicate NeverSynced(r: Row) {
    r.updatedAt.None? || r.updatedAt.value == ""
  }

  /** `UPDATED_AT IS NOT NULL AND UPDATED_AT != "" AND SYNC_BIT = <not synced> AND <live>`. */
  predicate ModifiedSinceSync(r: Row, notSynced: string) {
    r.updatedAt.Some? && r.updatedAt.value != "" && r.syncBit == Some(notSynced) && IsLive(r)
  }

  /** Every row is either live or deleted, never both. */
  lemma LiveExactlyWhenNotDeleted(r: Row)
    ensures IsLive(r) <==> !IsDeleted(r)
  {
  }

  /** The "created" and "updated" sync queries never select the same row. */
  lemma NeverSyncedExcludesModified(r: Row, notSynced: string)
    ensures !(NeverSynced(r) && ModifiedSinceSync(r, notSynced))
  {
  }
}
