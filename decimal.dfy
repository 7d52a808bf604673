/**
 * The text forms of row ids that the gateway passes around: the decimal
 * string a cursor returns for `_id`, the id text spliced into `_id=<id>`,
 * and the comma-terminated id list that the date listings restrict to.
 */
module Decimal {
  import opened Records

  predicate IsDigit(ch: char) {
    '0' <= ch <= '9'
  }

  predicate AllDigits(s: string) {
    forall i :: 0 <= i < |s| ==> IsDigit(s[i])
  }

  function DigitChar(d: nat): (ch: char)
    requires d < 10
    ensures IsDigit(ch)
  {
    ['0', '1', '2', '3', '4', '5', '6', '7', '8', '9'][d]
  }

  function DigitOf(ch: char): (d: nat)
    requires IsDigit(ch)
    ensures d < 10
  {
    (ch as int - '0' as int) as nat
  }

  lemma DigitRoundTrip(d: nat)
    requires d < 10
    ensures DigitOf(DigitChar(d)) == d
  {
  }

  /** The decimal text of `n`, as a cursor returns an INTEGER column read with getString. */
  function DecimalText(n: nat): (s: string)
    ensures |s| >= 1 && AllDigits(s)
    ensures s[0] != '0' || n == 0
    ensures forall i :: 0 <= i < |s| ==> s[i] != ','
  {
    if n < 10 then [DigitChar(n)] else DecimalText(n / 10) + [DigitChar(n % 10)]
  }

  /** The number a non-empty digit string denotes (leading zeros allowed, as in SQL). */
  function DigitsValue(s: string): nat
    requires AllDigits(s)
  {
    if s == [] then 0 else DigitsValue(s[..|s| - 1]) * 10 + DigitOf(s[|s| - 1])
  }

  /** Reading back the decimal text of a number gives the number. */
  lemma {:induction false} DecimalRoundTrip(n: nat)
    ensures DigitsValue(DecimalText(n)) == n
  {
    DigitRoundTrip(n % 10);
    if n >= 10 {
      var s := DecimalText(n / 10) + [DigitChar(n % 10)];
      assert s[..|s| - 1] == DecimalText(n / 10);
      DecimalRoundTrip(n / 10);
    }
  }

  /** Different numbers have different decimal texts. */
  lemma DecimalTextInjective(m: nat, n: nat)
    ensures DecimalText(m) == DecimalText(n) ==> m == n
  {
    if DecimalText(m) == DecimalText(n) {
      DecimalRoundTrip(m);
      DecimalRoundTrip(n);
    }
  }

  /** What `_id=<text>` selects. */
  datatype IdMatch =
    | RowWithId(id: int)   // a numeric literal: the row with that `_id`
    | NoRow                // `_id=null`: NULL equals nothing
    | BadSql               // anything else is taken as a failing statement

  /** The meaning of an id text spliced into `_id=<text>`; a null Java string reads "null". */
  function ParseId(text: string): (m: IdMatch)
    ensures m.RowWithId? <==> text != [] && AllDigits(text)
    ensures m.NoRow? <==> text == "null"
  {
    if text != [] && AllDigits(text) then RowWithId(DigitsValue(text))
    else if text == "null" then NoRow
    else BadSql
  }

  /** The text a cursor's `_id` turns into is read back as the same row id. */
  lemma ParseIdOfDecimalText(n: nat)
    ensures ParseId(DecimalText(n)) == RowWithId(n)
  {
    DecimalRoundTrip(n);
  }

  /**
   * The trailing-character strip of the id-list listings: a non-null text
   * longer than one character loses its last character.
   */
  function StripLast(text: Option<string>): (r: Option<string>)
    ensures text.None? <==> r.None?
    ensures text.Some? && |text.value| > 1 ==> r.value == text.value[..|text.value| - 1]
    ensures text.Some? && |text.value| <= 1 ==> r == text
  {
    if text.Some? && |text.value| > 1 then Some(text.value[..|text.value| - 1]) else text
  }

  /** A text of more than one character stripped of its last character, whatever it is, is the text before it. */
  lemma StripLastDropsTerminator(s: string, ch: char)
    requires s != []
    ensures StripLast(Some(s + [ch])) == Some(s)
  {
    assert (s + [ch])[..|s|] == s;
  }

  /** The comma-separated pieces of `s` ("" is one empty piece). */
  function Pieces(s: string): (ps: seq<string>)
    ensures |ps| >= 1
    ensures forall k, i :: 0 <= k < |ps| && 0 <= i < |ps[k]| ==> ps[k][i] != ','
  {
    if s == [] then [[]]
    else
      var rest := Pieces(s[1..]);
      if s[0] == ',' then [[]] + rest else [[s[0]] + rest[0]] + rest[1..]
  }

  /** The pieces joined back with commas. */
  function Joined(ps: seq<string>): string
    requires |ps| >= 1
  {
    if |ps| == 1 then ps[0] else ps[0] + "," + Joined(ps[1..])
  }

  /** Splitting at commas undoes joining pieces that hold no comma. */
  lemma {:induction false} PiecesOfJoined(ps: seq<string>)
    requires |ps| >= 1
    requires forall k, i :: 0 <= k < |ps| && 0 <= i < |ps[k]| ==> ps[k][i] != ','
    ensures Pieces(Joined(ps)) == ps
  {
    if |ps| == 1 {
      PiecesOfPlain(ps[0]);
    } else {
      PiecesOfJoined(ps[1..]);
      PiecesOfPrefix(ps[0], Joined(ps[1..]));
    }
  }

  /** A text without commas is a single piece. */
  lemma {:induction false} PiecesOfPlain(s: string)
    requires forall i :: 0 <= i < |s| ==> s[i] != ','
    ensures Pieces(s) == [s]
  {
    if s != [] {
      PiecesOfPlain(s[1..]);
      assert [s[0]] + s[1..] == s;
    }
  }

  /** A comma-free piece followed by a comma starts the pieces of what follows. */
  lemma {:induction false} PiecesOfPrefix(p: string, rest: string)
    requires forall i :: 0 <= i < |p| ==> p[i] != ','
    ensures Pieces(p + "," + rest) == [p] + Pieces(rest)
  {
    if p == [] {
      assert p + "," + rest == [','] + rest;
      assert (p + "," + rest)[1..] == rest;
    } else {
      assert (p + "," + rest)[1..] == p[1..] + "," + rest;
      PiecesOfPrefix(p[1..], rest);
      assert [p[0]] + p[1..] == p;
    }
  }

  /**
   * The ids named by the text inside `_id in (<text>)`: none for an empty
   * list; otherwise every comma-separated piece must be a numeric literal,
   * and anything else is taken as a failing statement (None).
   */
  function ParseIdList(text: string): (r: Option<set<int>>)
    ensures text == [] ==> r == Some({})
    ensures text != [] && r.Some? ==>
      forall k :: 0 <= k < |Pieces(text)| ==> Pieces(text)[k] != [] && AllDigits(Pieces(text)[k])
  {
    if text == [] then Some({})
    else
      var ps := Pieces(text);
      if forall k :: 0 <= k < |ps| ==> ps[k] != [] && AllDigits(ps[k])
      then Some(set p | p in ps && AllDigits(p) :: DigitsValue(p) as int)
      else None
  }

  /** The values of the digit-string pieces. */
  function PieceValues(ps: seq<string>): set<int> {
    set k | 0 <= k < |ps| && AllDigits(ps[k]) :: DigitsValue(ps[k]) as int
  }

  /**
   * A list of comma-free pieces joined with commas is accepted exactly when
   * every piece is a non-empty digit string, and then names the values of
   * the pieces.
   */
  lemma ParseIdListOfPieces(ps: seq<string>)
    requires |ps| >= 1 && Joined(ps) != []
    requires forall k, i :: 0 <= k < |ps| && 0 <= i < |ps[k]| ==> ps[k][i] != ','
    ensures (forall k :: 0 <= k < |ps| ==> ps[k] != [] && AllDigits(ps[k])) ==>
      ParseIdList(Joined(ps)) == Some(PieceValues(ps))
    ensures (exists k :: 0 <= k < |ps| && (ps[k] == [] || !AllDigits(ps[k]))) ==>
      ParseIdList(Joined(ps)) == None
  {
    PiecesOfJoined(ps);
    var byPiece := set p | p in ps && AllDigits(p) :: DigitsValue(p) as int;
    var byIndex := PieceValues(ps);
    forall x | x in byPiece ensures x in byIndex {
      var p :| p in ps && AllDigits(p) && x == DigitsValue(p) as int;
      var k :| 0 <= k < |ps| && ps[k] == p;
    }
    forall x | x in byIndex ensures x in byPiece {
      var k :| 0 <= k < |ps| && AllDigits(ps[k]) && x == DigitsValue(ps[k]) as int;
      assert ps[k] in ps;
    }
    assert byPiece == byIndex;
    if forall k :: 0 <= k < |ps| ==> ps[k] != [] && AllDigits(ps[k]) {
      assert ParseIdList(Joined(ps)) == Some(byPiece);
    }
  }

  /**
   * The list shape the one-character strip of the id-list listings implies:
   * every id's decimal text followed by a comma.
   */
  function IdListText(ids: seq<nat>): string {
    if ids == [] then [] else DecimalText(ids[0]) + "," + IdListText(ids[1..])
  }

  /** The decimal texts of `ids`. */
  function Texts(ids: seq<nat>): (ts: seq<string>)
    ensures |ts| == |ids|
    ensures forall k :: 0 <= k < |ids| ==> ts[k] == DecimalText(ids[k])
  {
    if ids == [] then [] else [DecimalText(ids[0])] + Texts(ids[1..])
  }

  /** A non-empty built list, stripped of its final comma, is the ids' texts joined with commas. */
  lemma {:induction false} StrippedIdList(ids: seq<nat>)
    requires ids != []
    ensures IdListText(ids) == Joined(Texts(ids)) + ","
  {
    if |ids| > 1 {
      StrippedIdList(ids[1..]);
      assert Texts(ids)[1..] == Texts(ids[1..]);
    }
  }

  /**
   * A comma-terminated list of ids is read as exactly the ids it was built
   * from, once the listing has stripped its trailing comma.
   */
  lemma {:induction false} IdListRoundTrip(ids: seq<nat>)
    ensures StripLast(Some(IdListText(ids))).Some?
    ensures ParseIdList(StripLast(Some(IdListText(ids))).value) == Some(set x | x in ids :: x as int)
  {
    if ids != [] {
      StrippedIdList(ids);
      var ts := Texts(ids);
      var joined := Joined(ts);
      assert StripLast(Some(IdListText(ids))).value == joined by {
        assert IdListText(ids)[..|IdListText(ids)| - 1] == joined;
      }
      PiecesOfJoined(ts);
      PiecesNonEmptyJoin(ts);
      ParseJoinedTexts(ids, joined);
    } else {
      assert IdListText(ids) == [];
      assert (set x | x in ids :: x as int) == {};
    }
  }

  /** The joined texts of `ids` read back as the set of `ids`. */
  lemma ParseJoinedTexts(ids: seq<nat>, joined: string)
    requires ids != [] && joined != [] && Pieces(joined) == Texts(ids)
    ensures ParseIdList(joined) == Some(set x | x in ids :: x as int)
  {
    var ps := Pieces(joined);
    assert forall k :: 0 <= k < |ps| ==> ps[k] == DecimalText(ids[k]);
    assert forall k :: 0 <= k < |ps| ==> ps[k] != [] && AllDigits(ps[k]);
    var parsed := set p | p in ps && AllDigits(p) :: DigitsValue(p) as int;
    var wanted := set x | x in ids :: x as int;
    forall x | x in parsed ensures x in wanted {
      var p :| p in ps && AllDigits(p) && x == DigitsValue(p) as int;
      var k :| 0 <= k < |ps| && ps[k] == p;
      DecimalRoundTrip(ids[k]);
      assert x == ids[k] as int && ids[k] in ids;
    }
    forall x | x in wanted ensures x in parsed {
      var k :| 0 <= k < |ids| && x == ids[k] as int;
      DecimalRoundTrip(ids[k]);
      assert ps[k] in ps;
    }
    assert parsed == wanted;
  }

  /** Joining pieces whose first is non-empty gives a non-empty text. */
  lemma PiecesNonEmptyJoin(ps: seq<string>)
    requires |ps| >= 1 && ps[0] != []
    ensures Joined(ps) != []
  {
  }
}
