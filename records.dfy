/**
 * The record-level rules applied to the data rows once the headers are known:
 * the banner-row filter and rating normalisation of `load_data`, the search
 * mask of the sidebar, and the pick of one profile by firm name.
 */
module Records {
  import opened Cells
  import opened Text
  import opened Seqs

  /** One data row: field name -> cell. */
  type Row = map<string, Cell>

  /** The data frame: its column names and its rows. */
  datatype Table = Table(columns: seq<string>, rows: seq<Row>)

  /** Every row has exactly the table's columns. */
  ghost predicate WellFormed(t: Table) {
    forall i :: 0 <= i < |t.rows| ==> forall c :: c in t.rows[i] <==> c in t.columns
  }

  /** Rows taken from a well-formed table keep its columns. */
  lemma WellFormedRows(t: Table, rows: seq<Row>)
    requires forall x :: x in rows ==> x in t.rows
    ensures WellFormed(t) ==> WellFormed(Table(t.columns, rows))
  {
    forall i | 0 <= i < |rows| && WellFormed(t)
      ensures forall c :: c in rows[i] <==> c in t.columns
    {
      assert rows[i] in t.rows;
      var j :| 0 <= j < |t.rows| && t.rows[j] == rows[i];
    }
  }

  datatype LoadError = MissingColumn(name: string)

  const FirmNameField: string := "Firm Name"
  const RatingField: string := "Rating"

  /** The alternatives of the banner pattern `Firm Name|ENRICHED|CONTACTS|ADDITIONAL|DATA`. */
  const BannerKeywords: seq<string> := ["Firm Name", "ENRICHED", "CONTACTS", "ADDITIONAL", "DATA"]

  /** The cell of `field` in `r`; None when the row has no such field. */
  function FieldCell(r: Row, field: string): Cell {
    if field in r then r[field] else None
  }

  /** A firm name that repeats header or banner text: it contains a banner keyword, ignoring case. */
  predicate IsBannerName(name: string) {
    exists k :: k in BannerKeywords && ContainsIgnoreCase(name, k)
  }

  /** A row that survives clean-up: its firm name is present and is not banner text. */
  predicate IsAgentRow(r: Row) {
    FieldCell(r, FirmNameField).Some? && !IsBannerName(FieldCell(r, FirmNameField).value)
  }

  /**
   * Drop the rows with a missing firm name, then those whose firm name
   * contains a banner keyword. Without a `Firm Name` column the source fails
   * with a key error.
   */
  function DropBanners(t: Table): (r: Result<Table, LoadError>)
    ensures r.Failure? <==> FirmNameField !in t.columns
    ensures r.Failure? ==> r.error == MissingColumn(FirmNameField)
    ensures r.Success? ==> r.value.columns == t.columns && IsSubsequence(r.value.rows, t.rows)
    ensures r.Success? ==> forall x :: multiset(r.value.rows)[x] == if IsAgentRow(x) then multiset(t.rows)[x] else 0
    ensures r.Success? && WellFormed(t) ==> WellFormed(r.value)
  {
    if FirmNameField !in t.columns then Failure(MissingColumn(FirmNameField))
    else
      var kept := Keep(t.rows, IsAgentRow);
      WellFormedRows(t, kept);
      Success(Table(t.columns, kept))
  }

  const Star: char := '\U{2B50}'

  /** The digit character for 0..9. */
  function DigitChar(d: nat): char
    requires d < 10
  {
    ('0' as int + d) as char
  }

  /**
   * The rating shown for a stringified `Rating` cell: as many stars as the
   * highest of the digits 5, 4, 3 it contains; a dash when it contains none.
   */
  function RatingStars(v: string): (r: string)
    ensures r == Dash <==> (DigitChar(3) !in v && DigitChar(4) !in v && DigitChar(5) !in v)
    ensures r != Dash ==> 3 <= |r| <= 5 && r == Repeat(Star, |r|)
    ensures r != Dash ==> DigitChar(|r|) in v && forall d :: |r| < d <= 5 ==> DigitChar(d) !in v
  {
    if '5' in v then Repeat(Star, 5)
    else if '4' in v then Repeat(Star, 4)
    else if '3' in v then Repeat(Star, 3)
    else Dash
  }

  /** One row with its rating replaced by stars (rows without a rating are left alone). */
  function RateRow(r: Row): Row {
    if RatingField in r then r[RatingField := Some(RatingStars(Str(r[RatingField])))] else r
  }

  /** When the table has a `Rating` column, every rating becomes a star string; nothing else changes. */
  function MapRatings(t: Table): (r: Table)
    ensures r.columns == t.columns && |r.rows| == |t.rows|
    ensures RatingField !in t.columns ==> r == t
    ensures forall i :: 0 <= i < |t.rows| ==> r.rows[i].Keys == t.rows[i].Keys
    ensures forall i, f :: 0 <= i < |t.rows| && f in t.rows[i] && f != RatingField ==> r.rows[i][f] == t.rows[i][f]
    ensures RatingField in t.columns ==>
      forall i :: 0 <= i < |t.rows| && RatingField in t.rows[i] ==>
        r.rows[i][RatingField] == Some(RatingStars(Str(t.rows[i][RatingField])))
    ensures WellFormed(t) ==> WellFormed(r)
  {
    if RatingField in t.columns then
      Table(t.columns, seq(|t.rows|, i requires 0 <= i < |t.rows| => RateRow(t.rows[i])))
    else t
  }

  /** The search mask for one row: the stringified cell contains the query, ignoring case. */
  predicate MatchesQuery(r: Row, field: string, query: string) {
    ContainsIgnoreCase(Str(FieldCell(r, field)), query)
  }

  function Matching(field: string, query: string): Row -> bool {
    r => MatchesQuery(r, field, query)
  }

  /** `df[df[field].astype(str).str.contains(query, case=False, na=False)]`. */
  function SearchRows(t: Table, field: string, query: string): (r: seq<Row>)
    requires WellFormed(t) && field in t.columns
    ensures IsSubsequence(r, t.rows)
    ensures forall x :: multiset(r)[x] == if MatchesQuery(x, field, query) then multiset(t.rows)[x] else 0
  {
    Keep(t.rows, Matching(field, query))
  }

  /** The empty query matches every row. */
  lemma SearchEmptyQueryKeepsAll(t: Table, field: string)
    requires WellFormed(t) && field in t.columns
    ensures SearchRows(t, field, "") == t.rows
  {
    forall x | x in t.rows
      ensures Matching(field, "")(x)
    {
      assert Lower("") == "";
    }
    KeepAll(t.rows, Matching(field, ""));
  }

  /** Searching the search result again with the same field and query changes nothing. */
  lemma SearchIdempotent(t: Table, field: string, query: string)
    requires WellFormed(t) && field in t.columns
    ensures WellFormed(Table(t.columns, SearchRows(t, field, query)))
    ensures SearchRows(Table(t.columns, SearchRows(t, field, query)), field, query) == SearchRows(t, field, query)
  {
    var once := SearchRows(t, field, query);
    WellFormedRows(t, once);
    KeepAll(once, Matching(field, query));
  }

  /** The firm names of the rows (`res['Firm Name']`), missing ones skipped. */
  function FirmNames(rows: seq<Row>): (names: seq<string>)
    ensures forall n :: n in names <==> exists r :: r in rows && FieldCell(r, FirmNameField) == Some(n)
  {
    if rows == [] then []
    else
      var rest := FirmNames(rows[1..]);
      assert rows == [rows[0]] + rows[1..];
      match FieldCell(rows[0], FirmNameField)
      case Some(n) => [n] + rest
      case None => rest
  }

  /** The profiles offered for selection: `res['Firm Name'].unique()`, in first-seen order. */
  function ProfileChoices(rows: seq<Row>): seq<string> {
    Distinct(FirmNames(rows))
  }

  /** `res[res['Firm Name'] == choice].iloc[0]`: the first row with that firm name, if any. */
  function SelectProfile(rows: seq<Row>, choice: string): (r: Option<Row>)
    ensures r.Some? <==> exists i :: 0 <= i < |rows| && FieldCell(rows[i], FirmNameField) == Some(choice)
    ensures r.Some? ==> exists i :: 0 <= i < |rows| && rows[i] == r.value
                          && FieldCell(rows[i], FirmNameField) == Some(choice)
                          && forall j :: 0 <= j < i ==> FieldCell(rows[j], FirmNameField) != Some(choice)
  {
    if rows == [] then None
    else if FieldCell(rows[0], FirmNameField) == Some(choice) then Some(rows[0])
    else
      var r := SelectProfile(rows[1..], choice);
      assert forall i :: 0 < i < |rows| ==> rows[i] == rows[1..][i - 1];
      r
  }

  /** Every profile offered for selection resolves to a row carrying that firm name. */
  lemma OfferedProfilesResolve(rows: seq<Row>, choice: string)
    requires choice in ProfileChoices(rows)
    ensures SelectProfile(rows, choice).Some?
    ensures FieldCell(SelectProfile(rows, choice).value, FirmNameField) == Some(choice)
  {
    DistinctSpec(FirmNames(rows));
    var r :| r in rows && FieldCell(r, FirmNameField) == Some(choice);
    var i :| 0 <= i < |rows| && rows[i] == r;
  }
}
