/**
 * The catalog cleaner of limpieza_transformacion/limpieza_transformacion.py, as functions:
 * what each of the six stages does to one row, the group-mode tables the two imputers build
 * from the whole table, each stage on a whole table, and their composition.
 * The stateful version, which changes a frame column by column as the source does, is
 * CatalogFrame.Frame; its methods are proved equal to these functions.
 */
module Catalog {
  import opened Wrappers
  import opened Text
  import Order

  /** The placeholder the cleaner writes for missing or unparseable text. */
  const Sentinel: string := "unknown"

  /** A calendar day as produced by `pd.to_datetime`; days compare chronologically. */
  datatype Date = Date(year: int, month: int, day: int)

  predicate DateLess(a: Date, b: Date) {
    a.year < b.year || (a.year == b.year && (a.month < b.month || (a.month == b.month && a.day < b.day)))
  }

  lemma DateLessIsStrictTotal()
    ensures Order.StrictTotal(DateLess)
  {
  }

  lemma TextLessIsStrictTotal()
    ensures Order.StrictTotal(Less)
  {
    forall a: string ensures !Less(a, a) {
      LessIrreflexive(a);
    }
    forall a: string, b: string, c: string | Less(a, b) && Less(b, c) ensures Less(a, c) {
      LessTransitive(a, b, c);
    }
    forall a: string, b: string | a != b ensures Less(a, b) || Less(b, a) {
      LessConnected(a, b);
    }
  }

  /**
   * The `date_added` column: text as read from the file, until `pd.to_datetime` turns it
   * into dates (`None` is NaT).
   */
  datatype DateCell = Unparsed(text: Option<string>) | Parsed(date: Option<Date>)

  /**
   * One row of the catalog. `None` is a missing cell. The last four fields are the columns
   * the cleaner adds (`date_imputed`, `duration_value`, `duration_unit`, `rating_imputed`);
   * each stage that adds one assigns it on every row, so their values before that stage
   * are never read.
   */
  datatype Row = Row(
    showId: Option<string>,
    kind: Option<string>,
    title: Option<string>,
    director: Option<string>,
    cast: Option<string>,
    country: Option<string>,
    dateAdded: DateCell,
    releaseYear: Option<int>,
    rating: Option<string>,
    duration: Option<string>,
    listedIn: Option<string>,
    description: Option<string>,
    dateImputed: bool,
    durationValue: Option<nat>,
    durationUnit: string,
    ratingImputed: bool)

  // ---------------------------------------------------------------------------------
  // Text columns, addressed by name as the source's column lists do
  // ---------------------------------------------------------------------------------

  datatype TextColumn = Country | Title | Cast | Director | ListedIn | Description

  /** `cols_texto`, in the source's order. */
  const TextColumns: seq<TextColumn> := [Country, Title, Cast, Director, ListedIn, Description]

  /** `cols_multi`. */
  const ListColumns: seq<TextColumn> := [Country, ListedIn]

  function Get(r: Row, c: TextColumn): Option<string> {
    match c
    case Country => r.country
    case Title => r.title
    case Cast => r.cast
    case Director => r.director
    case ListedIn => r.listedIn
    case Description => r.description
  }

  /** The row with its six text cells blanked out: what a text-column update must not change. */
  function Erase(r: Row): Row {
    r.(country := None, title := None, cast := None, director := None, listedIn := None, description := None)
  }

  function Set(r: Row, c: TextColumn, v: Option<string>): (t: Row)
    ensures Get(t, c) == v
    ensures forall d :: d != c ==> Get(t, d) == Get(r, d)
    ensures Erase(t) == Erase(r)
  {
    match c
    case Country => r.(country := v)
    case Title => r.(title := v)
    case Cast => r.(cast := v)
    case Director => r.(director := v)
    case ListedIn => r.(listedIn := v)
    case Description => r.(description := v)
  }

  // ---------------------------------------------------------------------------------
  // Stage 1: limpiar_texto
  // ---------------------------------------------------------------------------------

  /** What `strip().lower()` leaves: no whitespace at either end and no capital letter. */
  predicate CleanText(s: string) {
    Stripped(s) && forall i :: 0 <= i < |s| ==> !IsUpper(s[i])
  }

  /** Trimming and lower-casing a clean text changes nothing. */
  lemma CleanTextFixed(s: string)
    ensures CleanText(s) ==> Lower(Strip(s)) == s
  {
  }

  lemma LowerKeepsStripped(s: string)
    requires Stripped(s)
    ensures Stripped(Lower(s))
  {
    if s != [] {
      CaseKeepsSpace(s[0]);
      CaseKeepsSpace(s[|s| - 1]);
    }
  }

  lemma CleanOutput(s: string)
    ensures CleanText(Lower(Strip(s)))
  {
    LowerKeepsStripped(Strip(s));
  }

  lemma SentinelIsClean()
    ensures Lower(Strip(Sentinel)) == Sentinel
  {
    assert CleanText(Sentinel);
    CleanTextFixed(Sentinel);
  }

  /** One cell of `limpiar_texto`: a missing cell becomes "unknown", then it is trimmed and lowercased. */
  function CleanTextCell(c: Option<string>): (r: string)
    ensures CleanText(r)
    ensures c.None? ==> r == Sentinel
  {
    CleanOutput(c.GetOr(Sentinel));
    SentinelIsClean();
    Lower(Strip(c.GetOr(Sentinel)))
  }

  /** A cell that is already clean is left as it is. */
  lemma CleanTextCellKeepsClean(s: string)
    requires CleanText(s)
    ensures CleanTextCell(Some(s)) == s
  {
    CleanTextFixed(s);
  }

  lemma CleanTextCellTwice(c: Option<string>)
    ensures CleanTextCell(Some(CleanTextCell(c))) == CleanTextCell(c)
  {
    CleanTextCellKeepsClean(CleanTextCell(c));
  }

  /** The text-column cleaning as a cell function. */
  function CleanCell(c: Option<string>): Option<string> {
    Some(CleanTextCell(c))
  }

  ghost predicate Idempotent(f: Option<string> -> Option<string>) {
    forall x {:trigger f(f(x))} :: f(f(x)) == f(x)
  }

  lemma CleanCellIdempotent()
    ensures Idempotent(CleanCell)
  {
    forall x ensures CleanCell(CleanCell(x)) == CleanCell(x) {
      CleanTextCellTwice(x);
    }
  }

  /** The row after a loop over `cols` has replaced each of those cells by `f` of it. */
  function MapColumns(r: Row, cols: seq<TextColumn>, f: Option<string> -> Option<string>): Row
    decreases |cols|
  {
    if cols == [] then r
    else
      var prev := MapColumns(r, cols[..|cols| - 1], f);
      Set(prev, cols[|cols| - 1], f(Get(prev, cols[|cols| - 1])))
  }

  /** Each listed column (listed once or several times) holds `f` of its old cell. */
  lemma {:induction false} MapColumnsGet(r: Row, cols: seq<TextColumn>, f: Option<string> -> Option<string>, c: TextColumn)
    requires Idempotent(f)
    ensures Get(MapColumns(r, cols, f), c) == if c in cols then f(Get(r, c)) else Get(r, c)
    decreases |cols|
  {
    if cols != [] {
      var init, last := cols[..|cols| - 1], cols[|cols| - 1];
      MapColumnsGet(r, init, f, c);
      assert c in cols <==> c in init || c == last by {
        assert forall j :: 0 <= j < |init| ==> init[j] == cols[j];
      }
    }
  }

  lemma {:induction false} MapColumnsErase(r: Row, cols: seq<TextColumn>, f: Option<string> -> Option<string>)
    ensures Erase(MapColumns(r, cols, f)) == Erase(r)
    decreases |cols|
  {
    if cols != [] {
      MapColumnsErase(r, cols[..|cols| - 1], f);
    }
  }

  lemma AllTextColumns()
    ensures forall c :: c in TextColumns
  {
    forall c ensures c in TextColumns {
      match c
      case Country => assert TextColumns[0] == c;
      case Title => assert TextColumns[1] == c;
      case Cast => assert TextColumns[2] == c;
      case Director => assert TextColumns[3] == c;
      case ListedIn => assert TextColumns[4] == c;
      case Description => assert TextColumns[5] == c;
    }
  }

  /**
   * `limpiar_texto` on one row: none of the six text columns is missing afterwards, each
   * of their cells is its own trim-and-lowercase, a missing one became "unknown", one that
   * was already clean is unchanged, and a missing rating became "unknown".
   */
  function TextRow(r: Row): (t: Row)
    ensures forall c :: Get(t, c) == Some(CleanTextCell(Get(r, c)))
    ensures t.country.Some? && t.listedIn.Some?
    ensures r.rating.None? ==> t.rating == Some(Sentinel)
    ensures r.rating.Some? ==> t.rating == r.rating
    ensures Erase(t).(rating := r.rating) == Erase(r)
  {
    TextRowCells(r);
    MapColumns(r, TextColumns, CleanCell).(rating := Some(r.rating.GetOr(Sentinel)))
  }

  lemma TextRowCells(r: Row)
    ensures var t := MapColumns(r, TextColumns, CleanCell).(rating := Some(r.rating.GetOr(Sentinel)));
      && (forall c :: Get(t, c) == Some(CleanTextCell(Get(r, c))))
      && t.country.Some? && t.listedIn.Some?
      && Erase(t).(rating := r.rating) == Erase(r)
  {
    TextColumnsCleaned(r);
    TextColumnsFilled(r);
    TextColumnsOnly(r);
    var m := MapColumns(r, TextColumns, CleanCell);
    var v := Some(r.rating.GetOr(Sentinel));
    RatingOnly(m, v);
    assert Erase(r).(rating := r.rating) == Erase(r);
  }

  /** Setting the rating touches no text cell. */
  lemma RatingOnly(m: Row, v: Option<string>)
    ensures forall c :: Get(m.(rating := v), c) == Get(m, c)
    ensures Erase(m.(rating := v)) == Erase(m).(rating := v)
  {
  }

  lemma TextColumnsCleaned(r: Row)
    ensures forall c :: Get(MapColumns(r, TextColumns, CleanCell), c) == Some(CleanTextCell(Get(r, c)))
  {
    CleanCellIdempotent();
    forall c ensures Get(MapColumns(r, TextColumns, CleanCell), c) == Some(CleanTextCell(Get(r, c))) {
      AllTextColumns();
      MapColumnsGet(r, TextColumns, CleanCell, c);
    }
  }

  lemma TextColumnsFilled(r: Row)
    ensures MapColumns(r, TextColumns, CleanCell).country.Some?
    ensures MapColumns(r, TextColumns, CleanCell).listedIn.Some?
  {
    var m := MapColumns(r, TextColumns, CleanCell);
    TextColumnsCleaned(r);
    assert Get(m, Country) == Some(CleanTextCell(Get(r, Country)));
    assert Get(m, ListedIn) == Some(CleanTextCell(Get(r, ListedIn)));
  }

  lemma TextColumnsOnly(r: Row)
    ensures Erase(MapColumns(r, TextColumns, CleanCell)) == Erase(r)
  {
    MapColumnsErase(r, TextColumns, CleanCell);
  }

  /**
   * After `limpiar_texto` no text cell and no rating is missing, and every text cell is
   * its own trim-and-lowercase.
   */
  lemma TextRowFills(r: Row)
    ensures var t := TextRow(r);
      t.title.Some? && t.director.Some? && t.cast.Some? && t.description.Some?
      && t.country.Some? && t.listedIn.Some? && t.rating.Some?
    ensures var t := TextRow(r);
      forall c :: Get(t, c).Some? && Lower(Strip(Get(t, c).value)) == Get(t, c).value
  {
    var t := TextRow(r);
    CellsFilled(t);
    forall c ensures Get(t, c).Some? && Lower(Strip(Get(t, c).value)) == Get(t, c).value {
      CleanTextFixed(CleanTextCell(Get(r, c)));
    }
  }

  lemma CellsFilled(t: Row)
    requires forall c :: Get(t, c).Some?
    ensures t.title.Some? && t.director.Some? && t.cast.Some? && t.description.Some?
  {
    assert Get(t, Title).Some? && Get(t, Director).Some?;
    assert Get(t, Cast).Some? && Get(t, Description).Some?;
  }

  function TextStage(rows: seq<Row>): (t: seq<Row>)
    ensures |t| == |rows| && forall i :: 0 <= i < |t| ==> t[i] == TextRow(rows[i])
  {
    seq(|rows|, i requires 0 <= i < |rows| => TextRow(rows[i]))
  }

  // ---------------------------------------------------------------------------------
  // Stage 2: normalizar_listas
  // ---------------------------------------------------------------------------------

  /** The comma-pieces of a list cell, each trimmed, with the pieces that trim to nothing left out. */
  function Tokens(pieces: seq<string>): (ts: seq<string>)
    ensures forall t :: t in ts ==> t != [] && Stripped(t)
  {
    if pieces == [] then []
    else
      var t := Strip(pieces[0]);
      (if t == [] then [] else [t]) + Tokens(pieces[1..])
  }

  /** The set of tokens of some pieces. */
  ghost function TokenSetOf(pieces: seq<string>): set<string> {
    set p | p in pieces && Strip(p) != [] :: Strip(p)
  }

  /** The set of tokens of a list cell. */
  ghost function TokenSet(x: string): set<string> {
    TokenSetOf(Split(x, ','))
  }

  lemma {:induction false} TokensElems(pieces: seq<string>)
    ensures Order.Elems(Tokens(pieces)) == TokenSetOf(pieces)
  {
    if pieces != [] {
      var rest := pieces[1..];
      var t := Strip(pieces[0]);
      var head: seq<string> := if t == [] then [] else [t];
      TokensElems(rest);
      assert Tokens(pieces) == head + Tokens(rest);
      assert Order.Elems(head + Tokens(rest)) == Order.Elems(head) + Order.Elems(Tokens(rest));
      TokenSetCons(pieces);
    }
  }

  lemma TokenSetCons(pieces: seq<string>)
    requires pieces != []
    ensures TokenSetOf(pieces) == (if Strip(pieces[0]) == [] then {} else {Strip(pieces[0])}) + TokenSetOf(pieces[1..])
  {
    TokenSetHead(pieces);
    TokenSetTail(pieces);
    TokenSetRest(pieces);
  }

  lemma TokenSetHead(pieces: seq<string>)
    requires pieces != []
    ensures Strip(pieces[0]) != [] ==> Strip(pieces[0]) in TokenSetOf(pieces)
  {
    assert pieces[0] in pieces;
  }

  lemma TokenSetTail(pieces: seq<string>)
    requires pieces != []
    ensures TokenSetOf(pieces[1..]) <= TokenSetOf(pieces)
  {
    forall x | x in TokenSetOf(pieces[1..]) ensures x in TokenSetOf(pieces) {
      var p :| p in pieces[1..] && Strip(p) != [] && Strip(p) == x;
      assert p in pieces;
    }
  }

  lemma TokenSetRest(pieces: seq<string>)
    requires pieces != []
    ensures forall x :: x in TokenSetOf(pieces) && x != Strip(pieces[0]) ==> x in TokenSetOf(pieces[1..])
  {
    forall x | x in TokenSetOf(pieces) && x != Strip(pieces[0]) ensures x in TokenSetOf(pieces[1..]) {
      var p :| p in pieces && Strip(p) != [] && Strip(p) == x;
      var j :| 0 <= j < |pieces| && pieces[j] == p;
      assert j != 0;
      assert p in pieces[1..] by {
        assert pieces[1..][j - 1] == p;
      }
      assert Strip(p) in TokenSetOf(pieces[1..]);
    }
  }

  /** A character that occurs in no piece occurs in no token. */
  lemma {:induction false} TokensAvoid(pieces: seq<string>, c: char)
    requires forall p :: p in pieces ==> c !in p
    ensures forall t :: t in Tokens(pieces) ==> c !in t
  {
    if pieces != [] {
      StripKeepsOut(pieces[0], c);
      assert forall p :: p in pieces[1..] ==> p in pieces;
      TokensAvoid(pieces[1..], c);
    }
  }

  lemma TokensCons(x: string, b: seq<string>)
    ensures Tokens([x] + b) == (if Strip(x) == [] then [] else [Strip(x)]) + Tokens(b)
  {
    assert ([x] + b)[0] == x;
    assert ([x] + b)[1..] == b;
  }

  /** `sorted(set(tokens))`: distinct, ascending, trimmed, non-empty, without commas. */
  function ListTokens(x: string): (ts: seq<string>)
    ensures Order.Ascending(ts, Less)
    ensures Order.Elems(ts) == TokenSet(x)
    ensures forall t :: t in ts ==> t != [] && Stripped(t) && ',' !in t
  {
    TextLessIsStrictTotal();
    var pieces := Split(x, ',');
    TokensElems(pieces);
    TokensAvoid(pieces, ',');
    var ts := Order.SortDistinct(Tokens(pieces), Less);
    assert forall t :: t in ts ==> t in Order.Elems(Tokens(pieces));
    ts
  }

  /** The lambda of `normalizar_listas` on one cell. */
  function NormaliseList(x: string): string {
    if x == Sentinel then x else Join(ListTokens(x), ", ")
  }

  /**
   * `normalizar_listas` leaves "unknown" alone and turns any other cell into its
   * comma-separated tokens, trimmed, without empties, distinct and ascending, joined by ", ".
   */
  lemma NormaliseListSpec(x: string)
    ensures x == Sentinel ==> NormaliseList(x) == Sentinel
    ensures x != Sentinel ==> exists ts ::
      NormaliseList(x) == Join(ts, ", ") && Order.Ascending(ts, Less) && Order.Elems(ts) == TokenSet(x)
      && forall t :: t in ts ==> t != [] && Stripped(t)
  {
    if x != Sentinel {
      var ts := ListTokens(x);
      assert NormaliseList(x) == Join(ts, ", ");
    }
  }

  lemma TokensLeadingBlank(s: string)
    ensures Tokens(Split([' '] + s, ',')) == Tokens(Split(s, ','))
  {
    var p := Split(s, ',');
    SplitLeadingBlank(s, ',');
    StripLeadingBlank(p[0]);
    assert Split([' '] + s, ',')[1..] == p[1..];
    assert p == [p[0]] + p[1..];
  }

  /** Splitting a joined token list on commas and stripping gives the tokens back. */
  lemma {:induction false} TokensOfJoin(ts: seq<string>)
    requires forall t :: t in ts ==> t != [] && Stripped(t) && ',' !in t
    ensures Tokens(Split(Join(ts, ", "), ',')) == ts
  {
    if |ts| == 0 {
      TokensCons([], []);
    } else if |ts| == 1 {
      SplitWithoutSep(ts[0], ',');
      TokensCons(ts[0], []);
      assert [ts[0]] + [] == [ts[0]];
    } else {
      var rest := Join(ts[1..], ", ");
      var tail := [' '] + rest;
      assert Join(ts, ", ") == ts[0] + [','] + tail;
      SplitAtSep(ts[0], tail, ',');
      SplitWithoutSep(ts[0], ',');
      assert Split(Join(ts, ", "), ',') == [ts[0]] + Split(tail, ',');
      TokensCons(ts[0], Split(tail, ','));
      TokensLeadingBlank(rest);
      assert forall t :: t in ts[1..] ==> t in ts;
      TokensOfJoin(ts[1..]);
      assert Tokens(Split(tail, ',')) == ts[1..];
      Order.HeadTail(ts);
    }
  }

  /** `normalizar_listas` is idempotent. */
  lemma {:induction false} NormaliseListIdempotent(x: string)
    ensures NormaliseList(NormaliseList(x)) == NormaliseList(x)
  {
    if x != Sentinel {
      var ts := ListTokens(x);
      var r := Join(ts, ", ");
      if r != Sentinel {
        TokensOfJoin(ts);
        TextLessIsStrictTotal();
        Order.SortDistinctOfAscending(ts, Less);
      }
    }
  }

  /** The list normalisation as a cell function; a missing cell never reaches it. */
  function ListCell(c: Option<string>): Option<string> {
    if c.Some? then Some(NormaliseList(c.value)) else c
  }

  function ListRow(r: Row): (t: Row)
    requires r.country.Some? && r.listedIn.Some?
    ensures t == r.(country := Some(NormaliseList(r.country.value)),
                    listedIn := Some(NormaliseList(r.listedIn.value)))
  {
    var t := MapColumns(r, ListColumns, ListCell);
    assert Idempotent(ListCell) by {
      forall x ensures ListCell(ListCell(x)) == ListCell(x) {
        if x.Some? {
          NormaliseListIdempotent(x.value);
        }
      }
    }
    forall c ensures Get(t, c) == if c in ListColumns then ListCell(Get(r, c)) else Get(r, c) {
      MapColumnsGet(r, ListColumns, ListCell, c);
    }
    MapColumnsErase(r, ListColumns, ListCell);
    assert Get(t, Title) == r.title && Get(t, Cast) == r.cast;
    assert Get(t, Director) == r.director && Get(t, Description) == r.description;
    assert Get(t, Country) == ListCell(r.country) && Get(t, ListedIn) == ListCell(r.listedIn);
    t
  }

  function ListStage(rows: seq<Row>): (t: seq<Row>)
    requires forall i :: 0 <= i < |rows| ==> rows[i].country.Some? && rows[i].listedIn.Some?
    ensures |t| == |rows| && forall i :: 0 <= i < |t| ==> t[i] == ListRow(rows[i])
  {
    seq(|rows|, i requires 0 <= i < |rows| => ListRow(rows[i]))
  }

  // ---------------------------------------------------------------------------------
  // Stage 3: corregir_rating_minutos
  // ---------------------------------------------------------------------------------

  /** The only ratings the correction recognises as durations: exact literal matches. */
  const MinuteRatings: seq<string> := ["74 min", "84 min", "66 min"]

  predicate RatingInMinutes(r: Row) {
    r.rating.Some? && r.rating.value in MinuteRatings
  }

  /** The duration counts as blank when it is missing, empty or "unknown". */
  predicate DurationBlank(d: Option<string>) {
    d.None? || d.value == "" || d.value == Sentinel
  }

  /**
   * The rating becomes "unknown" on exactly the rows whose rating is one of the three
   * minute strings; the old rating moves into the duration exactly when that row's
   * duration was blank; nothing else changes.
   */
  function CorrectRow(r: Row): (t: Row)
    ensures t.rating != r.rating <==> RatingInMinutes(r)
    ensures RatingInMinutes(r) ==> t.rating == Some(Sentinel)
    ensures t.duration != r.duration <==> RatingInMinutes(r) && DurationBlank(r.duration)
    ensures t.duration != r.duration ==> t.duration == r.rating
    ensures t.(rating := r.rating, duration := r.duration) == r
  {
    if RatingInMinutes(r) then
      r.(duration := if DurationBlank(r.duration) then r.rating else r.duration, rating := Some(Sentinel))
    else r
  }

  function CorrectionStage(rows: seq<Row>): (t: seq<Row>)
    ensures |t| == |rows| && forall i :: 0 <= i < |t| ==> t[i] == CorrectRow(rows[i])
  {
    seq(|rows|, i requires 0 <= i < |rows| => CorrectRow(rows[i]))
  }

  // ---------------------------------------------------------------------------------
  // Group keys and the mode tables
  // ---------------------------------------------------------------------------------

  /** (release_year, type). */
  type GroupKey = (int, string)

  /** `groupby` drops rows whose key has a missing part, so they belong to no group. */
  function KeyOf(r: Row): Option<GroupKey> {
    if r.releaseYear.Some? && r.kind.Some? then Some((r.releaseYear.value, r.kind.value)) else None
  }

  function GroupKeys(rows: seq<Row>): set<GroupKey> {
    set i | 0 <= i < |rows| && KeyOf(rows[i]).Some? :: KeyOf(rows[i]).value
  }

  /** The date of a row whose date column has been converted (NaT is `None`). */
  function DateOf(r: Row): Option<Date> {
    if r.dateAdded.Parsed? then r.dateAdded.date else None
  }

  /** The rows of group `k` whose date is `d`. */
  ghost function DatedRows(rows: seq<Row>, k: GroupKey, d: Date): set<int> {
    set i | 0 <= i < |rows| && KeyOf(rows[i]) == Some(k) && DateOf(rows[i]) == Some(d)
  }

  /** What one row gives to the dates of group `k`: its date, if it has one and is in `k`. */
  function GroupDate(r: Row, k: GroupKey): seq<Date> {
    if KeyOf(r) == Some(k) && DateOf(r).Some? then [DateOf(r).value] else []
  }

  /** A last row is one more row of group `k` with date `d` exactly when it has both. */
  lemma DatedRowsSnoc(init: seq<Row>, last: Row, k: GroupKey, d: Date)
    ensures |DatedRows(init + [last], k, d)| == |DatedRows(init, k, d)| + if KeyOf(last) == Some(k) && DateOf(last) == Some(d) then 1 else 0
  {
    var rows := init + [last];
    var here: set<int> := if KeyOf(last) == Some(k) && DateOf(last) == Some(d) then {|init|} else {};
    assert DatedRows(rows, k, d) == DatedRows(init, k, d) + here by {
      forall i ensures i in DatedRows(rows, k, d) <==> i in DatedRows(init, k, d) + here {
        if 0 <= i < |init| {
          assert rows[i] == init[i];
        } else if i == |init| {
          assert rows[i] == last;
        }
      }
    }
    assert |init| !in DatedRows(init, k, d);
  }

  /** A last row adds its own date, once, to the dates of the rows before it. */
  lemma DatesSnoc(init: seq<Row>, last: Row, k: GroupKey, rest: seq<Date>)
    requires forall d :: d in rest <==> exists i :: 0 <= i < |init| && KeyOf(init[i]) == Some(k) && DateOf(init[i]) == Some(d)
    requires forall d :: Order.Count(rest, d) == |DatedRows(init, k, d)|
    ensures var rows, ds := init + [last], rest + GroupDate(last, k);
      && (forall d :: d in ds <==> exists i :: 0 <= i < |rows| && KeyOf(rows[i]) == Some(k) && DateOf(rows[i]) == Some(d))
      && (forall d :: Order.Count(ds, d) == |DatedRows(rows, k, d)|)
  {
    var rows, tail := init + [last], GroupDate(last, k);
    forall d
      ensures d in rest + tail <==> exists i :: 0 <= i < |rows| && KeyOf(rows[i]) == Some(k) && DateOf(rows[i]) == Some(d)
      ensures Order.Count(rest + tail, d) == |DatedRows(rows, k, d)|
    {
      DatedRowsSnoc(init, last, k, d);
      assert multiset(rest + tail) == multiset(rest) + multiset(tail);
      if d in rest {
        var i :| 0 <= i < |init| && KeyOf(init[i]) == Some(k) && DateOf(init[i]) == Some(d);
        assert rows[i] == init[i];
      } else if d in tail {
        assert rows[|init|] == last;
      } else {
        forall i | 0 <= i < |rows| ensures !(KeyOf(rows[i]) == Some(k) && DateOf(rows[i]) == Some(d)) {
          if i < |init| {
            assert rows[i] == init[i];
          }
        }
      }
    }
  }

  /**
   * The dates of the dated rows of group `k`, in row order: each date as often as rows of
   * the group carry it.
   */
  function GroupDates(rows: seq<Row>, k: GroupKey): (ds: seq<Date>)
    ensures forall d :: d in ds <==> exists i :: 0 <= i < |rows| && KeyOf(rows[i]) == Some(k) && DateOf(rows[i]) == Some(d)
    ensures forall d :: Order.Count(ds, d) == |DatedRows(rows, k, d)|
    decreases |rows|
  {
    if rows == [] then
      assert forall d :: DatedRows(rows, k, d) == {};
      []
    else
      var init, last := rows[..|rows| - 1], rows[|rows| - 1];
      var rest := GroupDates(init, k);
      DatesSnoc(init, last, k, rest);
      assert rows == init + [last];
      rest + GroupDate(last, k)
  }

  /** `moda_por_anio_tipo`: for each group with a dated row, its least most frequent date. */
  function DateModes(rows: seq<Row>): map<GroupKey, Date> {
    map k | k in GroupKeys(rows) && |GroupDates(rows, k)| > 0 :: Order.Mode(GroupDates(rows, k), DateLess)
  }

  lemma DateModesSpec(rows: seq<Row>)
    ensures forall k :: k in DateModes(rows) <==>
      exists i :: 0 <= i < |rows| && KeyOf(rows[i]) == Some(k) && DateOf(rows[i]).Some?
    ensures forall k :: k in DateModes(rows) ==>
      Order.IsLeastMode(GroupDates(rows, k), DateLess, DateModes(rows)[k])
  {
    forall k | exists i :: 0 <= i < |rows| && KeyOf(rows[i]) == Some(k) && DateOf(rows[i]).Some?
      ensures k in DateModes(rows)
    {
      var i :| 0 <= i < |rows| && KeyOf(rows[i]) == Some(k) && DateOf(rows[i]).Some?;
      assert DateOf(rows[i]).value in GroupDates(rows, k);
    }
    forall k | k in DateModes(rows)
      ensures Order.IsLeastMode(GroupDates(rows, k), DateLess, DateModes(rows)[k])
      ensures exists i :: 0 <= i < |rows| && KeyOf(rows[i]) == Some(k) && DateOf(rows[i]).Some?
    {
      DateLessIsStrictTotal();
      Order.ModeIsLeastMode(GroupDates(rows, k), DateLess);
      assert GroupDates(rows, k)[0] in GroupDates(rows, k);
    }
  }

  // ---------------------------------------------------------------------------------
  // Stage 4: imputar_fecha
  // ---------------------------------------------------------------------------------

  /** `pd.to_datetime(..., errors='coerce')` on one cell; `parse` stands for pandas' parser. */
  function ParsedDate(c: DateCell, parse: string -> Option<Date>): Option<Date> {
    match c
    case Unparsed(t) => if t.Some? then parse(t.value) else None
    case Parsed(d) => d
  }

  function ConvertDate(r: Row, parse: string -> Option<Date>): Row {
    r.(dateAdded := Parsed(ParsedDate(r.dateAdded, parse)))
  }

  function ConvertDates(rows: seq<Row>, parse: string -> Option<Date>): (t: seq<Row>)
    ensures |t| == |rows| && forall i :: 0 <= i < |t| ==> t[i] == ConvertDate(rows[i], parse)
  {
    seq(|rows|, i requires 0 <= i < |rows| => ConvertDate(rows[i], parse))
  }

  /** The fallback chain of `_imputar`: group mode, else 1 January of the year, else 1900-01-01. */
  function ImputedDate(r: Row, modes: map<GroupKey, Date>): Date {
    if KeyOf(r).Some? && KeyOf(r).value in modes then modes[KeyOf(r).value]
    else if r.releaseYear.Some? then Date(r.releaseYear.value, 1, 1)
    else Date(1900, 1, 1)
  }

  function ImputeDateRow(r: Row, modes: map<GroupKey, Date>): (t: Row)
    requires r.dateAdded.Parsed?
    ensures DateOf(t).Some?
    ensures t.dateImputed <==> r.dateAdded.date.None?
    ensures !t.dateImputed ==> t.dateAdded == r.dateAdded
    ensures t.(dateAdded := r.dateAdded, dateImputed := r.dateImputed) == r
  {
    if r.dateAdded.date.Some? then r.(dateImputed := false)
    else r.(dateAdded := Parsed(Some(ImputedDate(r, modes))), dateImputed := true)
  }

  function DateStage(rows: seq<Row>, parse: string -> Option<Date>): (t: seq<Row>)
    ensures |t| == |rows|
  {
    var conv := ConvertDates(rows, parse);
    var modes := DateModes(conv);
    seq(|rows|, i requires 0 <= i < |rows| => ImputeDateRow(conv[i], modes))
  }

  /**
   * `imputar_fecha` on row `i`: a row with a parseable date keeps it, flagged not imputed.
   * A row without one is flagged imputed and gets the least most frequent date of its
   * (release_year, type) group if that group has a dated row, else 1 January of its
   * release year if it has one, else 1900-01-01. Nothing else in the row changes.
   */
  lemma DateStageAt(rows: seq<Row>, parse: string -> Option<Date>, i: int)
    requires 0 <= i < |rows|
    ensures DateStage(rows, parse)[i] == ImputeDateRow(ConvertDates(rows, parse)[i], DateModes(ConvertDates(rows, parse)))
  {
  }

  lemma DateStageSpec(rows: seq<Row>, parse: string -> Option<Date>, i: int)
    requires 0 <= i < |rows|
    ensures var t, d := DateStage(rows, parse)[i], ParsedDate(rows[i].dateAdded, parse);
      && t.(dateAdded := rows[i].dateAdded, dateImputed := rows[i].dateImputed) == rows[i]
      && t.dateAdded.Parsed? && t.dateAdded.date.Some?
      && (t.dateImputed <==> d.None?)
      && (d.Some? ==> t.dateAdded.date == d)
  {
    DateStageAt(rows, parse, i);
  }

  /** Which date an imputed row receives. */
  lemma DateImputedSpec(rows: seq<Row>, parse: string -> Option<Date>, i: int)
    requires 0 <= i < |rows|
    requires ParsedDate(rows[i].dateAdded, parse).None?
    ensures var t, k, conv := DateStage(rows, parse)[i], KeyOf(rows[i]), ConvertDates(rows, parse);
      && ((k.Some? && exists j :: 0 <= j < |rows| && KeyOf(rows[j]) == k && ParsedDate(rows[j].dateAdded, parse).Some?)
          ==> Order.IsLeastMode(GroupDates(conv, k.value), DateLess, t.dateAdded.date.value))
      && (!(k.Some? && exists j :: 0 <= j < |rows| && KeyOf(rows[j]) == k && ParsedDate(rows[j].dateAdded, parse).Some?)
          ==> t.dateAdded.date.value == if rows[i].releaseYear.Some? then Date(rows[i].releaseYear.value, 1, 1) else Date(1900, 1, 1))
  {
    var conv := ConvertDates(rows, parse);
    DateStageAt(rows, parse, i);
    DateStageSpec(rows, parse, i);
    DateModesSpec(conv);
    assert forall j :: 0 <= j < |rows| ==> KeyOf(conv[j]) == KeyOf(rows[j]) && DateOf(conv[j]) == ParsedDate(rows[j].dateAdded, parse);
  }

  // ---------------------------------------------------------------------------------
  // Stage 5: normalizar_duracion
  // ---------------------------------------------------------------------------------

  /** The duration text: a missing one becomes "unknown", then it is lowercased and trimmed. */
  function NormaliseDuration(d: Option<string>): string {
    Strip(Lower(d.GetOr(Sentinel)))
  }

  /**
   * The two capture groups of the duration pattern (a digit run, then optional blanks and an
   * optional unit token); `None` is NaN.
   */
  datatype Extracted = Extracted(digits: Option<string>, unit: Option<string>)

  /** Where `re.search` starts: the first digit at or after `from`. */
  function FirstDigit(s: string, from: nat): (i: nat)
    requires from <= |s|
    ensures from <= i <= |s|
    ensures forall j :: from <= j < i ==> !IsDigit(s[j])
    ensures i < |s| ==> IsDigit(s[i])
    decreases |s| - from
  {
    if from == |s| || IsDigit(s[from]) then from else FirstDigit(s, from + 1)
  }

  /** Where the greedy `\d+` starting at `from` stops. */
  function DigitsEnd(s: string, from: nat): (j: nat)
    requires from <= |s|
    ensures from <= j <= |s|
    ensures forall k :: from <= k < j ==> IsDigit(s[k])
    ensures j < |s| ==> !IsDigit(s[j])
    decreases |s| - from
  {
    if from < |s| && IsDigit(s[from]) then DigitsEnd(s, from + 1) else from
  }

  /** Where the greedy `\s*` starting at `from` stops. */
  function SpacesEnd(s: string, from: nat): (j: nat)
    requires from <= |s|
    ensures from <= j <= |s|
    ensures forall k :: from <= k < j ==> IsSpace(s[k])
    ensures j < |s| ==> !IsSpace(s[j])
    decreases |s| - from
  {
    if from < |s| && IsSpace(s[from]) then SpacesEnd(s, from + 1) else from
  }

  predicate StartsWithAt(s: string, k: nat, token: string) {
    k + |token| <= |s| && s[k..k + |token|] == token
  }

  /** The optional group `(min|season|seasons)?`: alternatives are tried left to right. */
  function UnitAt(s: string, k: nat): Option<string> {
    if StartsWithAt(s, k, "min") then Some("min")
    else if StartsWithAt(s, k, "season") then Some("season")
    else if StartsWithAt(s, k, "seasons") then Some("seasons")
    else None
  }

  /** `seasons` can never be captured: whenever it is there, `season` matched first. */
  lemma UnitNeverSeasons(s: string, k: nat)
    ensures UnitAt(s, k) != Some("seasons")
  {
    if StartsWithAt(s, k, "seasons") {
      assert s[k..k + 6] == s[k..k + 7][..6];
    }
  }

  /** `str.extract` of the duration pattern on one string. */
  function Extract(s: string): (e: Extracted)
    ensures e.digits.None? <==> forall j :: 0 <= j < |s| ==> !IsDigit(s[j])
    ensures e.digits.None? ==> e.unit.None?
    ensures e.digits.Some? ==> e.digits.value != [] && forall c :: c in e.digits.value ==> IsDigit(c)
    ensures e.unit.Some? ==> e.unit.value == "min" || e.unit.value == "season"
  {
    var i := FirstDigit(s, 0);
    if i == |s| then Extracted(None, None)
    else
      var j := DigitsEnd(s, i);
      var k := SpacesEnd(s, j);
      UnitNeverSeasons(s, k);
      Extracted(Some(s[i..j]), UnitAt(s, k))
  }

  lemma {:induction false} FirstDigitAt(s: string, from: nat, i: nat)
    requires from <= i < |s| && IsDigit(s[i])
    requires forall j :: from <= j < i ==> !IsDigit(s[j])
    ensures FirstDigit(s, from) == i
    decreases i - from
  {
    if from < i {
      FirstDigitAt(s, from + 1, i);
    }
  }

  lemma {:induction false} DigitsEndAt(s: string, from: nat, j: nat)
    requires from <= j <= |s|
    requires forall k :: from <= k < j ==> IsDigit(s[k])
    requires j < |s| ==> !IsDigit(s[j])
    ensures DigitsEnd(s, from) == j
    decreases j - from
  {
    if from < j {
      DigitsEndAt(s, from + 1, j);
    }
  }

  lemma {:induction false} SpacesEndAt(s: string, from: nat, j: nat)
    requires from <= j <= |s|
    requires forall k :: from <= k < j ==> IsSpace(s[k])
    requires j < |s| ==> !IsSpace(s[j])
    ensures SpacesEnd(s, from) == j
    decreases j - from
  {
    if from < j {
      SpacesEndAt(s, from + 1, j);
    }
  }

  /**
   * The pattern's match, stated on the shape of the string: text without digits, the
   * first run of digits (taken whole), the blanks after it (taken whole), then the unit
   * token found at the start of what follows, `min` before `season` before `seasons`.
   */
  lemma ExtractShape(pre: string, ds: string, sp: string, rest: string)
    requires forall c :: c in pre ==> !IsDigit(c)
    requires ds != [] && forall c :: c in ds ==> IsDigit(c)
    requires forall c :: c in sp ==> IsSpace(c)
    requires sp + rest == [] || !IsDigit((sp + rest)[0])
    requires rest == [] || !IsSpace(rest[0])
    ensures Extract(pre + ds + sp + rest) == Extracted(Some(ds),
      if |rest| >= 3 && rest[..3] == "min" then Some("min")
      else if |rest| >= 6 && rest[..6] == "season" then Some("season")
      else None)
  {
    var s := pre + ds + sp + rest;
    var i, j, k := |pre|, |pre| + |ds|, |pre| + |ds| + |sp|;
    ShapeFirstDigit(pre, ds, sp, rest);
    ShapeDigitsEnd(pre, ds, sp, rest);
    ShapeSpacesEnd(pre, ds, sp, rest);
    ExtractAt(s, i, j, k);
    assert s[i..j] == ds by {
      assert s == (pre + ds) + (sp + rest);
      assert s[..j] == pre + ds;
      assert s[i..j] == s[..j][i..];
    }
    assert s[k..] == rest by {
      assert s == (pre + ds + sp) + rest;
    }
    UnitAtRest(s, k, rest);
  }

  lemma ExtractAt(s: string, i: nat, j: nat, k: nat)
    requires i < |s| && FirstDigit(s, 0) == i
    requires i <= |s| && DigitsEnd(s, i) == j
    requires j <= |s| && SpacesEnd(s, j) == k
    ensures Extract(s) == Extracted(Some(s[i..j]), UnitAt(s, k))
  {
  }

  /** The unit found at `k` depends only on what follows `k`. */
  lemma UnitAtRest(s: string, k: nat, rest: string)
    requires k <= |s| && s[k..] == rest
    ensures UnitAt(s, k) ==
      if |rest| >= 3 && rest[..3] == "min" then Some("min")
      else if |rest| >= 6 && rest[..6] == "season" then Some("season")
      else None
  {
    StartsWithSuffix(s, k, "min");
    StartsWithSuffix(s, k, "season");
    UnitNeverSeasons(s, k);
  }

  lemma ShapeFirstDigit(pre: string, ds: string, sp: string, rest: string)
    requires forall c :: c in pre ==> !IsDigit(c)
    requires ds != [] && IsDigit(ds[0])
    ensures FirstDigit(pre + ds + sp + rest, 0) == |pre|
  {
    var s := pre + ds + sp + rest;
    assert forall x :: 0 <= x < |pre| ==> s[x] == pre[x];
    assert s[|pre|] == ds[0];
    FirstDigitAt(s, 0, |pre|);
  }

  lemma ShapeDigitsEnd(pre: string, ds: string, sp: string, rest: string)
    requires forall c :: c in ds ==> IsDigit(c)
    requires sp + rest == [] || !IsDigit((sp + rest)[0])
    ensures DigitsEnd(pre + ds + sp + rest, |pre|) == |pre| + |ds|
  {
    var s := pre + ds + sp + rest;
    var i, j := |pre|, |pre| + |ds|;
    assert s == (pre + ds) + (sp + rest);
    forall x | i <= x < j ensures IsDigit(s[x]) {
      assert s[x] == (pre + ds)[x] == ds[x - i];
      assert ds[x - i] in ds;
    }
    if j < |s| {
      assert s[j] == (sp + rest)[0];
    }
    DigitsEndAt(s, i, j);
  }

  lemma ShapeSpacesEnd(pre: string, ds: string, sp: string, rest: string)
    requires forall c :: c in sp ==> IsSpace(c)
    requires rest == [] || !IsSpace(rest[0])
    ensures SpacesEnd(pre + ds + sp + rest, |pre| + |ds|) == |pre| + |ds| + |sp|
  {
    var a := pre + ds;
    var s := pre + ds + sp + rest;
    var j, k := |pre| + |ds|, |pre| + |ds| + |sp|;
    assert s == (a + sp) + rest;
    forall x | j <= x < k ensures IsSpace(s[x]) {
      assert s[x] == (a + sp)[x] == sp[x - j];
      assert sp[x - j] in sp;
    }
    if k < |s| {
      assert s[k] == rest[0];
    }
    SpacesEndAt(s, j, k);
  }

  lemma StartsWithSuffix(s: string, k: nat, token: string)
    requires k <= |s|
    ensures StartsWithAt(s, k, token) <==> |s[k..]| >= |token| && s[k..][..|token|] == token
  {
    if k + |token| <= |s| {
      assert s[k..][..|token|] == s[k..k + |token|];
    }
  }

  /** The value of one decimal digit (0 for any other character). */
  function DigitValue(c: char): (v: nat)
    ensures v <= 9
    ensures IsDigit(c) ==> v as int == c as int - '0' as int
  {
    if IsDigit(c) then c as int - '0' as int else 0
  }

  function Pow10(n: nat): (p: nat)
    ensures p >= 1
  {
    if n == 0 then 1 else 10 * Pow10(n - 1)
  }

  /** The numeric conversion of a run of decimal digits, read from the left. */
  function DigitsValue(ds: string): nat
    decreases |ds|
  {
    if ds == [] then 0
    else DigitsValue(ds[..|ds| - 1]) * 10 + DigitValue(ds[|ds| - 1])
  }

  /** Positional notation: the digits of `a` stand `|b|` places above those of `b`. */
  lemma {:induction false} DigitsValueAppend(a: string, b: string)
    ensures DigitsValue(a + b) == DigitsValue(a) * Pow10(|b|) + DigitsValue(b)
    decreases |b|
  {
    if b == [] {
      assert a + b == a;
    } else {
      var init := b[..|b| - 1];
      var last := b[|b| - 1];
      assert (a + b)[..|a + b| - 1] == a + init;
      assert (a + b)[|a + b| - 1] == last;
      DigitsValueAppend(a, init);
      assert b[..|b| - 1] == init;
      assert DigitsValue(a + b) == DigitsValue(a + init) * 10 + DigitValue(last);
      assert DigitsValue(b) == DigitsValue(init) * 10 + DigitValue(last);
      assert Pow10(|b|) == Pow10(|init|) * 10;
      ShiftDecimal(DigitsValue(a), Pow10(|init|), DigitsValue(init), DigitValue(last));
    }
  }

  lemma ShiftDecimal(high: int, p: int, low: int, d: int)
    ensures (high * p + low) * 10 + d == high * (p * 10) + (low * 10 + d)
  {
  }

  /** `n` digits stand for a number below `10^n`, so leading digits weigh the most. */
  lemma {:induction false} DigitsValueBound(ds: string)
    ensures DigitsValue(ds) < Pow10(|ds|)
    decreases |ds|
  {
    if ds != [] {
      DigitsValueBound(ds[..|ds| - 1]);
      assert DigitsValue(ds[..|ds| - 1]) + 1 <= Pow10(|ds| - 1);
      assert DigitsValue(ds) < (DigitsValue(ds[..|ds| - 1]) + 1) * 10;
    }
  }

  /** Type values are compared after `str.lower()`, without trimming; NaN matches nothing. */
  predicate KindIs(kind: Option<string>, name: string) {
    kind.Some? && Lower(kind.value) == name
  }

  /** The unit backfill: an "unknown" unit becomes "min" for a movie and "seasons" for a TV show. */
  function BackfillUnit(kind: Option<string>, unit: string): string {
    if KindIs(kind, "movie") && unit == Sentinel then "min"
    else if KindIs(kind, "tv show") && unit == Sentinel then "seasons"
    else unit
  }

  function DurationRow(r: Row): Row {
    var d := NormaliseDuration(r.duration);
    var e := Extract(d);
    r.(duration := Some(d),
       durationValue := if e.digits.Some? then Some(DigitsValue(e.digits.value)) else None,
       durationUnit := BackfillUnit(r.kind, e.unit.GetOr(Sentinel)))
  }

  /**
   * `normalizar_duracion` on one row: the value is absent exactly when the normalised
   * duration has no digit; the unit is "min" or "season" when one was captured, "min" or
   * "seasons" when backfilled from a movie or TV-show type, and "unknown" only when neither
   * happened; only the three duration columns change.
   */
  lemma DurationRowSpec(r: Row)
    ensures var t, d := DurationRow(r), NormaliseDuration(r.duration);
      && t.duration == Some(d)
      && (t.durationValue.None? <==> forall j :: 0 <= j < |d| ==> !IsDigit(d[j]))
      && (t.durationValue.Some? ==> t.durationValue.value == DigitsValue(Extract(d).digits.value))
      && t.(duration := r.duration, durationValue := r.durationValue, durationUnit := r.durationUnit) == r
  {
  }

  /** The duration unit: captured, backfilled from the type, or "unknown". */
  lemma DurationUnitSpec(r: Row)
    ensures var u, e := DurationRow(r).durationUnit, Extract(NormaliseDuration(r.duration));
      && (u == "min" || u == "season" || u == "seasons" || u == Sentinel)
      && (u == "seasons" ==> KindIs(r.kind, "tv show") && e.unit.None?)
      && (u == Sentinel <==> e.unit.None? && !KindIs(r.kind, "movie") && !KindIs(r.kind, "tv show"))
      && (e.unit.Some? ==> u == e.unit.value)
      && (e.unit.None? && KindIs(r.kind, "movie") ==> u == "min")
      && (e.unit.None? && KindIs(r.kind, "tv show") ==> u == "seasons")
  {
    var e := Extract(NormaliseDuration(r.duration));
    assert DurationRow(r).durationUnit == BackfillUnit(r.kind, e.unit.GetOr(Sentinel));
  }

  function DurationStage(rows: seq<Row>): (t: seq<Row>)
    ensures |t| == |rows| && forall i :: 0 <= i < |t| ==> t[i] == DurationRow(rows[i])
  {
    seq(|rows|, i requires 0 <= i < |rows| => DurationRow(rows[i]))
  }

  // ---------------------------------------------------------------------------------
  // Stage 6: imputar_rating
  // ---------------------------------------------------------------------------------

  const UnknownRating: string := "UNKNOWN"

  /** The rating text: a missing one becomes "unknown", then it is trimmed and uppercased. */
  function NormaliseRating(c: Option<string>): (r: string)
    ensures c.None? ==> r == UnknownRating
  {
    assert Stripped(Sentinel);
    assert Upper(Sentinel) == UnknownRating by {
      assert forall i :: 0 <= i < |Sentinel| ==> IsLower(Sentinel[i]);
    }
    Upper(Strip(c.GetOr(Sentinel)))
  }

  /** Normalising a normalised rating changes nothing. */
  lemma NormaliseRatingIdempotent(c: Option<string>)
    ensures NormaliseRating(Some(NormaliseRating(c))) == NormaliseRating(c)
  {
    UpperStripFixed(c.GetOr(Sentinel));
  }

  /** The rows of group `k` whose rating is `x`, other than "UNKNOWN". */
  ghost function RatedRows(rows: seq<Row>, k: GroupKey, x: string): set<int> {
    set i | 0 <= i < |rows| && KeyOf(rows[i]) == Some(k) && rows[i].rating == Some(x) && x != UnknownRating
  }

  /** What one row gives to the ratings of group `k`: its rating, unless missing or "UNKNOWN". */
  function GroupRating(r: Row, k: GroupKey): seq<string> {
    if KeyOf(r) == Some(k) && r.rating.Some? && r.rating.value != UnknownRating then [r.rating.value] else []
  }

  /** A last row is one more row of group `k` with rating `x` exactly when it has both. */
  lemma RatedRowsSnoc(init: seq<Row>, last: Row, k: GroupKey, x: string)
    ensures |RatedRows(init + [last], k, x)| == |RatedRows(init, k, x)| + if KeyOf(last) == Some(k) && last.rating == Some(x) && x != UnknownRating then 1 else 0
  {
    var rows := init + [last];
    var here: set<int> := if KeyOf(last) == Some(k) && last.rating == Some(x) && x != UnknownRating then {|init|} else {};
    assert RatedRows(rows, k, x) == RatedRows(init, k, x) + here by {
      forall i ensures i in RatedRows(rows, k, x) <==> i in RatedRows(init, k, x) + here {
        if 0 <= i < |init| {
          assert rows[i] == init[i];
        } else if i == |init| {
          assert rows[i] == last;
        }
      }
    }
    assert |init| !in RatedRows(init, k, x);
  }

  /** A last row adds its own rating, once, to the ratings of the rows before it. */
  lemma RatingsSnoc(init: seq<Row>, last: Row, k: GroupKey, rest: seq<string>)
    requires forall x :: x in rest <==>
      exists i :: 0 <= i < |init| && KeyOf(init[i]) == Some(k) && init[i].rating == Some(x) && x != UnknownRating
    requires forall x :: Order.Count(rest, x) == |RatedRows(init, k, x)|
    ensures var rows, rs := init + [last], rest + GroupRating(last, k);
      && (forall x :: x in rs <==>
            exists i :: 0 <= i < |rows| && KeyOf(rows[i]) == Some(k) && rows[i].rating == Some(x) && x != UnknownRating)
      && (forall x :: Order.Count(rs, x) == |RatedRows(rows, k, x)|)
  {
    var rows, tail := init + [last], GroupRating(last, k);
    forall x
      ensures x in rest + tail <==>
        exists i :: 0 <= i < |rows| && KeyOf(rows[i]) == Some(k) && rows[i].rating == Some(x) && x != UnknownRating
      ensures Order.Count(rest + tail, x) == |RatedRows(rows, k, x)|
    {
      RatedRowsSnoc(init, last, k, x);
      assert multiset(rest + tail) == multiset(rest) + multiset(tail);
      if x in rest {
        var i :| 0 <= i < |init| && KeyOf(init[i]) == Some(k) && init[i].rating == Some(x) && x != UnknownRating;
        assert rows[i] == init[i];
      } else if x in tail {
        assert rows[|init|] == last;
      } else {
        forall i | 0 <= i < |rows| ensures !(KeyOf(rows[i]) == Some(k) && rows[i].rating == Some(x) && x != UnknownRating) {
          if i < |init| {
            assert rows[i] == init[i];
          }
        }
      }
    }
  }

  /**
   * The ratings of group `k` other than "UNKNOWN", in row order: each rating as often as
   * rows of the group carry it.
   */
  function GroupRatings(rows: seq<Row>, k: GroupKey): (rs: seq<string>)
    ensures forall x :: x in rs <==> exists i :: 0 <= i < |rows| && KeyOf(rows[i]) == Some(k) && rows[i].rating == Some(x) && x != UnknownRating
    ensures forall x :: Order.Count(rs, x) == |RatedRows(rows, k, x)|
    decreases |rows|
  {
    if rows == [] then
      assert forall x :: RatedRows(rows, k, x) == {};
      []
    else
      var init, last := rows[..|rows| - 1], rows[|rows| - 1];
      var rest := GroupRatings(init, k);
      RatingsSnoc(init, last, k, rest);
      assert rows == init + [last];
      rest + GroupRating(last, k)
  }

  /** `moda_rating`: for each group with a rating other than "UNKNOWN", its least most frequent one. */
  function RatingModes(rows: seq<Row>): map<GroupKey, string> {
    map k | k in GroupKeys(rows) && |GroupRatings(rows, k)| > 0 :: Order.Mode(GroupRatings(rows, k), Less)
  }

  lemma RatingModesSpec(rows: seq<Row>)
    ensures forall k :: k in RatingModes(rows) <==>
      exists i :: 0 <= i < |rows| && KeyOf(rows[i]) == Some(k) && rows[i].rating.Some? && rows[i].rating.value != UnknownRating
    ensures forall k :: k in RatingModes(rows) ==>
      Order.IsLeastMode(GroupRatings(rows, k), Less, RatingModes(rows)[k])
  {
    forall k | exists i :: 0 <= i < |rows| && KeyOf(rows[i]) == Some(k) && rows[i].rating.Some? && rows[i].rating.value != UnknownRating
      ensures k in RatingModes(rows)
    {
      var i :| 0 <= i < |rows| && KeyOf(rows[i]) == Some(k) && rows[i].rating.Some? && rows[i].rating.value != UnknownRating;
      assert rows[i].rating.value in GroupRatings(rows, k);
    }
    forall k | k in RatingModes(rows)
      ensures Order.IsLeastMode(GroupRatings(rows, k), Less, RatingModes(rows)[k])
      ensures exists i :: 0 <= i < |rows| && KeyOf(rows[i]) == Some(k) && rows[i].rating.Some? && rows[i].rating.value != UnknownRating
    {
      TextLessIsStrictTotal();
      Order.ModeIsLeastMode(GroupRatings(rows, k), Less);
      assert GroupRatings(rows, k)[0] in GroupRatings(rows, k);
    }
  }

  /** A normalised rating counts as missing when it is "UNKNOWN" or empty. */
  predicate RatingMissing(s: string) {
    s == UnknownRating || s == ""
  }

  function NormaliseRatingRow(r: Row): Row {
    r.(rating := Some(NormaliseRating(r.rating)))
  }

  function ImputeRatingRow(r: Row, modes: map<GroupKey, string>): (t: Row)
    requires r.rating.Some?
    ensures t.rating.Some?
    ensures t.ratingImputed <==> RatingMissing(r.rating.value)
    ensures !t.ratingImputed ==> t.rating == r.rating
    ensures t.(rating := r.rating, ratingImputed := r.ratingImputed) == r
  {
    if RatingMissing(r.rating.value) then
      r.(rating := Some(if KeyOf(r).Some? && KeyOf(r).value in modes then modes[KeyOf(r).value] else UnknownRating),
         ratingImputed := true)
    else r.(ratingImputed := false)
  }

  function NormaliseRatings(rows: seq<Row>): (t: seq<Row>)
    ensures |t| == |rows| && forall i :: 0 <= i < |t| ==> t[i] == NormaliseRatingRow(rows[i])
  {
    seq(|rows|, i requires 0 <= i < |rows| => NormaliseRatingRow(rows[i]))
  }

  function RatingStage(rows: seq<Row>): (t: seq<Row>)
    ensures |t| == |rows|
  {
    var norm := NormaliseRatings(rows);
    var modes := RatingModes(norm);
    seq(|rows|, i requires 0 <= i < |rows| => ImputeRatingRow(norm[i], modes))
  }

  /**
   * `imputar_rating` on row `i`: every rating is trimmed and upper-cased first. A row whose
   * rating is then "UNKNOWN" or "" is flagged imputed and gets the least most frequent
   * non-"UNKNOWN" rating of its group, or "UNKNOWN" if the group has none; any other row
   * keeps its rating, flagged not imputed. Nothing else in the row changes.
   */
  lemma RatingStageAt(rows: seq<Row>, i: int)
    requires 0 <= i < |rows|
    ensures RatingStage(rows)[i] == ImputeRatingRow(NormaliseRatings(rows)[i], RatingModes(NormaliseRatings(rows)))
  {
  }

  lemma RatingStageSpec(rows: seq<Row>, i: int)
    requires 0 <= i < |rows|
    ensures var t, v := RatingStage(rows)[i], NormaliseRating(rows[i].rating);
      && t.(rating := rows[i].rating, ratingImputed := rows[i].ratingImputed) == rows[i]
      && t.rating.Some?
      && (t.ratingImputed <==> RatingMissing(v))
      && (!RatingMissing(v) ==> t.rating == Some(v))
  {
    RatingStageAt(rows, i);
  }

  /** Some row of group `k` has a normalised rating other than "UNKNOWN". */
  ghost predicate GroupHasRating(rows: seq<Row>, k: GroupKey) {
    exists j :: 0 <= j < |rows| && KeyOf(rows[j]) == Some(k) && NormaliseRating(rows[j].rating) != UnknownRating
  }

  lemma NormaliseRatingRowKeepsKey(r: Row)
    ensures KeyOf(NormaliseRatingRow(r)) == KeyOf(r)
    ensures NormaliseRatingRow(r).rating == Some(NormaliseRating(r.rating))
  {
  }

  lemma NormalisedGroupHasRating(rows: seq<Row>, k: GroupKey)
    ensures var norm := NormaliseRatings(rows);
      GroupHasRating(rows, k) <==>
      exists j :: 0 <= j < |norm| && KeyOf(norm[j]) == Some(k) && norm[j].rating.Some? && norm[j].rating.value != UnknownRating
  {
    var norm := NormaliseRatings(rows);
    if GroupHasRating(rows, k) {
      var j :| 0 <= j < |rows| && KeyOf(rows[j]) == Some(k) && NormaliseRating(rows[j].rating) != UnknownRating;
      NormaliseRatingRowKeepsKey(rows[j]);
      assert norm[j] == NormaliseRatingRow(rows[j]);
    }
    if exists j :: 0 <= j < |norm| && KeyOf(norm[j]) == Some(k) && norm[j].rating.Some? && norm[j].rating.value != UnknownRating {
      var j :| 0 <= j < |norm| && KeyOf(norm[j]) == Some(k) && norm[j].rating.Some? && norm[j].rating.value != UnknownRating;
      NormaliseRatingRowKeepsKey(rows[j]);
      assert norm[j] == NormaliseRatingRow(rows[j]);
    }
  }

  /** Which rating an imputed row receives. */
  lemma RatingImputedSpec(rows: seq<Row>, i: int)
    requires 0 <= i < |rows|
    requires RatingMissing(NormaliseRating(rows[i].rating))
    ensures var t, k := RatingStage(rows)[i], KeyOf(rows[i]);
      && (k.Some? && GroupHasRating(rows, k.value) ==>
          Order.IsLeastMode(GroupRatings(NormaliseRatings(rows), k.value), Less, t.rating.value))
      && (!(k.Some? && GroupHasRating(rows, k.value)) ==> t.rating == Some(UnknownRating))
  {
    var norm := NormaliseRatings(rows);
    var modes := RatingModes(norm);
    var k := KeyOf(rows[i]);
    RatingStageAt(rows, i);
    assert KeyOf(norm[i]) == k && norm[i].rating == Some(NormaliseRating(rows[i].rating));
    if k.Some? {
      RatingModesSpec(norm);
      NormalisedGroupHasRating(rows, k.value);
    }
  }

  // ---------------------------------------------------------------------------------
  // limpiar_dataset: the six stages in the source's order
  // ---------------------------------------------------------------------------------

  function Pipeline(raw: seq<Row>, parse: string -> Option<Date>): (t: seq<Row>)
    ensures |t| == |raw|
  {
    var texts := TextStage(raw);
    var lists := ListStage(texts);
    var corrected := CorrectionStage(lists);
    var dated := DateStage(corrected, parse);
    var durations := DurationStage(dated);
    RatingStage(durations)
  }

  /** The row-level stages keep the row's identity: id, type and release year. */
  predicate SameIdentity(a: Row, b: Row) {
    a.showId == b.showId && a.kind == b.kind && a.releaseYear == b.releaseYear
  }

  /** The four text columns no stage after `limpiar_texto` touches. */
  predicate SameProse(a: Row, b: Row) {
    a.title == b.title && a.director == b.director && a.cast == b.cast && a.description == b.description
  }

  /**
   * What `limpiar_dataset` guarantees for a row `t` cleaned from the raw row `r`: it keeps
   * its id, type and release year; no text, date, rating or duration cell is missing; the
   * date is marked imputed exactly when `r`'s date was missing or unparseable; and the
   * duration unit is one of the four values the duration stage can produce.
   */
  ghost predicate Cleaned(t: Row, r: Row, parse: string -> Option<Date>) {
    && SameIdentity(t, r)
    && t.title.Some? && t.director.Some? && t.cast.Some? && t.country.Some?
    && t.listedIn.Some? && t.description.Some?
    && t.dateAdded.Parsed? && t.dateAdded.date.Some?
    && (t.dateImputed <==> ParsedDate(r.dateAdded, parse).None?)
    && t.rating.Some? && t.duration.Some?
    && t.durationUnit in {"min", "season", "seasons", Sentinel}
  }

  lemma PipelineSpec(raw: seq<Row>, parse: string -> Option<Date>, i: int)
    requires 0 <= i < |raw|
    ensures Cleaned(Pipeline(raw, parse)[i], raw[i], parse)
  {
    var corrected := CorrectionStage(ListStage(TextStage(raw)));
    PipelineStages(raw, parse);
    TextRowFills(raw[i]);
    EarlyStages(raw[i], TextStage(raw)[i], corrected[i]);
    LateStages(corrected, parse, i);
    CleanedTransfer(Pipeline(raw, parse)[i], corrected[i], raw[i], parse);
  }

  lemma PipelineStages(raw: seq<Row>, parse: string -> Option<Date>)
    ensures Pipeline(raw, parse) == RatingStage(DurationStage(DateStage(CorrectionStage(ListStage(TextStage(raw))), parse)))
  {
  }

  lemma CleanedTransfer(t: Row, c: Row, r: Row, parse: string -> Option<Date>)
    requires Cleaned(t, c, parse) && SameIdentity(c, r) && c.dateAdded == r.dateAdded
    ensures Cleaned(t, r, parse)
  {
  }

  /** Through the list normalisation and the rating correction. */
  lemma EarlyStages(r: Row, texts: Row, corrected: Row)
    requires texts == TextRow(r)
    requires texts.title.Some? && texts.director.Some? && texts.cast.Some? && texts.description.Some?
    requires texts.country.Some? && texts.listedIn.Some?
    requires corrected == CorrectRow(ListRow(texts))
    ensures SameIdentity(corrected, r) && corrected.dateAdded == r.dateAdded
    ensures corrected.title.Some? && corrected.director.Some? && corrected.cast.Some? && corrected.description.Some?
    ensures corrected.country.Some? && corrected.listedIn.Some?
  {
    assert Erase(texts).(rating := r.rating) == Erase(r);
  }

  /** Through the date, duration and rating stages. */
  lemma LateStages(corrected: seq<Row>, parse: string -> Option<Date>, i: int)
    requires 0 <= i < |corrected|
    requires var c := corrected[i];
      c.title.Some? && c.director.Some? && c.cast.Some? && c.description.Some? && c.country.Some? && c.listedIn.Some?
    ensures Cleaned(RatingStage(DurationStage(DateStage(corrected, parse)))[i], corrected[i], parse)
  {
    var dated := DateStage(corrected, parse);
    var durations := DurationStage(dated);
    var t := RatingStage(durations)[i];
    DateStageSpec(corrected, parse, i);
    assert SameProse(dated[i], corrected[i]) && SameIdentity(dated[i], corrected[i]);
    assert dated[i].country == corrected[i].country && dated[i].listedIn == corrected[i].listedIn;
    DurationRowSpec(dated[i]);
    DurationUnitSpec(dated[i]);
    assert SameProse(durations[i], dated[i]) && SameIdentity(durations[i], dated[i]);
    assert durations[i].country == dated[i].country && durations[i].listedIn == dated[i].listedIn;
    assert durations[i].dateAdded == dated[i].dateAdded && durations[i].dateImputed == dated[i].dateImputed;
    RatingStageSpec(durations, i);
    assert SameProse(t, durations[i]) && SameIdentity(t, durations[i]);
    assert t.country == durations[i].country && t.listedIn == durations[i].listedIn;
    assert t.dateAdded == durations[i].dateAdded && t.dateImputed == durations[i].dateImputed;
    assert t.duration == durations[i].duration && t.durationUnit == durations[i].durationUnit;
  }

  /** "3 seasons": the alternation stops at `season`, so the unit is "season". */
  lemma ThreeSeasons()
    ensures Extract("3 seasons") == Extracted(Some("3"), Some("season"))
  {
    var rest := "seasons";
    assert rest[..3][0] == 's';
    assert rest[..6] == "season";
    ExtractShape("", "3", " ", rest);
    assert "" + "3" + " " + rest == "3 seasons";
  }

  /** "90 min": value 90, unit "min". */
  lemma NinetyMinutes()
    ensures Extract("90 min") == Extracted(Some("90"), Some("min"))
    ensures DigitsValue("90") == 90
  {
    var rest := "min";
    assert rest[..3] == "min";
    ExtractShape("", "90", " ", rest);
    assert "" + "90" + " " + rest == "90 min";
  }

  /** "unknown" has no digit: no value and no unit, which a movie then backfills to "min". */
  lemma UnknownDuration()
    ensures Extract(Sentinel) == Extracted(None, None)
    ensures BackfillUnit(Some("Movie"), Extract(Sentinel).unit.GetOr(Sentinel)) == "min"
  {
    assert forall j :: 0 <= j < |Sentinel| ==> !IsDigit(Sentinel[j]);
    assert Lower("Movie") == "movie" by {
      assert forall j :: 1 <= j < 5 ==> !IsUpper("Movie"[j]);
    }
  }
}
