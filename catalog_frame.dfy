/**
 * The catalog cleaner as the source runs it: a data frame whose columns the six stages
 * overwrite one after the other. The frame is a class holding its rows; each stage is a
 * method that reassigns them, column by column or mask by mask as the source does, and
 * is proved to leave exactly the rows that the matching stage function of `Catalog`
 * describes.
 */
module CatalogFrame {
  import opened Wrappers
  import opened Catalog
  import Order

  class Frame {
    var rows: seq<Row>

    /** The frame `pd.read_csv` would give: the rows as read. */
    constructor (raw: seq<Row>)
      ensures rows == raw
    {
      rows := raw;
    }

    /**
     * `limpiar_texto`: for each of the six text columns in turn, fill, trim and lowercase
     * every cell; then fill the missing ratings with "unknown".
     */
    method CleanText()
      modifies this
      ensures rows == TextStage(old(rows))
    {
      ghost var start := rows;
      for k := 0 to |TextColumns|
        invariant |rows| == |start|
        invariant forall i :: 0 <= i < |rows| ==> rows[i] == MapColumns(start[i], TextColumns[..k], CleanCell)
      {
        var col := TextColumns[k];
        var rs := rows;
        rows := seq(|rs|, i requires 0 <= i < |rs| => Set(rs[i], col, CleanCell(Get(rs[i], col))));
        forall i | 0 <= i < |rows| ensures rows[i] == MapColumns(start[i], TextColumns[..k + 1], CleanCell) {
          MapColumnsStep(start[i], TextColumns, k, CleanCell);
        }
      }
      var rs := rows;
      rows := seq(|rs|, i requires 0 <= i < |rs| => rs[i].(rating := Some(rs[i].rating.GetOr(Sentinel))));
      forall i | 0 <= i < |rows| ensures rows[i] == TextRow(start[i]) {
        TextRowByColumns(start[i]);
      }
    }

    /**
     * `normalizar_listas`: for `country` and then `listed_in`, replace every cell by its
     * sorted, de-duplicated, comma-joined tokens. Every cell is present, as `limpiar_texto`
     * leaves it.
     */
    method NormaliseLists()
      requires forall i :: 0 <= i < |rows| ==> rows[i].country.Some? && rows[i].listedIn.Some?
      modifies this
      ensures rows == ListStage(old(rows))
    {
      ghost var start := rows;
      for k := 0 to |ListColumns|
        invariant |rows| == |start|
        invariant forall i :: 0 <= i < |rows| ==> rows[i] == MapColumns(start[i], ListColumns[..k], ListCell)
      {
        var col := ListColumns[k];
        var rs := rows;
        rows := seq(|rs|, i requires 0 <= i < |rs| => Set(rs[i], col, ListCell(Get(rs[i], col))));
        forall i | 0 <= i < |rows| ensures rows[i] == MapColumns(start[i], ListColumns[..k + 1], ListCell) {
          MapColumnsStep(start[i], ListColumns, k, ListCell);
        }
      }
      assert ListColumns[..|ListColumns|] == ListColumns;
    }

    /**
     * `corregir_rating_minutos`: compute the mask of minute ratings once, move the rating
     * into the blank durations under the mask, then overwrite the masked ratings.
     */
    method CorrectRatingMinutes()
      modifies this
      ensures rows == CorrectionStage(old(rows))
    {
      var rs := rows;
      var mask := seq(|rs|, i requires 0 <= i < |rs| => RatingInMinutes(rs[i]));
      rs := seq(|rs|, i requires 0 <= i < |rs| =>
        if mask[i] && DurationBlank(rs[i].duration) then rs[i].(duration := rs[i].rating) else rs[i]);
      rs := seq(|rs|, i requires 0 <= i < |rs| => if mask[i] then rs[i].(rating := Some(Sentinel)) else rs[i]);
      rows := rs;
    }

    /**
     * `imputar_fecha`: convert the whole date column, build the mode table from the
     * converted rows, reset every flag, then visit the rows one by one and fill each
     * missing date by the fallback chain.
     */
    method ImputeDates(parse: string -> Option<Date>)
      modifies this
      ensures rows == DateStage(old(rows), parse)
    {
      var conv := ConvertDates(rows, parse);
      var modes := DateModes(conv);
      var rs := seq(|conv|, i requires 0 <= i < |conv| => conv[i].(dateImputed := false));
      ghost var target := seq(|rs|, j requires 0 <= j < |rs| => ImputeDateRow(rs[j], modes));
      var out: seq<Row> := [];
      var i := 0;
      while i < |rs|
        invariant 0 <= i <= |rs| && out == target[..i]
      {
        var row := ImputeDateRow(rs[i], modes);
        assert row == target[i];
        Order.PrefixStep(target, i);
        out := out + [row];
        i := i + 1;
      }
      assert out == target;
      forall j | 0 <= j < |out| ensures out[j] == ImputeDateRow(conv[j], modes) {
        ImputeDateRowResetsFlag(conv[j], modes);
      }
      rows := out;
    }

    /**
     * `normalizar_duracion`: normalise the column, match the pattern on every cell, store
     * the number and the unit, then backfill the unit of movies and of TV shows.
     */
    method NormaliseDurations()
      modifies this
      ensures rows == DurationStage(old(rows))
    {
      var raw := rows;
      var ds := seq(|raw|, i requires 0 <= i < |raw| => NormaliseDuration(raw[i].duration));
      var filled := seq(|raw|, i requires 0 <= i < |raw| =>
        raw[i].(duration := Some(ds[i]), durationValue := None, durationUnit := Sentinel));
      var ex := seq(|ds|, i requires 0 <= i < |ds| => Extract(ds[i]));
      var extracted := seq(|filled|, i requires 0 <= i < |filled| =>
        filled[i].(durationValue := if ex[i].digits.Some? then Some(DigitsValue(ex[i].digits.value)) else None,
                   durationUnit := ex[i].unit.GetOr(Sentinel)));
      var movies := seq(|extracted|, i requires 0 <= i < |extracted| =>
        var r := extracted[i];
        if KindIs(r.kind, "movie") && r.durationUnit == Sentinel then r.(durationUnit := "min") else r);
      var shows := seq(|movies|, i requires 0 <= i < |movies| =>
        var r := movies[i];
        if KindIs(r.kind, "tv show") && r.durationUnit == Sentinel then r.(durationUnit := "seasons") else r);
      forall i | 0 <= i < |shows| ensures shows[i] == DurationRow(raw[i]) {
        DurationSteps(raw[i], ds[i], ex[i], filled[i], extracted[i], movies[i], shows[i]);
      }
      rows := shows;
    }

    /**
     * `imputar_rating`: normalise the column, build the mode table, reset every flag, then
     * visit the rows one by one and impute each missing rating.
     */
    method ImputeRatings()
      modifies this
      ensures rows == RatingStage(old(rows))
    {
      var raw := rows;
      var norm := NormaliseRatings(raw);
      var modes := RatingModes(norm);
      var rs := seq(|norm|, i requires 0 <= i < |norm| => norm[i].(ratingImputed := false));
      forall j | 0 <= j < |rs| ensures rs[j].rating.Some? {
        NormalisedRating(raw, j);
      }
      ghost var target := seq(|rs|, j requires 0 <= j < |rs| => ImputeRatingRow(rs[j], modes));
      var out: seq<Row> := [];
      var i := 0;
      while i < |rs|
        invariant 0 <= i <= |rs| && out == target[..i]
      {
        var row := ImputeRatingRow(rs[i], modes);
        assert row == target[i];
        Order.PrefixStep(target, i);
        out := out + [row];
        i := i + 1;
      }
      assert out == target;
      forall j | 0 <= j < |out| ensures out[j] == ImputeRatingRow(norm[j], modes) {
        NormalisedRating(raw, j);
        ImputeRatingRowResetsFlag(norm[j], modes);
      }
      rows := out;
    }

    /** `limpiar_dataset` after reading: the six stages in the source's order. */
    method CleanCatalog(parse: string -> Option<Date>)
      modifies this
      ensures rows == Pipeline(old(rows), parse)
    {
      CleanText();
      NormaliseLists();
      CorrectRatingMinutes();
      ImputeDates(parse);
      NormaliseDurations();
      ImputeRatings();
    }
  }

  /** After the normalisation every rating cell is present. */
  lemma NormalisedRating(rows: seq<Row>, i: int)
    requires 0 <= i < |rows|
    ensures |NormaliseRatings(rows)| == |rows|
    ensures NormaliseRatings(rows)[i].rating.Some?
  {
    assert NormaliseRatings(rows)[i] == NormaliseRatingRow(rows[i]);
  }

  /** `_imputar` sets the date flag on every row, so resetting it first changes nothing. */
  lemma ImputeDateRowResetsFlag(r: Row, modes: map<GroupKey, Date>)
    requires r.dateAdded.Parsed?
    ensures ImputeDateRow(r.(dateImputed := false), modes) == ImputeDateRow(r, modes)
  {
  }

  /** The same for the rating flag. */
  lemma ImputeRatingRowResetsFlag(r: Row, modes: map<GroupKey, string>)
    requires r.rating.Some?
    ensures ImputeRatingRow(r.(ratingImputed := false), modes) == ImputeRatingRow(r, modes)
  {
  }

  /** One more turn of a loop over columns updates one more column. */
  lemma MapColumnsStep(r: Row, cols: seq<TextColumn>, k: int, f: Option<string> -> Option<string>)
    requires 0 <= k < |cols|
    ensures var prev := MapColumns(r, cols[..k], f);
      MapColumns(r, cols[..k + 1], f) == Set(prev, cols[k], f(Get(prev, cols[k])))
  {
    assert cols[..k + 1][..k] == cols[..k];
  }

  /** `limpiar_texto` as its loop computes it: all six columns, then the rating. */
  lemma TextRowByColumns(r: Row)
    ensures var m := MapColumns(r, TextColumns[..|TextColumns|], CleanCell);
      m.(rating := Some(m.rating.GetOr(Sentinel))) == TextRow(r)
  {
    assert TextColumns[..|TextColumns|] == TextColumns;
    MapColumnsErase(r, TextColumns, CleanCell);
  }

  /** No type value lowers to both "movie" and "tv show". */
  lemma KindsDisjoint(kind: Option<string>)
    ensures !(KindIs(kind, "movie") && KindIs(kind, "tv show"))
  {
  }

  /** The column assignments of `normalizar_duracion`, followed on one row. */
  lemma DurationSteps(r: Row, d: string, e: Extracted, filled: Row, extracted: Row, movies: Row, shows: Row)
    requires d == NormaliseDuration(r.duration) && e == Extract(d)
    requires filled == r.(duration := Some(d), durationValue := None, durationUnit := Sentinel)
    requires extracted == filled.(durationValue := if e.digits.Some? then Some(DigitsValue(e.digits.value)) else None,
                                  durationUnit := e.unit.GetOr(Sentinel))
    requires movies == if KindIs(extracted.kind, "movie") && extracted.durationUnit == Sentinel
                       then extracted.(durationUnit := "min") else extracted
    requires shows == if KindIs(movies.kind, "tv show") && movies.durationUnit == Sentinel
                      then movies.(durationUnit := "seasons") else movies
    ensures shows == DurationRow(r)
  {
    KindsDisjoint(r.kind);
  }
}
