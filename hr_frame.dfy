/**
 * The HR cleaner as the source runs it: a copy of the frame whose column list is
 * reassigned, whose constant columns are dropped one by one, whose candidate columns are
 * overwritten by their numeric conversion and whose gaps are filled in place, column after
 * column. Each step is a method on `Frame` proved to leave the fields that the matching
 * function of `Hr` describes.
 */
module HrFrame {
  import opened Wrappers
  import opened Hr
  import Stats
  import Order

  class Frame {
    var fields: Table

    constructor (t: Table)
      ensures fields == t
    {
      fields := t;
    }

    /** Trim every column name and replace its blanks by underscores. */
    method RenameColumns()
      modifies this
      ensures fields == Rename(old(fields))
    {
      var fs := fields;
      fields := seq(|fs|, i requires 0 <= i < |fs| => Field(CleanName(fs[i].name), fs[i].column));
    }

    /** The loop over `constantes_a_checkear`. */
    method DropConstantColumns()
      requires Distinct(fields)
      modifies this
      ensures fields == DropConstants(old(fields))
      ensures Distinct(fields)
    {
      ghost var start := fields;
      DropAmongNone(start);
      assert CheckedConstants[..0] == [];
      for k := 0 to |CheckedConstants|
        invariant fields == DropAmong(start, CheckedConstants[..k])
        invariant Distinct(fields)
      {
        var c := CheckedConstants[k];
        DropOne(fields, c);
        DropAmongSnoc(start, CheckedConstants[..k], c);
        assert CheckedConstants[..k + 1] == CheckedConstants[..k] + [c];
        if HasColumn(fields, c) && IsConstant(Lookup(fields, c)) {
          fields := RemoveNamed(fields, c);
        }
        DropKeepsDistinct(start, CheckedConstants[..k + 1]);
      }
      assert CheckedConstants[..|CheckedConstants|] == CheckedConstants;
    }

    /** The loop over the fourteen candidate names: each present one is converted to numbers. */
    method CoerceNumeric(toNumber: string -> Option<real>)
      requires Distinct(fields)
      modifies this
      ensures fields == Coerce(old(fields), toNumber)
      ensures Distinct(fields)
    {
      ghost var start := fields;
      for k := 0 to |NumericCandidates|
        invariant fields == CoerceAmong(start, NumericCandidates[..k], toNumber)
      {
        var c := NumericCandidates[k];
        CoerceStep(start, NumericCandidates[..k], c, toNumber);
        assert NumericCandidates[..k + 1] == NumericCandidates[..k] + [c];
        if HasColumn(fields, c) {
          fields := SetColumn(fields, c, ToNumeric(Lookup(fields, c), toNumber));
        }
      }
      assert NumericCandidates[..|NumericCandidates|] == NumericCandidates;
      DistinctByNames(fields, start);
    }

    /**
     * The two imputation loops: every numeric column with a gap gets its median, then
     * every object column with a gap gets "Unknown". The column lists are taken once,
     * before either loop runs.
     */
    method Impute()
      requires Distinct(fields)
      modifies this
      ensures fields == FillGaps(old(fields))
    {
      ghost var start := fields;
      var numCols := NumericNames(fields);
      var catCols := CategoricalNames(fields);
      FillNumericColumns(start, [], numCols);
      assert [] + numCols == numCols;
      FillCategoricalColumns(start, numCols, catCols);
      EveryNameListed(start);
    }

    /** The first imputation loop, over the numeric columns `cs` of the frame as it was at `start`. */
    method FillNumericColumns(ghost start: Table, ghost done: seq<string>, cs: seq<string>)
      requires Distinct(start) && |fields| == |start|
      requires forall i :: 0 <= i < |fields| ==> fields[i] == Filled(start[i], done)
      requires forall c :: c in cs ==> exists p :: 0 <= p < |start| && start[p].name == c && start[p].column.Numeric?
      modifies this
      ensures |fields| == |start|
      ensures forall i :: 0 <= i < |fields| ==> fields[i] == Filled(start[i], done + cs)
    {
      assert done + cs[..0] == done;
      for k := 0 to |cs|
        invariant |fields| == |start|
        invariant forall i :: 0 <= i < |fields| ==> fields[i] == Filled(start[i], done + cs[..k])
      {
        var c := cs[k];
        assert c in cs;
        ghost var p :| 0 <= p < |start| && start[p].name == c && start[p].column.Numeric?;
        ghost var cur := fields;
        FilledLookup(start, cur, done + cs[..k], p);
        FillNumeric(c);
        FillStep(start, cur, done + cs[..k], c, fields);
        Order.AppendPrefixStep(done, cs, k);
      }
      assert cs[..|cs|] == cs;
    }

    /** The second imputation loop, over the object columns `cs` of the frame as it was at `start`. */
    method FillCategoricalColumns(ghost start: Table, ghost done: seq<string>, cs: seq<string>)
      requires Distinct(start) && |fields| == |start|
      requires forall i :: 0 <= i < |fields| ==> fields[i] == Filled(start[i], done)
      requires forall c :: c in cs ==> exists p :: 0 <= p < |start| && start[p].name == c && start[p].column.Categorical?
      modifies this
      ensures |fields| == |start|
      ensures forall i :: 0 <= i < |fields| ==> fields[i] == Filled(start[i], done + cs)
    {
      assert done + cs[..0] == done;
      for k := 0 to |cs|
        invariant |fields| == |start|
        invariant forall i :: 0 <= i < |fields| ==> fields[i] == Filled(start[i], done + cs[..k])
      {
        var c := cs[k];
        assert c in cs;
        ghost var p :| 0 <= p < |start| && start[p].name == c && start[p].column.Categorical?;
        ghost var cur := fields;
        FilledLookup(start, cur, done + cs[..k], p);
        FillCategorical(c);
        FillStep(start, cur, done + cs[..k], c, fields);
        Order.AppendPrefixStep(done, cs, k);
      }
      assert cs[..|cs|] == cs;
    }

    /** Fill the gaps of the numeric column `c`, if it has any, with its median. */
    method FillNumeric(c: string)
      requires HasColumn(fields, c) && Lookup(fields, c).Numeric?
      modifies this
      ensures fields == SetColumn(old(fields), c, FillColumn(Lookup(old(fields), c))) ||
              (fields == old(fields) && FillColumn(Lookup(fields, c)) == Lookup(fields, c))
    {
      var col := Lookup(fields, c);
      if HasGap(col.nums) {
        var med := Stats.Median(Present(col.nums));
        if med.Some? {
          fields := SetColumn(fields, c, Numeric(FillNa(col.nums, med.value)));
        }
      }
    }

    /** Fill the gaps of the object column `c`, if it has any, with "Unknown". */
    method FillCategorical(c: string)
      requires HasColumn(fields, c) && Lookup(fields, c).Categorical?
      modifies this
      ensures fields == SetColumn(old(fields), c, FillColumn(Lookup(old(fields), c))) ||
              (fields == old(fields) && FillColumn(Lookup(fields, c)) == Lookup(fields, c))
    {
      var col := Lookup(fields, c);
      if HasGap(col.cats) {
        fields := SetColumn(fields, c, Categorical(FillNa(col.cats, Unknown)));
      }
    }

    /**
     * Replace the `Attrition` column by its 1/0 encoding, or report the `KeyError` when
     * the column is missing, in which case the frame is left as it was.
     */
    method EncodeAttritionColumn() returns (err: Option<HrError>)
      modifies this
      ensures err.None? <==> HasColumn(old(fields), Target)
      ensures err.Some? ==> err.value == MissingColumn(Target) && fields == old(fields)
      ensures err.None? ==> fields == EncodeTarget(old(fields)).value
    {
      if HasColumn(fields, Target) {
        fields := SetColumn(fields, Target, EncodeAttrition(Lookup(fields, Target)));
        err := None;
      } else {
        err := Some(MissingColumn(Target));
      }
    }
  }

  /**
   * `limpiar_dataset`: the work is done on a new frame, so the caller's frame keeps its
   * fields; the result is the cleaned copy or the error the source raises.
   */
  method CleanDataset(source: Frame, toNumber: string -> Option<real>) returns (r: Result<Frame, HrError>)
    ensures unchanged(source)
    ensures r.Success? ==> fresh(r.value) && Clean(source.fields, toNumber) == Success(r.value.fields)
    ensures r.Failure? ==> Clean(source.fields, toNumber) == Failure(r.error)
  {
    var df := new Frame(source.fields);
    df.RenameColumns();
    if !Distinct(df.fields) {
      return Failure(DuplicateColumns);
    }
    df.DropConstantColumns();
    df.CoerceNumeric(toNumber);
    df.Impute();
    var err := df.EncodeAttritionColumn();
    if err.Some? {
      return Failure(err.value);
    }
    return Success(df);
  }

  /** Every column is numeric or an object column, so the two loops visit it. */
  lemma EveryNameListed(t: Table)
    ensures forall i :: 0 <= i < |t| ==> t[i].name in NumericNames(t) + CategoricalNames(t)
  {
    forall i | 0 <= i < |t| ensures t[i].name in NumericNames(t) + CategoricalNames(t) {
      if t[i].column.Numeric? {
        assert t[i].name in NumericNames(t);
      } else {
        assert t[i].name in CategoricalNames(t);
      }
    }
  }

  /** A field once the names in `done` have been visited by the imputation loops. */
  function Filled(f: Field, done: seq<string>): Field {
    if f.name in done then Field(f.name, FillColumn(f.column)) else f
  }

  /** Looking up a field while the loops run: it is where it was and of the same kind. */
  lemma FilledLookup(start: Table, cur: Table, done: seq<string>, p: int)
    requires Distinct(start) && 0 <= p < |start| && |cur| == |start|
    requires forall i :: 0 <= i < |cur| ==> cur[i] == Filled(start[i], done)
    ensures HasColumn(cur, start[p].name) && Lookup(cur, start[p].name) == cur[p].column
    ensures cur[p].column.Numeric? == start[p].column.Numeric?
  {
    assert Names(cur) == Names(start);
    DistinctByNames(cur, start);
    LookupAt(cur, p);
  }

  /**
   * One turn of an imputation loop: filling the column named `c`, or leaving it because
   * filling would not change it, visits `c`.
   */
  lemma FillStep(start: Table, cur: Table, done: seq<string>, c: string, next: Table)
    requires Distinct(start) && |cur| == |start|
    requires forall i :: 0 <= i < |cur| ==> cur[i] == Filled(start[i], done)
    requires HasColumn(cur, c)
    requires next == SetColumn(cur, c, FillColumn(Lookup(cur, c))) ||
             (next == cur && FillColumn(Lookup(cur, c)) == Lookup(cur, c))
    ensures |next| == |start|
    ensures forall i :: 0 <= i < |next| ==> next[i] == Filled(start[i], done + [c])
  {
    assert Names(cur) == Names(start);
    DistinctByNames(cur, start);
    forall i | 0 <= i < |next| ensures next[i] == Filled(start[i], done + [c]) {
      if start[i].name == c {
        LookupAt(cur, i);
        FillColumnIdempotent(start[i].column);
      }
    }
  }

  /** One turn of the coercion loop converts the column named `c`, if there is one. */
  lemma CoerceStep(start: Table, cs: seq<string>, c: string, toNumber: string -> Option<real>)
    requires Distinct(start)
    ensures var u := CoerceAmong(start, cs, toNumber);
      (if HasColumn(u, c) then SetColumn(u, c, ToNumeric(Lookup(u, c), toNumber)) else u) ==
      CoerceAmong(start, cs + [c], toNumber)
  {
    var u := CoerceAmong(start, cs, toNumber);
    var w := CoerceAmong(start, cs + [c], toNumber);
    DistinctByNames(u, start);
    if HasColumn(u, c) {
      var v := SetColumn(u, c, ToNumeric(Lookup(u, c), toNumber));
      forall i | 0 <= i < |v| ensures v[i] == w[i] {
        if u[i].name == c {
          LookupAt(u, i);
        }
      }
      assert v == w;
    } else {
      forall i | 0 <= i < |u| ensures u[i] == w[i] {
        assert u[i].name != c;
      }
      assert u == w;
    }
  }
}
