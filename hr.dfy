/**
 * The HR cleaner as values: a table is its sequence of named columns, in column order,
 * and each cleaning step is a function from tables to tables. Missing cells (NaN) are
 * `None`. A numeric column holds reals; an object column holds strings.
 */
module Hr {
  import opened Wrappers
  import opened Text
  import Stats

  datatype Column = Numeric(nums: seq<Option<real>>) | Categorical(cats: seq<Option<string>>)

  datatype Field = Field(name: string, column: Column)

  type Table = seq<Field>

  /**
   * Why `limpiar_dataset` raises: a column name that occurs twice after renaming makes
   * `df[c]` a frame, whose comparison or truth value pandas refuses; a missing
   * `Attrition` column is the explicit `KeyError`.
   */
  datatype HrError = DuplicateColumns | MissingColumn(name: string)

  function Names(t: Table): (ns: seq<string>)
    ensures |ns| == |t| && forall i :: 0 <= i < |t| ==> ns[i] == t[i].name
  {
    seq(|t|, i requires 0 <= i < |t| => t[i].name)
  }

  /** No column name occurs twice. */
  predicate Distinct(t: Table) {
    forall i, j :: 0 <= i < j < |t| ==> t[i].name != t[j].name
  }

  /** `c in df.columns`. */
  predicate HasColumn(t: Table, c: string) {
    exists i :: 0 <= i < |t| && t[i].name == c
  }

  /** `df[c]`, for a name that occurs. */
  function Lookup(t: Table, c: string): (col: Column)
    requires HasColumn(t, c)
    ensures exists i :: 0 <= i < |t| && t[i].name == c && t[i].column == col
  {
    if t[0].name == c then t[0].column
    else
      assert HasColumn(t[1..], c) by {
        var i :| 0 <= i < |t| && t[i].name == c;
        assert t[1..][i - 1] == t[i];
      }
      var col := Lookup(t[1..], c);
      ghost var i :| 0 <= i < |t[1..]| && t[1..][i].name == c && t[1..][i].column == col;
      assert t[i + 1] == t[1..][i];
      col
  }

  /** Under distinct names, `df[c]` is the column of the one field named `c`. */
  lemma LookupAt(t: Table, i: int)
    requires Distinct(t) && 0 <= i < |t|
    ensures HasColumn(t, t[i].name) && Lookup(t, t[i].name) == t[i].column
  {
    var col := Lookup(t, t[i].name);
    var j :| 0 <= j < |t| && t[j].name == t[i].name && t[j].column == col;
    assert j == i;
  }

  /** `df[c] = col` for every field named `c`. */
  function SetColumn(t: Table, c: string, col: Column): (r: Table)
    ensures |r| == |t| && Names(r) == Names(t)
    ensures forall i :: 0 <= i < |t| ==> r[i] == if t[i].name == c then Field(c, col) else t[i]
  {
    seq(|t|, i requires 0 <= i < |t| => if t[i].name == c then Field(c, col) else t[i])
  }

  /** `df.drop(columns=[c])`: every field named `c` removed, the others kept in order. */
  function RemoveNamed(t: Table, c: string): (r: Table)
    ensures |r| <= |t|
  {
    if t == [] then []
    else (if t[0].name == c then [] else [t[0]]) + RemoveNamed(t[1..], c)
  }

  lemma {:induction false} RemoveAbsent(t: Table, c: string)
    requires !HasColumn(t, c)
    ensures RemoveNamed(t, c) == t
  {
    if t != [] {
      assert !HasColumn(t[1..], c) by {
        forall i | 0 <= i < |t[1..]| ensures t[1..][i].name != c {
          assert t[1..][i] == t[i + 1];
        }
      }
      RemoveAbsent(t[1..], c);
      assert t == [t[0]] + t[1..];
    }
  }

  /** The tail of a table with distinct names has distinct names, none of them the head's. */
  lemma DistinctTail(t: Table)
    requires t != [] && Distinct(t)
    ensures Distinct(t[1..]) && !HasColumn(t[1..], t[0].name)
  {
    forall i, j | 0 <= i < j < |t[1..]| ensures t[1..][i].name != t[1..][j].name {
      assert t[1..][i] == t[i + 1] && t[1..][j] == t[j + 1];
    }
    forall i | 0 <= i < |t[1..]| ensures t[1..][i].name != t[0].name {
      assert t[1..][i] == t[i + 1];
    }
  }

  /** Looking past a head of another name. */
  lemma LookupTail(t: Table, c: string)
    requires t != [] && t[0].name != c
    ensures HasColumn(t, c) <==> HasColumn(t[1..], c)
    ensures HasColumn(t, c) ==> Lookup(t, c) == Lookup(t[1..], c)
  {
    if HasColumn(t, c) {
      var i :| 0 <= i < |t| && t[i].name == c;
      assert t[1..][i - 1] == t[i];
    }
    if HasColumn(t[1..], c) {
      var i :| 0 <= i < |t[1..]| && t[1..][i].name == c;
      assert t[i + 1] == t[1..][i];
    }
  }

  /** Tables with the same names agree on whether the names are distinct. */
  lemma DistinctByNames(a: Table, b: Table)
    requires Names(a) == Names(b)
    ensures Distinct(a) <==> Distinct(b)
  {
    assert forall i :: 0 <= i < |a| ==> a[i].name == Names(a)[i] == b[i].name;
  }

  // ---------------------------------------------------------------------------------
  // Renaming (line 26)
  // ---------------------------------------------------------------------------------

  /** Every ASCII blank replaced by an underscore; no other character changes. */
  function ReplaceSpaces(s: string): (r: string)
    ensures |r| == |s| && ' ' !in r
    ensures forall i :: 0 <= i < |s| ==> s[i] != ' ' ==> r[i] == s[i]
    ensures forall i :: 0 <= i < |s| ==> s[i] == ' ' ==> r[i] == '_'
  {
    seq(|s|, i requires 0 <= i < |s| => if s[i] == ' ' then '_' else s[i])
  }

  /** A column name trimmed, then with its blanks replaced by underscores. */
  function CleanName(c: string): (r: string)
    ensures ' ' !in r && Stripped(r)
  {
    var s := Strip(c);
    var r := ReplaceSpaces(s);
    assert r != [] ==> r[0] == s[0] && r[|r| - 1] == s[|s| - 1];
    r
  }

  /** A name that has no blank and no whitespace at its ends is kept as it is. */
  lemma CleanNameKeeps(c: string)
    requires ' ' !in c && Stripped(c)
    ensures CleanName(c) == c
  {
    var r := ReplaceSpaces(c);
    forall i | 0 <= i < |c| ensures r[i] == c[i] {
      assert c[i] in c;
    }
    assert r == c;
    assert Strip(c) == c;
  }

  /** Renaming twice is renaming once. */
  lemma CleanNameIdempotent(c: string)
    ensures CleanName(CleanName(c)) == CleanName(c)
  {
    CleanNameKeeps(CleanName(c));
  }

  /** The name keeps its length once trimmed, and only blanks change, each into `_`. */
  lemma CleanNameSpec(c: string)
    ensures var s, r := Strip(c), CleanName(c);
      |r| == |s| && forall i :: 0 <= i < |s| ==> r[i] == (if s[i] == ' ' then '_' else s[i])
  {
  }

  function Rename(t: Table): (r: Table)
    ensures |r| == |t|
    ensures forall i :: 0 <= i < |t| ==> r[i] == Field(CleanName(t[i].name), t[i].column)
  {
    seq(|t|, i requires 0 <= i < |t| => Field(CleanName(t[i].name), t[i].column))
  }

  // ---------------------------------------------------------------------------------
  // identificar_columnas_constantes (lines 11-12)
  // ---------------------------------------------------------------------------------

  /** `nunique(dropna=False)`: the number of distinct cells, NaN counting as one value. */
  function NUnique(col: Column): nat {
    match col
    case Numeric(xs) => |set x | x in xs|
    case Categorical(xs) => |set x | x in xs|
  }

  predicate IsConstant(col: Column) {
    NUnique(col) <= 1
  }

  ghost predicate AllEqual<T>(s: seq<T>) {
    forall i, j :: 0 <= i < |s| && 0 <= j < |s| ==> s[i] == s[j]
  }

  lemma AtMostOneValue<T>(s: seq<T>)
    ensures |set x | x in s| <= 1 <==> AllEqual(s)
  {
    var vals := set x | x in s;
    if AllEqual(s) && s != [] {
      assert vals <= {s[0]};
      assert vals == {s[0]};
    } else if !AllEqual(s) {
      var i, j :| 0 <= i < |s| && 0 <= j < |s| && s[i] != s[j];
      assert {s[i], s[j]} <= vals;
      assert |{s[i], s[j]}| == 2;
      SubsetCard({s[i], s[j]}, vals);
    } else {
      assert vals == {};
    }
  }

  lemma SubsetCard<T>(a: set<T>, b: set<T>)
    requires a <= b
    ensures |a| <= |b|
  {
    assert b == a + (b - a);
  }

  /** A column is constant exactly when all of its cells are equal, NaN equal to NaN. */
  lemma ConstantIff(col: Column)
    ensures IsConstant(col) <==> match col
      case Numeric(xs) => AllEqual(xs)
      case Categorical(xs) => AllEqual(xs)
  {
    match col
    case Numeric(xs) => AtMostOneValue(xs);
    case Categorical(xs) => AtMostOneValue(xs);
  }

  /** The names of the constant columns, in column order. */
  function ConstantNames(t: Table): (cs: seq<string>)
    ensures forall c :: c in cs <==> exists i :: 0 <= i < |t| && t[i].name == c && IsConstant(t[i].column)
    ensures |cs| <= |t|
  {
    if t == [] then []
    else
      var rest := ConstantNames(t[1..]);
      assert forall i :: 1 <= i < |t| ==> t[i] == t[1..][i - 1];
      (if IsConstant(t[0].column) then [t[0].name] else []) + rest
  }

  /**
   * `identificar_columnas_constantes`: the names of the columns with at most one distinct
   * value. A duplicated name makes `df[c]` a frame and the comparison `<= 1` raise.
   */
  function ConstantColumns(t: Table): (r: Result<seq<string>, HrError>)
    ensures r.Failure? <==> !Distinct(t)
    ensures r.Success? ==> r.value == ConstantNames(t)
  {
    if Distinct(t) then Success(ConstantNames(t)) else Failure(DuplicateColumns)
  }

  /** The constant names are listed in column order: those of a front part come first. */
  lemma {:induction false} ConstantNamesAppend(a: Table, b: Table)
    ensures ConstantNames(a + b) == ConstantNames(a) + ConstantNames(b)
  {
    if a == [] {
      assert a + b == b;
    } else {
      var ab := a + b;
      var h := if IsConstant(a[0].column) then [a[0].name] else [];
      assert ab[0] == a[0];
      assert ab[1..] == a[1..] + b;
      ConstantNamesAppend(a[1..], b);
      assert ConstantNames(ab) == h + ConstantNames(ab[1..]);
      assert ConstantNames(a) == h + ConstantNames(a[1..]);
    }
  }

  /** Under distinct names, each constant column is listed exactly once. */
  lemma {:induction false} ConstantNamesDistinct(t: Table)
    requires Distinct(t)
    ensures forall i, j :: 0 <= i < j < |ConstantNames(t)| ==> ConstantNames(t)[i] != ConstantNames(t)[j]
  {
    if t != [] {
      var rest := ConstantNames(t[1..]);
      assert Distinct(t[1..]) by {
        forall i, j | 0 <= i < j < |t[1..]| ensures t[1..][i].name != t[1..][j].name {
          assert t[1..][i] == t[i + 1] && t[1..][j] == t[j + 1];
        }
      }
      ConstantNamesDistinct(t[1..]);
      if IsConstant(t[0].column) {
        assert t[0].name !in rest by {
          forall i | 0 <= i < |t[1..]| ensures t[1..][i].name != t[0].name {
            assert t[1..][i] == t[i + 1];
          }
        }
        var cs := [t[0].name] + rest;
        forall i, j | 0 <= i < j < |cs| ensures cs[i] != cs[j] {
          if i == 0 {
            assert cs[j] == rest[j - 1];
          } else {
            assert cs[i] == rest[i - 1] && cs[j] == rest[j - 1];
          }
        }
      } else {
        assert ConstantNames(t) == rest;
      }
    }
  }

  // ---------------------------------------------------------------------------------
  // Dropping the usual constant columns (lines 29-33)
  // ---------------------------------------------------------------------------------

  /** `constantes_a_checkear`. */
  const CheckedConstants: seq<string> := ["EmployeeCount", "StandardHours", "Over18", "EmployeeNumber"]

  /** The fields kept when the names in `cs` are dropped where their column is constant. */
  function DropAmong(t: Table, cs: seq<string>): (r: Table)
    ensures |r| <= |t|
  {
    if t == [] then []
    else (if t[0].name in cs && IsConstant(t[0].column) then [] else [t[0]]) + DropAmong(t[1..], cs)
  }

  /** A field is kept exactly when it is not a constant column named in `cs`. */
  lemma {:induction false} DropAmongMembers(t: Table, cs: seq<string>)
    ensures forall f :: f in DropAmong(t, cs) <==> f in t && !(f.name in cs && IsConstant(f.column))
  {
    if t != [] {
      DropAmongMembers(t[1..], cs);
      assert t == [t[0]] + t[1..];
    }
  }

  /** Dropping among no names keeps everything. */
  lemma {:induction false} DropAmongNone(t: Table)
    ensures DropAmong(t, []) == t
  {
    if t != [] {
      DropAmongNone(t[1..]);
      assert t == [t[0]] + t[1..];
    }
  }

  /** The frame after the drop loop. */
  function DropConstants(t: Table): Table {
    DropAmong(t, CheckedConstants)
  }

  /**
   * Exactly the constant columns among the four checked names go: such a column is removed,
   * any other field survives, and nothing new appears.
   */
  lemma DropConstantsSpec(t: Table)
    ensures forall f :: f in t && f !in DropConstants(t) ==> f.name in CheckedConstants && IsConstant(f.column)
    ensures forall f :: f in DropConstants(t) ==> f in t
    ensures forall f :: f in t && f.name !in CheckedConstants ==> f in DropConstants(t)
    ensures forall f :: f in t && f.name in CheckedConstants && IsConstant(f.column) ==> f !in DropConstants(t)
  {
    DropAmongMembers(t, CheckedConstants);
  }

  /** Dropping among `cs` and then among `[c]` is dropping among `cs + [c]`. */
  lemma {:induction false} DropAmongSnoc(t: Table, cs: seq<string>, c: string)
    ensures DropAmong(t, cs + [c]) == DropAmong(DropAmong(t, cs), [c])
  {
    if t != [] {
      var f := t[0];
      var rest := DropAmong(t[1..], cs);
      DropAmongSnoc(t[1..], cs, c);
      assert f.name in cs + [c] <==> f.name in cs || f.name == c;
      if f.name in cs && IsConstant(f.column) {
        assert DropAmong(t, cs) == rest;
      } else {
        var u := [f] + rest;
        assert DropAmong(t, cs) == u;
        assert u[0] == f && u[1..] == rest;
        if f.name == c && IsConstant(f.column) {
          assert DropAmong(u, [c]) == DropAmong(rest, [c]);
        } else {
          assert DropAmong(u, [c]) == [f] + DropAmong(rest, [c]);
        }
      }
    }
  }

  /**
   * One turn of the drop loop: under distinct names, dropping the column named `c` when it
   * is present and constant is the drop among `[c]`.
   */
  lemma {:induction false} DropOne(u: Table, c: string)
    requires Distinct(u)
    ensures DropAmong(u, [c]) == if HasColumn(u, c) && IsConstant(Lookup(u, c)) then RemoveNamed(u, c) else u
  {
    if u != [] {
      var tail := u[1..];
      DistinctTail(u);
      DropOne(tail, c);
      assert u == [u[0]] + tail;
      if u[0].name == c {
        RemoveAbsent(tail, c);
        assert Lookup(u, c) == u[0].column;
      } else {
        LookupTail(u, c);
      }
    }
  }

  /** The drop keeps names distinct. */
  lemma {:induction false} DropKeepsDistinct(t: Table, cs: seq<string>)
    requires Distinct(t)
    ensures Distinct(DropAmong(t, cs))
  {
    if t != [] {
      DistinctTail(t);
      DropKeepsDistinct(t[1..], cs);
      DropAmongMembers(t[1..], cs);
      var rest := DropAmong(t[1..], cs);
      if !(t[0].name in cs && IsConstant(t[0].column)) {
        var u := [t[0]] + rest;
        forall i, j | 0 <= i < j < |u| ensures u[i].name != u[j].name {
          assert u[j] == rest[j - 1] && u[j] in t[1..];
          if i > 0 {
            assert u[i] == rest[i - 1];
          }
        }
      }
    }
  }

  // ---------------------------------------------------------------------------------
  // Forcing numeric types (lines 36-44)
  // ---------------------------------------------------------------------------------

  /** `posibles_numericas`. */
  const NumericCandidates: seq<string> := [
    "Age", "DailyRate", "DistanceFromHome", "HourlyRate", "MonthlyIncome",
    "MonthlyRate", "NumCompaniesWorked", "PercentSalaryHike", "TotalWorkingYears",
    "TrainingTimesLastYear", "YearsAtCompany", "YearsInCurrentRole", "YearsSinceLastPromotion",
    "YearsWithCurrManager"]

  /**
   * The coercing numeric conversion of a column; `toNumber` stands for pandas' parser of
   * one string. A numeric column is returned as it is; a missing cell stays missing.
   */
  function ToNumeric(col: Column, toNumber: string -> Option<real>): (r: Column)
    ensures r.Numeric?
    ensures col.Numeric? ==> r == col
    ensures col.Categorical? ==> |r.nums| == |col.cats| && forall i :: 0 <= i < |col.cats| ==>
      r.nums[i] == if col.cats[i].Some? then toNumber(col.cats[i].value) else None
  {
    match col
    case Numeric(_) => col
    case Categorical(xs) =>
      Numeric(seq(|xs|, i requires 0 <= i < |xs| => if xs[i].Some? then toNumber(xs[i].value) else None))
  }

  /** Every present column named in `cs` converted. */
  function CoerceAmong(t: Table, cs: seq<string>, toNumber: string -> Option<real>): (r: Table)
    ensures |r| == |t| && Names(r) == Names(t)
    ensures forall i :: 0 <= i < |t| ==>
      r[i].column == if t[i].name in cs then ToNumeric(t[i].column, toNumber) else t[i].column
  {
    seq(|t|, i requires 0 <= i < |t| =>
      if t[i].name in cs then Field(t[i].name, ToNumeric(t[i].column, toNumber)) else t[i])
  }

  function Coerce(t: Table, toNumber: string -> Option<real>): Table {
    CoerceAmong(t, NumericCandidates, toNumber)
  }

  // ---------------------------------------------------------------------------------
  // Simple imputation (lines 46-59)
  // ---------------------------------------------------------------------------------

  /** The positions of `xs` that hold the value `v`. */
  ghost function PresentAt(xs: seq<Option<real>>, v: real): set<int> {
    set i | 0 <= i < |xs| && xs[i] == Some(v)
  }

  /** What one cell adds to the present values: its value, if it has one. */
  function PresentCell(x: Option<real>): seq<real> {
    if x.Some? then [x.value] else []
  }

  /** A last cell adds its own value, once, to the present values of the cells before it. */
  lemma PresentSnoc(init: seq<Option<real>>, last: Option<real>, rest: seq<real>)
    requires forall v :: v in rest <==> Some(v) in init
    requires forall v :: multiset(rest)[v] == |PresentAt(init, v)|
    ensures var xs, vs := init + [last], rest + PresentCell(last);
      && (forall v :: v in vs <==> Some(v) in xs)
      && (forall v :: multiset(vs)[v] == |PresentAt(xs, v)|)
  {
    var xs, tail := init + [last], PresentCell(last);
    forall v
      ensures v in rest + tail <==> Some(v) in xs
      ensures multiset(rest + tail)[v] == |PresentAt(xs, v)|
    {
      var here: set<int> := if last == Some(v) then {|init|} else {};
      assert PresentAt(xs, v) == PresentAt(init, v) + here by {
        forall i ensures i in PresentAt(xs, v) <==> i in PresentAt(init, v) + here {
          if 0 <= i < |init| {
            assert xs[i] == init[i];
          } else if i == |init| {
            assert xs[i] == last;
          }
        }
      }
      assert |init| !in PresentAt(init, v);
      assert multiset(rest + tail) == multiset(rest) + multiset(tail);
      assert Some(v) in xs <==> Some(v) in init || last == Some(v);
    }
  }

  /**
   * The present values, in order: what `median()` looks at. Each value occurs as often as
   * cells hold it, so the median sees the true frequencies.
   */
  function Present(xs: seq<Option<real>>): (vs: seq<real>)
    ensures forall v :: v in vs <==> Some(v) in xs
    ensures forall v :: multiset(vs)[v] == |PresentAt(xs, v)|
    decreases |xs|
  {
    if xs == [] then
      assert forall v :: PresentAt(xs, v) == {};
      []
    else
      var init, last := xs[..|xs| - 1], xs[|xs| - 1];
      var rest := Present(init);
      PresentSnoc(init, last, rest);
      assert xs == init + [last];
      rest + PresentCell(last)
  }

  predicate HasGap<T>(xs: seq<Option<T>>) {
    exists i :: 0 <= i < |xs| && xs[i].None?
  }

  /**
   * The numeric gap fill: a column with a gap gets the median of its present values in
   * each gap. A column without gaps, or whose median is NaN because no value is present,
   * is left as it is.
   */
  function FillMedian(xs: seq<Option<real>>): (r: seq<Option<real>>)
    ensures |r| == |xs|
    ensures forall i :: 0 <= i < |xs| ==> xs[i].Some? ==> r[i] == xs[i]
    ensures forall i :: 0 <= i < |xs| ==> xs[i].None? ==> r[i] == Stats.Median(Present(xs))
  {
    if !HasGap(xs) then xs
    else match Stats.Median(Present(xs))
      case None => xs
      case Some(m) => FillNa(xs, m)
  }

  /** `fillna(v)`: every missing cell becomes `v`, the others stay. */
  function FillNa<T>(xs: seq<Option<T>>, v: T): (r: seq<Option<T>>)
    ensures |r| == |xs| && !HasGap(r)
    ensures forall i :: 0 <= i < |xs| ==> r[i] == Some(xs[i].GetOr(v))
  {
    seq(|xs|, i requires 0 <= i < |xs| => Some(xs[i].GetOr(v)))
  }

  /** The same with "Unknown" for object columns. */
  function FillUnknown(xs: seq<Option<string>>): (r: seq<Option<string>>)
    ensures |r| == |xs|
    ensures forall i :: 0 <= i < |xs| ==> r[i] == Some(xs[i].GetOr(Unknown))
  {
    if !HasGap(xs) then xs else FillNa(xs, Unknown)
  }

  const Unknown: string := "Unknown"

  function FillColumn(col: Column): Column {
    match col
    case Numeric(xs) => Numeric(FillMedian(xs))
    case Categorical(xs) => Categorical(FillUnknown(xs))
  }

  /** A column without gaps is untouched. */
  lemma FillWithoutGap(col: Column)
    requires match col case Numeric(xs) => !HasGap(xs) case Categorical(xs) => !HasGap(xs)
    ensures FillColumn(col) == col
  {
  }

  /** Filling a filled column changes nothing. */
  lemma FillColumnIdempotent(col: Column)
    ensures FillColumn(FillColumn(col)) == FillColumn(col)
  {
    match col
    case Numeric(xs) =>
      var ys := FillMedian(xs);
      if HasGap(ys) {
        var i :| 0 <= i < |ys| && ys[i].None?;
        assert Stats.Median(Present(xs)).None?;
        assert ys == xs;
      }
    case Categorical(xs) =>
      var ys := FillUnknown(xs);
      assert !HasGap(ys);
  }

  /** Every column filled, whatever its kind. */
  function FillGaps(t: Table): (r: Table)
    ensures |r| == |t| && Names(r) == Names(t)
    ensures forall i :: 0 <= i < |t| ==> r[i].column == FillColumn(t[i].column)
  {
    seq(|t|, i requires 0 <= i < |t| => Field(t[i].name, FillColumn(t[i].column)))
  }

  /** The names of the numeric columns, in column order. */
  function NumericNames(t: Table): (ns: seq<string>)
    ensures forall c :: c in ns <==> exists i :: 0 <= i < |t| && t[i].name == c && t[i].column.Numeric?
  {
    if t == [] then []
    else
      assert forall i :: 1 <= i < |t| ==> t[i] == t[1..][i - 1];
      (if t[0].column.Numeric? then [t[0].name] else []) + NumericNames(t[1..])
  }

  /** The names of the object columns, in column order. */
  function CategoricalNames(t: Table): (ns: seq<string>)
    ensures forall c :: c in ns <==> exists i :: 0 <= i < |t| && t[i].name == c && t[i].column.Categorical?
  {
    if t == [] then []
    else
      assert forall i :: 1 <= i < |t| ==> t[i] == t[1..][i - 1];
      (if t[0].column.Categorical? then [t[0].name] else []) + CategoricalNames(t[1..])
  }

  // ---------------------------------------------------------------------------------
  // Encoding the target (lines 61-65)
  // ---------------------------------------------------------------------------------

  /**
   * The target encoding: "Yes" becomes 1, "No" becomes 0, anything else, a missing cell
   * and every numeric cell become missing.
   */
  function EncodeAttrition(col: Column): (r: Column)
    ensures r.Numeric?
    ensures col.Numeric? ==> |r.nums| == |col.nums| && forall i :: 0 <= i < |col.nums| ==> r.nums[i].None?
    ensures col.Categorical? ==> |r.nums| == |col.cats| && forall i :: 0 <= i < |col.cats| ==>
      (r.nums[i] == Some(1.0) <==> col.cats[i] == Some("Yes")) &&
      (r.nums[i] == Some(0.0) <==> col.cats[i] == Some("No")) &&
      (r.nums[i].None? <==> col.cats[i] != Some("Yes") && col.cats[i] != Some("No"))
  {
    match col
    case Numeric(xs) => Numeric(seq(|xs|, i => None))
    case Categorical(xs) =>
      Numeric(seq(|xs|, i requires 0 <= i < |xs| =>
        if xs[i] == Some("Yes") then Some(1.0) else if xs[i] == Some("No") then Some(0.0) else None))
  }

  const Target: string := "Attrition"

  function EncodeTarget(t: Table): (r: Result<Table, HrError>)
    ensures r.Failure? <==> !HasColumn(t, Target)
    ensures r.Failure? ==> r.error == MissingColumn(Target)
    ensures r.Success? ==> r.value == SetColumn(t, Target, EncodeAttrition(Lookup(t, Target)))
  {
    if HasColumn(t, Target) then Success(SetColumn(t, Target, EncodeAttrition(Lookup(t, Target))))
    else Failure(MissingColumn(Target))
  }

  // ---------------------------------------------------------------------------------
  // limpiar_dataset (lines 14-67)
  // ---------------------------------------------------------------------------------

  /** The whole cleaning of a copy of `t`; `t` itself is a value and does not change. */
  function Clean(t: Table, toNumber: string -> Option<real>): Result<Table, HrError> {
    var renamed := Rename(t);
    if !Distinct(renamed) then Failure(DuplicateColumns)
    else EncodeTarget(FillGaps(Coerce(DropConstants(renamed), toNumber)))
  }

  /** The error cases: a duplicated name after renaming first, then a missing target. */
  lemma CleanErrors(t: Table, toNumber: string -> Option<real>)
    ensures Clean(t, toNumber) == Failure(DuplicateColumns) <==> !Distinct(Rename(t))
    ensures Clean(t, toNumber) == Failure(MissingColumn(Target)) <==>
      Distinct(Rename(t)) && !HasColumn(Rename(t), Target)
  {
    var renamed := Rename(t);
    if Distinct(renamed) {
      var kept := DropConstants(renamed);
      var filled := FillGaps(Coerce(kept, toNumber));
      assert Names(filled) == Names(kept);
      TargetSurvives(renamed);
      assert HasColumn(filled, Target) <==> HasColumn(kept, Target) by {
        NamesHasColumn(filled, Target);
        NamesHasColumn(kept, Target);
      }
    }
  }

  lemma NamesHasColumn(t: Table, c: string)
    ensures HasColumn(t, c) <==> c in Names(t)
  {
    if c in Names(t) {
      var i :| 0 <= i < |Names(t)| && Names(t)[i] == c;
    }
  }

  /** `Attrition` is not one of the checked names, so the drop never removes it. */
  lemma TargetSurvives(t: Table)
    ensures HasColumn(DropConstants(t), Target) <==> HasColumn(t, Target)
  {
    var d := DropConstants(t);
    DropAmongMembers(t, CheckedConstants);
    assert Target !in CheckedConstants;
    if HasColumn(t, Target) {
      var i :| 0 <= i < |t| && t[i].name == Target;
      assert t[i] in d;
      var j :| 0 <= j < |d| && d[j] == t[i];
    }
    if HasColumn(d, Target) {
      var j :| 0 <= j < |d| && d[j].name == Target;
      assert d[j] in t;
      var i :| 0 <= i < |t| && t[i] == d[j];
    }
  }

  /** What the imputation leaves in a column. */
  ghost predicate Imputed(col: Column) {
    match col
    case Categorical(ys) => !HasGap(ys)
    case Numeric(ys) => HasGap(ys) ==> forall k :: 0 <= k < |ys| ==> ys[k].None?
  }

  /** What the encoding leaves in the target column: 1, 0 or missing. */
  ghost predicate Encoded(col: Column) {
    col.Numeric? && forall k :: 0 <= k < |col.nums| ==> col.nums[k] in {None, Some(0.0), Some(1.0)}
  }

  /** `median()` is NaN only when no value is present. */
  lemma PresentEmpty(xs: seq<Option<real>>)
    ensures Present(xs) == [] ==> forall k :: 0 <= k < |xs| ==> xs[k].None?
  {
    forall k | 0 <= k < |xs| && xs[k].Some? ensures Present(xs) != [] {
      assert xs[k].value in Present(xs);
    }
  }

  /**
   * After the imputation an object column has no gap, and a numeric column has one only
   * when none of its values is present, so that its median is NaN.
   */
  lemma FillImputed(col: Column)
    ensures Imputed(FillColumn(col))
  {
    if col.Numeric? {
      var xs := col.nums;
      var ys := FillMedian(xs);
      if HasGap(ys) {
        var j :| 0 <= j < |ys| && ys[j].None?;
        assert Stats.Median(Present(xs)).None?;
        PresentEmpty(xs);
        assert ys == xs;
      }
    } else {
      assert !HasGap(FillUnknown(col.cats));
    }
  }

  lemma EncodedValues(col: Column)
    ensures Encoded(EncodeAttrition(col))
  {
  }

  /** A coerced candidate column is numeric, and stays numeric through the imputation. */
  lemma CoerceNumeric(t: Table, toNumber: string -> Option<real>, i: int)
    requires 0 <= i < |t| && t[i].name in NumericCandidates
    ensures Coerce(t, toNumber)[i].column.Numeric?
    ensures FillColumn(Coerce(t, toNumber)[i].column).Numeric?
  {
  }

  /**
   * A cleaned table: its names are the renamed names minus the dropped ones; the target is
   * there and holds only 1, 0 or missing; every other object column is free of gaps, every
   * other numeric column has a gap only when it has no value at all; and each of the
   * fourteen candidates other than the target is numeric.
   */
  lemma CleanSuccess(t: Table, toNumber: string -> Option<real>)
    requires Clean(t, toNumber).Success?
    ensures var r := Clean(t, toNumber).value;
      && Names(r) == Names(DropConstants(Rename(t)))
      && HasColumn(r, Target)
      && (forall i :: 0 <= i < |r| && r[i].name == Target ==> Encoded(r[i].column))
      && (forall i :: 0 <= i < |r| && r[i].name != Target ==> Imputed(r[i].column))
      && (forall i :: 0 <= i < |r| && r[i].name in NumericCandidates ==> r[i].column.Numeric?)
  {
    var renamed := Rename(t);
    assert Distinct(renamed);
    var coerced := Coerce(DropConstants(renamed), toNumber);
    var filled := FillGaps(coerced);
    assert Clean(t, toNumber) == EncodeTarget(filled);
    var r := SetColumn(filled, Target, EncodeAttrition(Lookup(filled, Target)));
    assert Clean(t, toNumber).value == r;
    forall i | 0 <= i < |coerced| && coerced[i].name in NumericCandidates ensures coerced[i].column.Numeric? {
      CoerceNumeric(DropConstants(renamed), toNumber, i);
    }
    CleanedFields(coerced, filled, r);
  }

  lemma CleanedFields(coerced: Table, filled: Table, r: Table)
    requires filled == FillGaps(coerced) && HasColumn(filled, Target)
    requires r == SetColumn(filled, Target, EncodeAttrition(Lookup(filled, Target)))
    requires forall i :: 0 <= i < |coerced| && coerced[i].name in NumericCandidates ==> coerced[i].column.Numeric?
    ensures HasColumn(r, Target)
    ensures forall i :: 0 <= i < |r| && r[i].name == Target ==> Encoded(r[i].column)
    ensures forall i :: 0 <= i < |r| && r[i].name != Target ==> Imputed(r[i].column)
    ensures forall i :: 0 <= i < |r| && r[i].name in NumericCandidates ==> r[i].column.Numeric?
  {
    var i0 :| 0 <= i0 < |filled| && filled[i0].name == Target;
    assert r[i0].name == Target;
    EncodedValues(Lookup(filled, Target));
    forall i | 0 <= i < |r| && r[i].name != Target ensures Imputed(r[i].column) {
      FillImputed(coerced[i].column);
    }
  }
}
