/** The column profiler: the quality metrics computed for one column of a
    loaded table (missing values, uniqueness, IQR outliers, key status). */
module Profiler {
  import opened Wrappers
  import opened Quantiles

  /** A cell value; the loader decides each value's kind once, at load time. */
  datatype Value = Num(x: real) | Text(s: string) | Flag(b: bool)

  /** A cell of a column: `None` is a missing value (NaN / None in the table). */
  type Cell = Option<Value>

  /** A column: its declared type (numeric or not) and its cells, in row order. */
  datatype Column = Column(numeric: bool, cells: seq<Cell>)

  datatype KeyStatus = UniqueId | Standard

  /** What the profiler reports for one column, in the order it returns them. */
  datatype Stats = Stats(nulls: nat, outliers: nat, keyStatus: KeyStatus, uniquePct: real)

  /** The label shown for a key status. */
  function KeyLabel(k: KeyStatus): (l: string)
    ensures l == "Standard" <==> k == Standard
  {
    match k
    case UniqueId => "\U{1F511} Unique ID"
    case Standard => "Standard"
  }

  /** A column whose cells hold only numbers, as a numeric dtype guarantees. */
  predicate WellTyped(col: Column) {
    col.numeric ==> forall i :: 0 <= i < |col.cells| ==> col.cells[i].None? || col.cells[i].value.Num?
  }

  /** No two cells are equal (two missing cells count as equal). */
  predicate AllDistinct(cells: seq<Cell>) {
    forall i, j :: 0 <= i < j < |cells| ==> cells[i] != cells[j]
  }

  // ---------------------------------------------------------------- missing values

  /** The number of missing cells (`isnull().sum()`). */
  function NullCount(cells: seq<Cell>): (n: nat)
    ensures n <= |cells|
    ensures n == 0 <==> forall i :: 0 <= i < |cells| ==> cells[i].Some?
    ensures n == |cells| <==> forall i :: 0 <= i < |cells| ==> cells[i].None?
  {
    if cells == [] then 0
    else
      var n := NullCount(cells[1..]);
      assert forall i :: 1 <= i < |cells| ==> cells[i] == cells[1..][i - 1];
      (if cells[0].None? then 1 else 0) + n
  }

  // ---------------------------------------------------------------- uniqueness

  /** The distinct non-missing values (the values `nunique()` counts). */
  function Distinct(cells: seq<Cell>): (vs: set<Value>)
    ensures |vs| <= |cells| - NullCount(cells)
  {
    if cells == [] then {}
    else
      var rest := Distinct(cells[1..]);
      match cells[0]
      case None => rest
      case Some(v) => {v} + rest
  }

  /** v is among the distinct values exactly when some cell holds v. */
  lemma {:induction false} DistinctHas(cells: seq<Cell>, v: Value)
    ensures v in Distinct(cells) <==> Some(v) in cells
  {
    if cells != [] {
      DistinctHas(cells[1..], v);
      assert cells == [cells[0]] + cells[1..];
    }
  }

  /** The distinct cells, a missing cell included (`nunique(dropna=False)`). */
  function AllCells(cells: seq<Cell>): (cs: set<Cell>)
    ensures |cs| <= |cells|
  {
    if cells == [] then {}
    else {cells[0]} + AllCells(cells[1..])
  }

  /** c is among the distinct cells exactly when it is a cell of the column. */
  lemma {:induction false} AllCellsHas(cells: seq<Cell>, c: Cell)
    ensures c in AllCells(cells) <==> c in cells
  {
    if cells != [] {
      AllCellsHas(cells[1..], c);
      assert cells == [cells[0]] + cells[1..];
    }
  }

  /** pandas' `is_unique`: as many distinct cells as cells. */
  predicate IsUnique(cells: seq<Cell>) {
    |AllCells(cells)| == |cells|
  }

  /** A ratio d / n of 0 <= d <= n lies in [0, 1] and is 1 exactly when d = n. */
  lemma RatioBounds(d: real, n: real)
    requires 0.0 <= d <= n && 0.0 < n
    ensures 0.0 <= d / n <= 1.0
    ensures d / n == 1.0 <==> d == n
  {
    var r := d / n;
    assert r * n == d;
    NonnegFactor(r, n);
    assert (1.0 - r) * n == n - d;
    NonnegFactor(1.0 - r, n);
    assert (r - 1.0) * n == d - n;
    NonnegFactor(r - 1.0, n);
  }

  lemma NonnegFactor(a: real, b: real)
    requires 0.0 < b
    ensures a * b >= 0.0 ==> a >= 0.0
  {
  }

  /** The uniqueness percentage: distinct non-missing values over all cells, times 100. */
  function UniquePct(cells: seq<Cell>): (pct: real)
    ensures 0.0 <= pct <= 100.0
    ensures |cells| == 0 ==> pct == 0.0
    ensures NullCount(cells) == |cells| ==> pct == 0.0
  {
    if |cells| > 0 then
      var d, n := |Distinct(cells)| as real, |cells| as real;
      RatioBounds(d, n);
      (d / n) * 100.0
    else 0.0
  }

  /** The key status: a "Unique ID" exactly when no cell is missing and all
      cells are pairwise distinct; otherwise "Standard". */
  function KeyStatusOf(cells: seq<Cell>): (k: KeyStatus)
    ensures k == UniqueId <==> NullCount(cells) == 0 && AllDistinct(cells)
  {
    UniqueIffAllDistinct(cells);
    if IsUnique(cells) && NullCount(cells) == 0 then UniqueId else Standard
  }

  /** Cells headed by c are distinct iff c does not recur and the rest are distinct. */
  lemma ConsAllDistinct(c: Cell, rest: seq<Cell>)
    ensures AllDistinct([c] + rest) <==> c !in rest && AllDistinct(rest)
  {
    var cells := [c] + rest;
    assert forall i :: 1 <= i < |cells| ==> cells[i] == rest[i - 1];
    if c in rest {
      var j :| 0 <= j < |rest| && rest[j] == c;
      assert cells[j + 1] == cells[0];
    } else if !AllDistinct(rest) {
      var i, j :| 0 <= i < j < |rest| && rest[i] == rest[j];
      assert cells[i + 1] == cells[j + 1];
    }
  }

  /** `is_unique` holds exactly when the cells are pairwise distinct. */
  lemma {:induction false} UniqueIffAllDistinct(cells: seq<Cell>)
    ensures IsUnique(cells) <==> AllDistinct(cells)
  {
    if cells != [] {
      var rest := cells[1..];
      UniqueIffAllDistinct(rest);
      assert cells == [cells[0]] + rest;
      ConsAllDistinct(cells[0], rest);
      AllCellsHas(rest, cells[0]);
      if cells[0] in AllCells(rest) {
        assert AllCells(cells) == AllCells(rest);
      } else {
        assert |AllCells(cells)| == |AllCells(rest)| + 1;
      }
    }
  }

  /** All values are distinct and present exactly when the distinct values number as many as the cells. */
  lemma {:induction false} DistinctFull(cells: seq<Cell>)
    ensures |Distinct(cells)| == |cells| <==> NullCount(cells) == 0 && AllDistinct(cells)
  {
    if cells != [] {
      var c, rest := cells[0], cells[1..];
      DistinctFull(rest);
      assert cells == [c] + rest;
      ConsAllDistinct(c, rest);
      var d, dr := Distinct(cells), Distinct(rest);
      if c.Some? {
        DistinctHas(rest, c.value);
      }
      if c.None? {
        assert d == dr;
        assert |dr| <= |rest|;
      } else if c.value in dr {
        assert Some(c.value) in rest;
        assert d == dr;
        assert |dr| <= |rest|;
      } else {
        assert d == {c.value} + dr;
        assert |d| == |dr| + 1;
        assert Some(c.value) !in rest;
        assert NullCount(cells) == NullCount(rest);
      }
    }
  }

  /** On a non-empty column the uniqueness percentage reaches 100 exactly for a
      key column; an empty column is reported as a key with 0 percent. */
  lemma UniquePctFullIffKey(cells: seq<Cell>)
    ensures |cells| > 0 ==> (UniquePct(cells) == 100.0 <==> KeyStatusOf(cells) == UniqueId)
    ensures |cells| == 0 ==> UniquePct(cells) == 0.0 && KeyStatusOf(cells) == UniqueId
  {
    DistinctFull(cells);
    if |cells| > 0 {
      var d, n := |Distinct(cells)| as real, |cells| as real;
      RatioBounds(d, n);
      assert UniquePct(cells) == (d / n) * 100.0;
      assert (d / n) * 100.0 == 100.0 <==> d / n == 1.0;
    }
  }

  // ---------------------------------------------------------------- outliers

  /** The numeric values among the non-missing cells, in row order. */
  function Numbers(cells: seq<Cell>): (ns: seq<real>)
    ensures |ns| <= |cells| - NullCount(cells)
  {
    if cells == [] then []
    else
      match cells[0]
      case Some(Num(x)) => [x] + Numbers(cells[1..])
      case _ => Numbers(cells[1..])
  }

  /** x is one of the numbers exactly when some cell holds the number x. */
  lemma {:induction false} NumbersHas(cells: seq<Cell>, x: real)
    ensures x in Numbers(cells) <==> Some(Num(x)) in cells
  {
    if cells != [] {
      var rest := cells[1..];
      NumbersHas(rest, x);
      assert cells == [cells[0]] + rest;
      assert Some(Num(x)) in cells <==> cells[0] == Some(Num(x)) || Some(Num(x)) in rest;
      match cells[0]
      case Some(Num(v)) =>
        assert Numbers(cells) == [v] + Numbers(rest);
      case _ =>
        assert Numbers(cells) == Numbers(rest);
    }
  }

  /** In a well-typed numeric column every non-missing cell contributes a number. */
  lemma {:induction false} NumbersOfNumericColumn(col: Column)
    requires WellTyped(col) && col.numeric
    ensures |Numbers(col.cells)| == |col.cells| - NullCount(col.cells)
    decreases |col.cells|
  {
    var cells := col.cells;
    if cells != [] {
      var rest := Column(true, cells[1..]);
      assert forall i :: 1 <= i < |cells| ==> cells[i] == rest.cells[i - 1];
      NumbersOfNumericColumn(rest);
    }
  }

  /** v lies strictly below lo or strictly above hi. */
  predicate Outside(v: real, lo: real, hi: real) {
    v < lo || v > hi
  }

  /** The number of numeric cells lying strictly outside [lo, hi]. */
  function CountBeyond(cells: seq<Cell>, lo: real, hi: real): (n: nat)
    ensures n <= |Numbers(cells)|
  {
    if cells == [] then 0
    else
      var n := CountBeyond(cells[1..], lo, hi);
      match cells[0]
      case Some(Num(v)) => (if Outside(v, lo, hi) then 1 else 0) + n
      case _ => n
  }

  /** Nothing lies outside [lo, hi] exactly when every number lies inside it. */
  lemma {:induction false} CountBeyondZeroIff(cells: seq<Cell>, lo: real, hi: real)
    ensures CountBeyond(cells, lo, hi) == 0 <==> Within(Numbers(cells), lo, hi)
  {
    if cells != [] {
      var rest := cells[1..];
      CountBeyondZeroIff(rest, lo, hi);
      match cells[0]
      case Some(Num(v)) =>
        assert Numbers(cells) == [v] + Numbers(rest);
        WithinCons(v, Numbers(rest), lo, hi);
      case _ =>
    }
  }

  /** Every one of the numbers lies in [lo, hi]. */
  predicate Within(ns: seq<real>, lo: real, hi: real) {
    forall k :: 0 <= k < |ns| ==> lo <= ns[k] <= hi
  }

  lemma WithinCons(v: real, ns: seq<real>, lo: real, hi: real)
    ensures Within([v] + ns, lo, hi) <==> lo <= v <= hi && Within(ns, lo, hi)
  {
    var all := [v] + ns;
    assert all[0] == v;
    assert forall k :: 0 <= k < |ns| ==> ns[k] == all[k + 1];
    assert forall k :: 1 <= k < |all| ==> all[k] == ns[k - 1];
  }

  /** Widening the interval never counts more values. */
  lemma {:induction false} CountBeyondWider(cells: seq<Cell>, lo: real, hi: real, lo': real, hi': real)
    requires lo' <= lo && hi <= hi'
    ensures CountBeyond(cells, lo', hi') <= CountBeyond(cells, lo, hi)
  {
    if cells != [] {
      CountBeyondWider(cells[1..], lo, hi, lo', hi');
    }
  }

  /** The first quartile of the numbers. */
  function Q1(ns: seq<real>): (q: real)
    requires |ns| > 0
    ensures Min(ns) <= q <= Max(ns)
  {
    Quantile(ns, 0.25)
  }

  /** The third quartile of the numbers. */
  function Q3(ns: seq<real>): (q: real)
    requires |ns| > 0
    ensures Min(ns) <= q <= Max(ns)
  {
    Quantile(ns, 0.75)
  }

  /** The lower fence Q1 - 1.5 * IQR; it lies at or below Q1 whenever Q1 <= Q3. */
  function LowerFence(q1: real, q3: real): (f: real)
    ensures q1 <= q3 ==> f <= q1
  {
    q1 - 1.5 * (q3 - q1)
  }

  /** The upper fence Q3 + 1.5 * IQR; it lies at or above Q3 whenever Q1 <= Q3. */
  function UpperFence(q1: real, q3: real): (f: real)
    ensures q1 <= q3 ==> q3 <= f
  {
    q3 + 1.5 * (q3 - q1)
  }

  /** The IQR outlier count. It is computed only for a numeric, non-empty column;
      a column with no number has NaN quartiles, against which no comparison holds. */
  function OutlierCount(col: Column): (n: nat)
    ensures n <= |col.cells| - NullCount(col.cells)
    ensures !col.numeric || |col.cells| == 0 ==> n == 0
  {
    if col.numeric && |col.cells| > 0 then
      var ns := Numbers(col.cells);
      if |ns| == 0 then 0
      else CountBeyond(col.cells, LowerFence(Q1(ns), Q3(ns)), UpperFence(Q1(ns), Q3(ns)))
    else 0
  }

  /** Q1 and Q3 lie between the smallest and the largest value, in that order. */
  lemma QuartilesOrdered(ns: seq<real>)
    requires |ns| > 0
    ensures Min(ns) <= Q1(ns) <= Q3(ns) <= Max(ns)
  {
    QuantileMonotone(ns, 0.25, 0.75);
  }

  /** A value inside [Q1, Q3] is never an outlier: the fences enclose the box,
      so the outliers are among the numbers outside it. */
  lemma OutliersOutsideBox(col: Column)
    requires col.numeric && |Numbers(col.cells)| > 0
    ensures var ns := Numbers(col.cells);
      LowerFence(Q1(ns), Q3(ns)) <= Q1(ns) && Q3(ns) <= UpperFence(Q1(ns), Q3(ns))
    ensures var ns := Numbers(col.cells);
      forall v :: Q1(ns) <= v <= Q3(ns) ==> !Outside(v, LowerFence(Q1(ns), Q3(ns)), UpperFence(Q1(ns), Q3(ns)))
    ensures var ns := Numbers(col.cells);
      OutlierCount(col) <= CountBeyond(col.cells, Q1(ns), Q3(ns))
  {
    var ns := Numbers(col.cells);
    QuartilesOrdered(ns);
    CountBeyondWider(col.cells, Q1(ns), Q3(ns), LowerFence(Q1(ns), Q3(ns)), UpperFence(Q1(ns), Q3(ns)));
  }

  /** A numeric column with numbers has no outlier exactly when every one of
      its numbers lies between the two fences. */
  lemma NoOutliersIff(col: Column)
    requires col.numeric && |Numbers(col.cells)| > 0
    ensures var ns := Numbers(col.cells);
      OutlierCount(col) == 0 <==> Within(ns, LowerFence(Q1(ns), Q3(ns)), UpperFence(Q1(ns), Q3(ns)))
  {
    var ns := Numbers(col.cells);
    CountBeyondZeroIff(col.cells, LowerFence(Q1(ns), Q3(ns)), UpperFence(Q1(ns), Q3(ns)));
  }

  /** A column whose numbers all equal c has Q1 = Q3 = c, so IQR = 0, and no outlier. */
  lemma ConstantColumnNoOutliers(col: Column, c: real)
    requires Within(Numbers(col.cells), c, c)
    ensures |Numbers(col.cells)| > 0 ==> Q1(Numbers(col.cells)) == c == Q3(Numbers(col.cells))
    ensures OutlierCount(col) == 0
  {
    var ns := Numbers(col.cells);
    if |ns| > 0 {
      ConstantQuantile(ns, c, 0.25);
      ConstantQuantile(ns, c, 0.75);
      CountBeyondZeroIff(col.cells, c, c);
    }
  }

  // ---------------------------------------------------------------- the profile

  /** The profile of one column: null count, outlier count, key status and uniqueness percentage. */
  function GetStats(col: Column): (r: Stats)
    ensures r.nulls <= |col.cells|
    ensures r.outliers <= |col.cells| - r.nulls
    ensures 0.0 <= r.uniquePct <= 100.0
    ensures |col.cells| == 0 ==> r.nulls == 0 && r.outliers == 0 && r.uniquePct == 0.0
    ensures r.nulls == |col.cells| ==> r.outliers == 0 && r.uniquePct == 0.0
    ensures !col.numeric ==> r.outliers == 0
    ensures r.keyStatus == UniqueId <==> r.nulls == 0 && AllDistinct(col.cells)
  {
    Stats(NullCount(col.cells), OutlierCount(col), KeyStatusOf(col.cells), UniquePct(col.cells))
  }
}

/** Two worked columns of one table: an identifier column and a column with one extreme value. */
module ProfilerExamples {
  import opened Wrappers
  import opened Quantiles
  import opened Profiler

  const IdNumbers: seq<real> := [1.0, 2.0, 3.0, 4.0]
  const Ids: seq<Cell> := [Some(Num(1.0)), Some(Num(2.0)), Some(Num(3.0)), Some(Num(4.0))]
  const ValueNumbers: seq<real> := [10.0, 10.0, 10.0, 1000.0]
  const Values: seq<Cell> := [Some(Num(10.0)), Some(Num(10.0)), Some(Num(10.0)), Some(Num(1000.0))]

  lemma IdsNumbers()
    ensures Numbers(Ids) == IdNumbers
  {
    assert Numbers(Ids[3..]) == [4.0];
    assert Numbers(Ids[2..]) == [3.0, 4.0];
    assert Numbers(Ids[1..]) == [2.0, 3.0, 4.0];
  }

  lemma ValuesNumbers()
    ensures Numbers(Values) == ValueNumbers
  {
    assert Numbers(Values[3..]) == [1000.0];
    assert Numbers(Values[2..]) == [10.0, 1000.0];
    assert Numbers(Values[1..]) == [10.0, 10.0, 1000.0];
  }

  /** Among four sorted values, position 0.75 gives Q1 and position 2.25 gives Q3. */
  lemma QuartilesOfFour(xs: seq<real>)
    requires |xs| == 4 && Sorted(xs)
    ensures Q1(xs) == Lerp(xs[0], xs[1], 0.75)
    ensures Q3(xs) == Lerp(xs[2], xs[3], 0.25)
  {
    SortSorted(xs);
    assert Position(4, 0.25) == 0.75 && Position(4, 0.25).Floor == 0;
    assert Position(4, 0.75) == 2.25 && Position(4, 0.75).Floor == 2;
    assert Q1(xs) == Interpolate(xs, 0.25);
    assert Q3(xs) == Interpolate(xs, 0.75);
  }

  lemma IdsQuartiles()
    ensures Q1(IdNumbers) == 1.75 && Q3(IdNumbers) == 3.25
  {
    QuartilesOfFour(IdNumbers);
  }

  lemma ValuesQuartiles()
    ensures Q1(ValueNumbers) == 10.0 && Q3(ValueNumbers) == 257.5
  {
    QuartilesOfFour(ValueNumbers);
  }

  /** The outlier count of a numeric column is the count beyond the fences of its quartiles. */
  lemma OutliersBeyondFences(col: Column)
    requires col.numeric && |Numbers(col.cells)| > 0
    ensures var ns := Numbers(col.cells);
      OutlierCount(col) == CountBeyond(col.cells, LowerFence(Q1(ns), Q3(ns)), UpperFence(Q1(ns), Q3(ns)))
  {
  }

  lemma IdsBeyond()
    ensures CountBeyond(Ids, -0.5, 5.5) == 0
  {
    IdsNumbers();
    CountBeyondZeroIff(Ids, -0.5, 5.5);
  }

  lemma IdsOutliers()
    ensures OutlierCount(Column(true, Ids)) == 0
  {
    IdsNumbers();
    IdsQuartiles();
    OutliersBeyondFences(Column(true, Ids));
    assert LowerFence(1.75, 3.25) == -0.5 && UpperFence(1.75, 3.25) == 5.5;
    IdsBeyond();
  }

  lemma IdsKey()
    ensures NullCount(Ids) == 0 && KeyStatusOf(Ids) == UniqueId && UniquePct(Ids) == 100.0
  {
    assert AllDistinct(Ids);
    UniquePctFullIffKey(Ids);
  }

  /** `id = [1, 2, 3, 4]`: no missing value, 100 percent unique, a key, and
      no outlier (Q1 = 1.75, Q3 = 3.25, fences -0.5 and 5.5). */
  lemma IdColumnProfile()
    ensures GetStats(Column(true, Ids)) == Stats(0, 0, UniqueId, 100.0)
  {
    IdsOutliers();
    IdsKey();
  }

  lemma ValuesBeyond()
    ensures CountBeyond(Values, -361.25, 628.75) == 1
  {
    assert CountBeyond(Values[3..], -361.25, 628.75) == 1;
    assert CountBeyond(Values[2..], -361.25, 628.75) == 1;
    assert CountBeyond(Values[1..], -361.25, 628.75) == 1;
  }

  lemma ValuesOutliers()
    ensures OutlierCount(Column(true, Values)) == 1
  {
    ValuesNumbers();
    ValuesQuartiles();
    OutliersBeyondFences(Column(true, Values));
    assert LowerFence(10.0, 257.5) == -361.25 && UpperFence(10.0, 257.5) == 628.75;
    ValuesBeyond();
  }

  lemma ValuesDistinct()
    ensures Distinct(Values) == {Num(10.0), Num(1000.0)}
  {
    assert Distinct(Values[3..]) == {Num(1000.0)};
    assert Distinct(Values[2..]) == {Num(10.0), Num(1000.0)};
    assert Distinct(Values[1..]) == {Num(10.0), Num(1000.0)};
  }

  lemma ValuesKey()
    ensures NullCount(Values) == 0 && KeyStatusOf(Values) == Standard
  {
    assert Values[0] == Values[1];
  }

  lemma ValuesPct()
    ensures UniquePct(Values) == 50.0
  {
    ValuesDistinct();
    assert |Distinct(Values)| == 2;
  }

  /** `value = [10, 10, 10, 1000]`: Q1 = 10 and Q3 = 257.5, so the upper fence is
      628.75 and 1000 is the one outlier; the duplicates make it a standard field
      with two distinct values out of four. */
  lemma ValueColumnProfile()
    ensures GetStats(Column(true, Values)) == Stats(0, 1, Standard, 50.0)
  {
    ValuesOutliers();
    ValuesKey();
    ValuesPct();
  }
}
