/**
 * `ddeserts/annotate.py`: columns added to a table of CVAP rows. The
 * disenfranchised voting-age population (DVAP) is the adult population
 * minus the citizen voting-age population (CVAP), with its margin of error
 * and its share of the adults; `has_charter` flags charter cities.
 *
 * A pandas DataFrame is a `Frame`: its column names in order and one map
 * per row. Assigning a column (`df[name] = values`) sets that key in every
 * row and appends the name if it is new.
 */
module Annotate {
  import opened Runtime
  import Stats

  class Frame {
    var columns: seq<string>
    var rows: seq<map<string, Value>>

    ghost predicate Valid()
      reads this
    {
      && Distinct(columns)
      && forall i :: 0 <= i < |rows| ==> forall k :: k in rows[i] <==> k in columns
    }

    constructor (columns: seq<string>, rows: seq<map<string, Value>>)
      requires Distinct(columns) && forall i :: 0 <= i < |rows| ==> forall k :: k in rows[i] <==> k in columns
      ensures Valid() && this.columns == columns && this.rows == rows
    {
      this.columns := columns;
      this.rows := rows;
    }

    /** `df[name] = values` */
    method SetColumn(name: string, values: seq<Value>)
      requires Valid() && |values| == |rows|
      modifies this
      ensures Valid()
      ensures columns == WithKey(old(columns), name)
      ensures |rows| == |old(rows)| && forall i :: 0 <= i < |rows| ==> rows[i] == old(rows)[i][name := values[i]]
    {
      columns := WithKey(columns, name);
      var before := rows;
      rows := seq(|before|, i requires 0 <= i < |before| => before[i][name := values[i]]);
    }
  }

  // ---------------------------------------------------------------------------
  // dvap_moe: ceil(moe_of_sum(adu_moe, cvap_moe)) on ints

  /** The least `s >= r` with `s * s >= n`, for an `r` not past it. */
  function CeilSqrtFrom(n: nat, r: nat): (s: nat)
    requires r * r < n || r == 0 || (r - 1) * (r - 1) < n
    ensures s * s >= n && s >= r
    ensures s == 0 || (s - 1) * (s - 1) < n
    decreases n - r
  {
    if r * r >= n then r
    else
      assert r <= r * r;
      CeilSqrtFrom(n, r + 1)
  }

  /** `ceil(sqrt(n))`: the least `s >= 0` with `s * s >= n`. */
  function CeilSqrt(n: nat): (s: nat)
    ensures s * s >= n
    ensures s == 0 || (s - 1) * (s - 1) < n
  {
    CeilSqrtFrom(n, 0)
  }

  lemma MonotoneSquare(a: nat, b: nat)
    requires a <= b
    ensures a * a <= b * b
  {
    assert a * a <= a * b <= b * b;
  }

  /** `CeilSqrt(n)` is at most every `m` whose square reaches `n`. */
  lemma CeilSqrtLeast(n: nat, m: nat)
    requires m * m >= n
    ensures CeilSqrt(n) <= m
  {
    var s := CeilSqrt(n);
    if m < s {
      MonotoneSquare(m, s - 1);
    }
  }

  lemma SqOfCast(k: int)
    ensures Stats.Sq(k as real) == (k * k) as real
  {
  }

  lemma SumOfSquaresOfPair(x: real, y: real)
    ensures Stats.SumOfSquares([x, y]) == Stats.Sq(x) + Stats.Sq(y)
  {
    assert [x, y][..1] == [x];
    assert [x][..0] == [];
    assert Stats.SumOfSquares([x]) == Stats.Sq(x);
  }

  /** For any `m` that is the square root of `a*a + b*b`, `CeilSqrt` is its ceiling. */
  lemma CeilSqrtIsCeiling(a: int, b: int, m: real)
    requires Stats.IsSqrt(m, Stats.MoeOfSum([a as real, b as real]).radicand)
    ensures var s := CeilSqrt(a * a + b * b); (s - 1) as real < m <= s as real
  {
    var n := a * a + b * b;
    var s := CeilSqrt(n);
    SumOfSquaresOfPair(a as real, b as real);
    SqOfCast(a);
    SqOfCast(b);
    SqOfCast(s);
    assert Stats.Sq(m) == n as real;
    assert Stats.Sq(s as real) >= n as real;
    Stats.SquareMonotone(m, s as real);
    if s > 0 {
      SqOfCast(s - 1);
      assert Stats.Sq((s - 1) as real) < n as real;
      Stats.SquareMonotone((s - 1) as real, m);
    }
  }

  function Abs(x: int): nat { if x < 0 then -x else x }

  lemma StrictMonotoneSquare(a: nat, b: nat)
    requires a < b
    ensures a * a < b * b
  {
    assert a * a <= a * b;
    assert a * b < b * b;
  }

  lemma SquareOfSum(p: nat, q: nat)
    ensures (p + q) * (p + q) >= p * p + q * q
  {
    assert (p + q) * (p + q) == p * p + 2 * (p * q) + q * q;
    assert p * q >= 0;
  }

  /** `CeilSqrt(p*p + q*q)` lies between `max(p, q)` and `p + q`. */
  lemma CeilSqrtPairBounds(p: nat, q: nat)
    ensures var s := CeilSqrt(p * p + q * q); p <= s && q <= s && s <= p + q
  {
    var n := p * p + q * q;
    var s := CeilSqrt(n);
    SquareOfSum(p, q);
    CeilSqrtLeast(n, p + q);
    if s < p { StrictMonotoneSquare(s, p); }
    if s < q { StrictMonotoneSquare(s, q); }
  }

  /** The combined margin is at least each margin and at most their sum. */
  lemma DvapMoeBounds(a: int, b: int)
    ensures var s := CeilSqrt(a * a + b * b); Abs(a) <= s && Abs(b) <= s && s <= Abs(a) + Abs(b)
  {
    assert Abs(a) * Abs(a) == a * a;
    assert Abs(b) * Abs(b) == b * b;
    CeilSqrtPairBounds(Abs(a), Abs(b));
  }

  // ---------------------------------------------------------------------------
  // add_dvap_columns

  const DVAP_COLUMNS := ["dvap_est", "dvap_moe", "dvap_pct", "dvap_pct_moe"]

  predicate HasInt(row: map<string, Value>, k: string) {
    k in row && row[k].Int?
  }

  /**
   * A row `add_dvap_columns` can annotate: int adult and CVAP estimates and
   * margins, and a non-zero adult estimate (pandas would divide by zero).
   */
  predicate DvapInput(row: map<string, Value>) {
    && HasInt(row, "adu_est") && row["adu_est"].i != 0
    && HasInt(row, "cvap_est") && HasInt(row, "adu_moe") && HasInt(row, "cvap_moe")
  }

  /** `df['adu_est'] - df['cvap_est']`, one cell. */
  function EstCell(row: map<string, Value>): Value
    requires HasInt(row, "adu_est") && HasInt(row, "cvap_est")
  {
    Int(row["adu_est"].i - row["cvap_est"].i)
  }

  /** `ceil(moe_of_sum(r['adu_moe'], r['cvap_moe']))`, one cell. */
  function MoeCell(row: map<string, Value>): Value
    requires HasInt(row, "adu_moe") && HasInt(row, "cvap_moe")
  {
    var a, b := row["adu_moe"].i, row["cvap_moe"].i;
    Int(CeilSqrt(a * a + b * b))
  }

  /** `df['dvap_est'] / df['adu_est']`, one cell. */
  function PctCell(row: map<string, Value>): Value
    requires HasInt(row, "dvap_est") && HasInt(row, "adu_est") && row["adu_est"].i != 0
  {
    Float(row["dvap_est"].i as real / row["adu_est"].i as real)
  }

  /** `moe_of_ratio(r['dvap_est'], r['dvap_moe'], r['adu_est'], r['adu_moe'])`, one cell. */
  function PctMoeCell(row: map<string, Value>, moeOfRatio: (int, int, int, int) -> real): Value
    requires HasInt(row, "dvap_est") && HasInt(row, "dvap_moe") && HasInt(row, "adu_est") && HasInt(row, "adu_moe")
  {
    Float(moeOfRatio(row["dvap_est"].i, row["dvap_moe"].i, row["adu_est"].i, row["adu_moe"].i))
  }

  /** One row after the four assignments, each reading the row as the ones before left it. */
  function DvapRow(row: map<string, Value>, moeOfRatio: (int, int, int, int) -> real): (r: map<string, Value>)
    requires DvapInput(row)
    ensures r.Keys == row.Keys + {"dvap_est", "dvap_moe", "dvap_pct", "dvap_pct_moe"}
    ensures forall k :: k in row && k !in DVAP_COLUMNS ==> r[k] == row[k]
    ensures r["dvap_est"].Int? && r["dvap_moe"].Int? && r["dvap_pct"].Float? && r["dvap_pct_moe"].Float?
    ensures r["dvap_moe"].i >= 0
    ensures r["dvap_pct"].f * row["adu_est"].i as real == r["dvap_est"].i as real
  {
    var r1 := row["dvap_est" := EstCell(row)];
    var r2 := r1["dvap_moe" := MoeCell(r1)];
    var r3 := r2["dvap_pct" := PctCell(r2)];
    r3["dvap_pct_moe" := PctMoeCell(r3, moeOfRatio)]
  }

  /**
   * The DVAP estimate is adults minus CVAP, not clamped; the margin is the
   * ceiling of `moe_of_sum` of the two margins; the percentage margin is
   * `moe_of_ratio(dvap_est, dvap_moe, adu_est, adu_moe)`.
   */
  lemma DvapRowValues(row: map<string, Value>, moeOfRatio: (int, int, int, int) -> real, m: real)
    requires DvapInput(row)
    requires Stats.IsSqrt(m, Stats.MoeOfSum([row["adu_moe"].i as real, row["cvap_moe"].i as real]).radicand)
    ensures var r := DvapRow(row, moeOfRatio);
      && r["dvap_est"] == Int(row["adu_est"].i - row["cvap_est"].i)
      && (r["dvap_moe"].i - 1) as real < m <= r["dvap_moe"].i as real
      && r["dvap_pct_moe"] == Float(moeOfRatio(r["dvap_est"].i, r["dvap_moe"].i, row["adu_est"].i, row["adu_moe"].i))
  {
    CeilSqrtIsCeiling(row["adu_moe"].i, row["cvap_moe"].i, m);
  }

  /** More CVAP than adults gives a negative DVAP estimate. */
  lemma DvapEstNotClamped(moeOfRatio: (int, int, int, int) -> real)
    ensures var row := map["adu_est" := Int(10), "cvap_est" := Int(12), "adu_moe" := Int(3), "cvap_moe" := Int(4)];
      DvapRow(row, moeOfRatio)["dvap_est"] == Int(-2) && DvapRow(row, moeOfRatio)["dvap_moe"] == Int(5)
  {
    CeilSqrtLeast(25, 5);
  }

  /** Annotating an annotated row again gives the same row. */
  lemma DvapRowIdempotent(row: map<string, Value>, moeOfRatio: (int, int, int, int) -> real)
    requires DvapInput(row)
    ensures DvapInput(DvapRow(row, moeOfRatio))
    ensures DvapRow(DvapRow(row, moeOfRatio), moeOfRatio) == DvapRow(row, moeOfRatio)
  {
  }

  /** The four assignments, one after the other, give `DvapRow`. */
  lemma DvapStages(r0: map<string, Value>, r1: map<string, Value>, r2: map<string, Value>,
                   r3: map<string, Value>, r4: map<string, Value>, moeOfRatio: (int, int, int, int) -> real)
    requires DvapInput(r0)
    requires r1 == r0["dvap_est" := EstCell(r0)]
    requires HasInt(r1, "adu_moe") && HasInt(r1, "cvap_moe") && r2 == r1["dvap_moe" := MoeCell(r1)]
    requires HasInt(r2, "dvap_est") && HasInt(r2, "adu_est") && r2["adu_est"].i != 0 && r3 == r2["dvap_pct" := PctCell(r2)]
    requires HasInt(r3, "dvap_est") && HasInt(r3, "dvap_moe") && HasInt(r3, "adu_est") && HasInt(r3, "adu_moe")
    requires r4 == r3["dvap_pct_moe" := PctMoeCell(r3, moeOfRatio)]
    ensures r4 == DvapRow(r0, moeOfRatio)
  {
  }

  /** `df['dvap_est'] = df['adu_est'] - df['cvap_est']` */
  method AssignDvapEst(df: Frame)
    requires df.Valid() && forall i :: 0 <= i < |df.rows| ==> HasInt(df.rows[i], "adu_est") && HasInt(df.rows[i], "cvap_est")
    modifies df
    ensures df.Valid() && df.columns == WithKey(old(df.columns), "dvap_est")
    ensures |df.rows| == |old(df.rows)|
    ensures forall i :: 0 <= i < |df.rows| ==> df.rows[i] == old(df.rows)[i]["dvap_est" := EstCell(old(df.rows)[i])]
  {
    var rows := df.rows;
    var values := seq(|rows|, i requires 0 <= i < |rows| && HasInt(rows[i], "adu_est") && HasInt(rows[i], "cvap_est") =>
      EstCell(rows[i]));
    df.SetColumn("dvap_est", values);
  }

  /** `df['dvap_moe'] = df.apply(lambda r: ceil(moe_of_sum(r['adu_moe'], r['cvap_moe'])), axis=1)` */
  method AssignDvapMoe(df: Frame)
    requires df.Valid() && forall i :: 0 <= i < |df.rows| ==> HasInt(df.rows[i], "adu_moe") && HasInt(df.rows[i], "cvap_moe")
    modifies df
    ensures df.Valid() && df.columns == WithKey(old(df.columns), "dvap_moe")
    ensures |df.rows| == |old(df.rows)|
    ensures forall i :: 0 <= i < |df.rows| ==> df.rows[i] == old(df.rows)[i]["dvap_moe" := MoeCell(old(df.rows)[i])]
  {
    var rows := df.rows;
    var values := seq(|rows|, i requires 0 <= i < |rows| && HasInt(rows[i], "adu_moe") && HasInt(rows[i], "cvap_moe") =>
      MoeCell(rows[i]));
    df.SetColumn("dvap_moe", values);
  }

  /** `df['dvap_pct'] = df['dvap_est'] / df['adu_est']` */
  method AssignDvapPct(df: Frame)
    requires df.Valid()
    requires forall i :: 0 <= i < |df.rows| ==>
      HasInt(df.rows[i], "dvap_est") && HasInt(df.rows[i], "adu_est") && df.rows[i]["adu_est"].i != 0
    modifies df
    ensures df.Valid() && df.columns == WithKey(old(df.columns), "dvap_pct")
    ensures |df.rows| == |old(df.rows)|
    ensures forall i :: 0 <= i < |df.rows| ==> df.rows[i] == old(df.rows)[i]["dvap_pct" := PctCell(old(df.rows)[i])]
  {
    var rows := df.rows;
    var values := seq(|rows|, i requires 0 <= i < |rows| && HasInt(rows[i], "dvap_est") && HasInt(rows[i], "adu_est")
      && rows[i]["adu_est"].i != 0 => PctCell(rows[i]));
    df.SetColumn("dvap_pct", values);
  }

  /** `df['dvap_pct_moe'] = df.apply(lambda r: moe_of_ratio(...), axis=1)` */
  method AssignDvapPctMoe(df: Frame, moeOfRatio: (int, int, int, int) -> real)
    requires df.Valid()
    requires forall i :: 0 <= i < |df.rows| ==>
      HasInt(df.rows[i], "dvap_est") && HasInt(df.rows[i], "dvap_moe") && HasInt(df.rows[i], "adu_est") && HasInt(df.rows[i], "adu_moe")
    modifies df
    ensures df.Valid() && df.columns == WithKey(old(df.columns), "dvap_pct_moe")
    ensures |df.rows| == |old(df.rows)|
    ensures forall i :: 0 <= i < |df.rows| ==>
      df.rows[i] == old(df.rows)[i]["dvap_pct_moe" := PctMoeCell(old(df.rows)[i], moeOfRatio)]
  {
    var rows := df.rows;
    var values := seq(|rows|, i requires 0 <= i < |rows| && HasInt(rows[i], "dvap_est") && HasInt(rows[i], "dvap_moe")
      && HasInt(rows[i], "adu_est") && HasInt(rows[i], "adu_moe") => PctMoeCell(rows[i], moeOfRatio));
    df.SetColumn("dvap_pct_moe", values);
  }

  /**
   * `add_dvap_columns(df)`: the four columns are assigned in order, each
   * row gets `DvapRow`, and the same table is returned.
   */
  method AddDvapColumns(df: Frame, moeOfRatio: (int, int, int, int) -> real) returns (out: Frame)
    requires df.Valid() && forall i :: 0 <= i < |df.rows| ==> DvapInput(df.rows[i])
    modifies df
    ensures out == df && df.Valid()
    ensures df.columns == WithKey(WithKey(WithKey(WithKey(
      old(df.columns), "dvap_est"), "dvap_moe"), "dvap_pct"), "dvap_pct_moe")
    ensures |df.rows| == |old(df.rows)|
    ensures forall i :: 0 <= i < |df.rows| ==> df.rows[i] == DvapRow(old(df.rows)[i], moeOfRatio)
  {
    ghost var r0 := df.rows;
    AssignDvapEst(df);
    ghost var r1 := df.rows;
    AssignDvapMoe(df);
    ghost var r2 := df.rows;
    AssignDvapPct(df);
    ghost var r3 := df.rows;
    AssignDvapPctMoe(df, moeOfRatio);
    forall i | 0 <= i < |df.rows|
      ensures df.rows[i] == DvapRow(r0[i], moeOfRatio)
    {
      DvapStages(r0[i], r1[i], r2[i], r3[i], df.rows[i], moeOfRatio);
    }
    out := df;
  }

  // ---------------------------------------------------------------------------
  // add_has_charter_column

  /** `isin(charter_cities)` for one cell: a name that is one of the charter cities. */
  predicate IsCharter(name: Value, charterCities: set<string>) {
    name.Str? && name.s in charterCities
  }

  /** The row with its `has_charter` cell. */
  function CharterRow(row: map<string, Value>, charterCities: set<string>): (r: map<string, Value>)
    requires "name" in row
    ensures r.Keys == row.Keys + {"has_charter"}
    ensures forall k :: k in row && k != "has_charter" ==> r[k] == row[k]
    ensures r["has_charter"] == Bool(true) <==> row["name"].Str? && row["name"].s in charterCities
    ensures r["has_charter"] == Bool(false) <==> !(row["name"].Str? && row["name"].s in charterCities)
  {
    row["has_charter" := Bool(IsCharter(row["name"], charterCities))]
  }

  /** `add_has_charter_column(df, charter_cities)` */
  method AddHasCharterColumn(df: Frame, charterCities: set<string>) returns (out: Frame)
    requires df.Valid() && "name" in df.columns
    modifies df
    ensures out == df && df.Valid()
    ensures df.columns == WithKey(old(df.columns), "has_charter")
    ensures |df.rows| == |old(df.rows)|
    ensures forall i :: 0 <= i < |df.rows| ==> df.rows[i] == CharterRow(old(df.rows)[i], charterCities)
  {
    var rows := df.rows;
    var flags := seq(|rows|, i requires 0 <= i < |rows| && "name" in rows[i] => Bool(IsCharter(rows[i]["name"], charterCities)));
    df.SetColumn("has_charter", flags);
    out := df;
  }
}
