/**
 * `_age_sex_cit_row_to_cvap` of `ddeserts/census.py`: one parsed row of the
 * ACS table B05003 (age, sex, nativity and citizenship), whose column names
 * look like "Estimate!!Total:!!Male:!!18 years and over:!!Native", is reduced
 * to the columns of the CVAP special tabulation for one state: total, adult,
 * citizen and citizen-voting-age estimates with their margins of error.
 *
 * The loop of the source is `AgeSexCitRowToCvap`; it is proved equal to
 * `RowToCvap`, a fold of `Step` over the row's items followed by `Finish`.
 */
module Census {
  import opened Wrappers
  import opened Runtime
  import Text
  import Stats

  const GEONAME_KEY := "Geographic Area Name"
  const ADULT := "18 years and over"

  // ---------------------------------------------------------------------------
  // Column headers

  /**
   * The parts of a header `data_type, _, sex, age, born, cit`, each without
   * its trailing colons; the second part ("Total") is not used.
   */
  datatype Header = Header(dataType: string, sex: string, age: string, born: string, cit: string)

  /** `k.split('!!')` padded with '' to six parts; more than six fail to unpack. */
  function HeaderParts(k: string): (r: Result<seq<string>>)
    ensures r.Ok? <==> |Text.Split(k, "!!")| <= 6
    ensures r.Err? ==> r.error == ValueError
    ensures r.Ok? ==> (
      && |r.value| == 6
      && (forall i :: 0 <= i < |Text.Split(k, "!!")| ==> r.value[i] == Text.Split(k, "!!")[i])
      && (forall i :: |Text.Split(k, "!!")| <= i < 6 ==> r.value[i] == ""))
  {
    var parts := Text.Split(k, "!!");
    if |parts| > 6 then Err(ValueError)
    else Ok(parts + seq(6 - |parts|, _ => ""))
  }

  /** The header of a column, each part stripped of trailing ':' (the colons appeared in 2019). */
  function ParseHeader(k: string): (r: Result<Header>)
    ensures r.Ok? <==> |Text.Split(k, "!!")| <= 6
    ensures r.Err? ==> r.error == ValueError
  {
    match HeaderParts(k)
    case Err(e) => Err(e)
    case Ok(parts) =>
      Ok(Header(
        Text.RStrip(parts[0], ':'), Text.RStrip(parts[2], ':'), Text.RStrip(parts[3], ':'),
        Text.RStrip(parts[4], ':'), Text.RStrip(parts[5], ':')))
  }

  /** No part of a parsed header ends with ':'. */
  lemma HeaderStripped(k: string)
    requires ParseHeader(k).Ok?
    ensures var h := ParseHeader(k).value;
      && NoTrailingColon(h.dataType) && NoTrailingColon(h.sex) && NoTrailingColon(h.age)
      && NoTrailingColon(h.born) && NoTrailingColon(h.cit)
  {
  }

  predicate NoTrailingColon(p: string) {
    p == "" || p[|p| - 1] != ':'
  }

  /** The classes of the `if`/`elif` chain, in its order; the CVAP class is part of the citizen class. */
  datatype Group = TopLevel | Adult | Citizen(votingAge: bool) | Unclassified

  function Classify(h: Header): Group {
    if h.sex == "" then TopLevel
    else if h.age == ADULT && h.born == "" then Adult
    else if h.born == "Native" || h.cit == "Naturalized U.S. citizen" then Citizen(h.age == ADULT)
    else Unclassified
  }

  /** The classification does not depend on the order of the tests for the classes it separates. */
  lemma ClassifyChain(h: Header)
    ensures Classify(h) == TopLevel <==> h.sex == ""
    ensures Classify(h) == Adult <==> h.sex != "" && h.age == ADULT && h.born == ""
    ensures Classify(h).Citizen? <==>
      h.sex != "" && !(h.age == ADULT && h.born == "") && (h.born == "Native" || h.cit == "Naturalized U.S. citizen")
    ensures Classify(h).Citizen? && Classify(h).votingAge ==> h.age == ADULT && h.born != ""
  {
  }

  // ---------------------------------------------------------------------------
  // The accumulators

  /** The estimate and margin-of-error values collected for one class. */
  datatype Column = Column(ests: seq<Value>, moes: seq<Value>)

  /** `ests.append(v)` for an Estimate column, `moes.append(v)` for a Margin of Error column. */
  function Add(c: Column, dataType: string, v: Value): Column {
    if dataType == "Estimate" then c.(ests := c.ests + [v])
    else if dataType == "Margin of Error" then c.(moes := c.moes + [v])
    else c
  }

  /** The loop's local variables. */
  datatype Acc = Acc(geoname: Value, totEst: int, totMoe: int, adu: Column, cit: Column, cvap: Column)

  const Start := Acc(Str(""), 0, 0, Column([], []), Column([], []), Column([], []))

  /**
   * One iteration of the loop over `row.items()`. With `assignTotMoe` false
   * this is the code as written: the top-level margin of error is converted
   * with `int(v)`, which may raise, and the result is compared with
   * `tot_moe` and discarded. With `assignTotMoe` true it is assigned, as
   * evidently intended.
   */
  function Step(acc: Acc, k: string, v: Value, assignTotMoe: bool): Result<Acc> {
    if k == GEONAME_KEY then Ok(acc.(geoname := v))
    else if !Text.Contains(k, "!!") then Ok(acc)
    else
      match ParseHeader(k)
      case Err(e) => Err(e)
      case Ok(h) => StepHeader(acc, h, v, assignTotMoe)
  }

  /** The `if`/`elif` chain for one column whose header parsed as `h`. */
  function StepHeader(acc: Acc, h: Header, v: Value, assignTotMoe: bool): Result<Acc> {
    match Classify(h)
    case TopLevel =>
      if h.dataType == "Estimate" then
        match ToInt(v)
        case Ok(n) => Ok(acc.(totEst := n))
        case Err(e) => Err(e)
      else if h.dataType == "Margin of Error" then
        match ToInt(v)
        case Ok(n) => Ok(if assignTotMoe then acc.(totMoe := n) else acc)
        case Err(e) => Err(e)
      else Ok(acc)
    case Adult => Ok(acc.(adu := Add(acc.adu, h.dataType, v)))
    case Citizen(votingAge) =>
      var cit := Add(acc.cit, h.dataType, v);
      Ok(if votingAge then acc.(cit := cit, cvap := Add(acc.cvap, h.dataType, v)) else acc.(cit := cit))
    case Unclassified => Ok(acc)
  }

  /** The loop over a prefix of the items; the first exception ends it. */
  function FoldRow(items: seq<(string, Value)>, assignTotMoe: bool): Result<Acc> {
    if |items| == 0 then Ok(Start)
    else
      match FoldRow(items[..|items| - 1], assignTotMoe)
      case Err(e) => Err(e)
      case Ok(acc) => Step(acc, items[|items| - 1].0, items[|items| - 1].1, assignTotMoe)
  }

  /** Once an item has raised, the items after it are not looked at. */
  lemma {:induction false} FoldRowErrSticky(items: seq<(string, Value)>, more: seq<(string, Value)>, assignTotMoe: bool)
    requires FoldRow(items, assignTotMoe).Err?
    ensures FoldRow(items + more, assignTotMoe) == FoldRow(items, assignTotMoe)
    decreases |more|
  {
    if |more| == 0 {
      assert items + more == items;
    } else {
      var shorter := more[..|more| - 1];
      assert (items + more)[..|items + more| - 1] == items + shorter;
      FoldRowErrSticky(items, shorter, assignTotMoe);
      assert FoldRow(items + shorter, assignTotMoe).Err?;
    }
  }

  // ---------------------------------------------------------------------------
  // sum() and moe_of_sum() over the collected values

  /** The sum of the int values (values of other types are not counted). */
  function Total(vs: seq<Value>): int {
    if |vs| == 0 then 0 else Total(vs[..|vs| - 1]) + (if vs[|vs| - 1].Int? then vs[|vs| - 1].i else 0)
  }

  predicate AllInts(vs: seq<Value>) {
    forall i :: 0 <= i < |vs| ==> vs[i].Int?
  }

  /** `sum(vs)`: adding `None` or a str to an int raises `TypeError`. */
  function SumInts(vs: seq<Value>): (r: Result<int>)
    ensures r.Ok? <==> AllInts(vs)
    ensures r.Ok? ==> r.value == Total(vs)
    ensures r.Err? ==> r.error == TypeError
  {
    if AllInts(vs) then Ok(Total(vs)) else Err(TypeError)
  }

  function Reals(vs: seq<Value>): (r: seq<real>)
    requires AllInts(vs)
    ensures |r| == |vs| && forall i :: 0 <= i < |vs| ==> r[i] == vs[i].i as real
  {
    seq(|vs|, i requires 0 <= i < |vs| => vs[i].i as real)
  }

  /** `moe_of_sum(*vs)`: squaring `None` or a str raises `TypeError`. */
  function MoeOfValues(vs: seq<Value>): (r: Result<Stats.Root>)
    ensures r.Ok? <==> AllInts(vs)
    ensures r.Ok? ==> r.value == Stats.MoeOfSum(Reals(vs))
    ensures r.Err? ==> r.error == TypeError
  {
    if AllInts(vs) then Ok(Stats.MoeOfSum(Reals(vs))) else Err(TypeError)
  }

  /** The dict the function returns; the margins of error are exact square roots. */
  datatype CvapRecord = CvapRecord(
    geoname: Value, geotype: string, totEst: int, totMoe: int,
    aduEst: int, aduMoe: Stats.Root, citEst: int, citMoe: Stats.Root, cvapEst: int, cvapMoe: Stats.Root)

  /** `return dict(...)` after the loop. */
  function Finish(acc: Acc): Result<CvapRecord> {
    var aduEst := SumInts(acc.adu.ests);
    var aduMoe := MoeOfValues(acc.adu.moes);
    var citEst := SumInts(acc.cit.ests);
    var citMoe := MoeOfValues(acc.cit.moes);
    var cvapEst := SumInts(acc.cvap.ests);
    var cvapMoe := MoeOfValues(acc.cvap.moes);
    if aduEst.Ok? && aduMoe.Ok? && citEst.Ok? && citMoe.Ok? && cvapEst.Ok? && cvapMoe.Ok? then
      Ok(CvapRecord(
        acc.geoname, "state", acc.totEst, acc.totMoe,
        aduEst.value, aduMoe.value, citEst.value, citMoe.value, cvapEst.value, cvapMoe.value))
    else
      Err(TypeError)
  }

  /** What `_age_sex_cit_row_to_cvap` returns for a row with these items, as written. */
  function RowToCvap(items: seq<(string, Value)>): Result<CvapRecord> {
    match FoldRow(items, false)
    case Err(e) => Err(e)
    case Ok(acc) => Finish(acc)
  }

  /** The same with line 101 assigning `tot_moe`, as evidently intended. */
  function CorrectedRowToCvap(items: seq<(string, Value)>): Result<CvapRecord> {
    match FoldRow(items, true)
    case Err(e) => Err(e)
    case Ok(acc) => Finish(acc)
  }

  // ---------------------------------------------------------------------------
  // The loop

  /** `_age_sex_cit_row_to_cvap(row)` */
  method AgeSexCitRowToCvap(row: Dict) returns (r: Result<CvapRecord>)
    requires row.Valid()
    ensures r == RowToCvap(row.Items())
  {
    var items := row.Items();
    var geoname := Str("");
    var totEst := 0;
    var totMoe := 0;
    var adu, cit, cvap := Column([], []), Column([], []), Column([], []);
    var i := 0;
    while i < |items|
      invariant 0 <= i <= |items|
      invariant FoldRow(items[..i], false) == Ok(Acc(geoname, totEst, totMoe, adu, cit, cvap))
    {
      var (k, v) := items[i];
      ghost var before := Acc(geoname, totEst, totMoe, adu, cit, cvap);
      assert items[..i + 1][..i] == items[..i] && items[i] == (k, v);
      if k == GEONAME_KEY {
        geoname := v;
      } else if Text.Contains(k, "!!") {
        var header := ParseHeader(k);
        if header.Err? {
          RaiseEndsRow(items, i, header.error);
          return Err(header.error);
        }
        var h := header.value;
        match Classify(h)
        case TopLevel =>
          if h.dataType == "Estimate" || h.dataType == "Margin of Error" {
            var n := ToInt(v);
            if n.Err? {
              RaiseEndsRow(items, i, n.error);
              return Err(n.error);
            }
            if h.dataType == "Estimate" {
              totEst := n.value;
            }
            // for a Margin of Error, `tot_moe == int(v)` compares and discards
          }
        case Adult =>
          adu := Add(adu, h.dataType, v);
        case Citizen(votingAge) =>
          cit := Add(cit, h.dataType, v);
          if votingAge {
            cvap := Add(cvap, h.dataType, v);
          }
        case Unclassified =>
        assert StepHeader(before, h, v, false) == Ok(Acc(geoname, totEst, totMoe, adu, cit, cvap));
      }
      assert Step(before, k, v, false) == Ok(Acc(geoname, totEst, totMoe, adu, cit, cvap));
      i := i + 1;
    }
    assert items[..i] == items;
    var aduEst := SumInts(adu.ests);
    var aduMoe := MoeOfValues(adu.moes);
    var citEst := SumInts(cit.ests);
    var citMoe := MoeOfValues(cit.moes);
    var cvapEst := SumInts(cvap.ests);
    var cvapMoe := MoeOfValues(cvap.moes);
    if aduEst.Ok? && aduMoe.Ok? && citEst.Ok? && citMoe.Ok? && cvapEst.Ok? && cvapMoe.Ok? {
      r := Ok(CvapRecord(
        geoname, "state", totEst, totMoe,
        aduEst.value, aduMoe.value, citEst.value, citMoe.value, cvapEst.value, cvapMoe.value));
    } else {
      r := Err(TypeError);
    }
  }

  /** An item that raises ends the loop with its exception. */
  lemma RaiseEndsRow(items: seq<(string, Value)>, i: nat, e: Error)
    requires i < |items| && FoldRow(items[..i + 1], false) == Err(e)
    ensures RowToCvap(items) == Err(e)
  {
    FoldRowErrSticky(items[..i + 1], items[i + 1..], false);
    assert items[..i + 1] + items[i + 1..] == items;
  }

  // ---------------------------------------------------------------------------
  // Reference definitions over the whole row

  /** Keys the loop looks at as column headers, with their parsed header. */
  predicate IsHeaderKey(k: string) {
    k != GEONAME_KEY && Text.Contains(k, "!!") && ParseHeader(k).Ok?
  }

  /** The value of the last "Geographic Area Name" item, or '' if there is none. */
  function LastGeoname(items: seq<(string, Value)>): Value {
    if |items| == 0 then Str("")
    else if items[|items| - 1].0 == GEONAME_KEY then items[|items| - 1].1
    else LastGeoname(items[..|items| - 1])
  }

  /** A top-level column of the given data type ("Estimate" or "Margin of Error"). */
  predicate IsTotalKey(k: string, dataType: string) {
    IsHeaderKey(k) && Classify(ParseHeader(k).value) == TopLevel && ParseHeader(k).value.dataType == dataType
  }

  /** The int value of the last top-level item of the given data type, or 0 if there is none. */
  function LastTotal(items: seq<(string, Value)>, dataType: string): int {
    if |items| == 0 then 0
    else
      var (k, v) := items[|items| - 1];
      if IsTotalKey(k, dataType) && ToInt(v).Ok? then ToInt(v).value
      else LastTotal(items[..|items| - 1], dataType)
  }

  /** The three collected classes. */
  datatype Class = AdultClass | CitizenClass | CvapClass

  predicate InClass(g: Group, c: Class) {
    match c
    case AdultClass => g == Adult
    case CitizenClass => g.Citizen?
    case CvapClass => g.Citizen? && g.votingAge
  }

  /** The values of the items of one class, Estimates and Margins of Error apart, in row order. */
  function Selected(items: seq<(string, Value)>, c: Class): Column {
    if |items| == 0 then Column([], [])
    else
      var (k, v) := items[|items| - 1];
      Select(Selected(items[..|items| - 1], c), k, v, c)
  }

  /** The column after one more item: its value is added when the item is of the class. */
  function Select(col: Column, k: string, v: Value, c: Class): Column {
    if IsHeaderKey(k) && InClass(Classify(ParseHeader(k).value), c) then
      Add(col, ParseHeader(k).value.dataType, v)
    else col
  }

  function ColumnOf(acc: Acc, c: Class): Column {
    match c
    case AdultClass => acc.adu
    case CitizenClass => acc.cit
    case CvapClass => acc.cvap
  }

  /** What one iteration does to each accumulator, in the terms of the reference definitions. */
  lemma StepMeaning(acc: Acc, k: string, v: Value, assignTotMoe: bool, c: Class)
    requires Step(acc, k, v, assignTotMoe).Ok?
    ensures var next := Step(acc, k, v, assignTotMoe).value;
      && next.geoname == (if k == GEONAME_KEY then v else acc.geoname)
      && next.totEst == (if IsTotalKey(k, "Estimate") then ToInt(v).value else acc.totEst)
      && next.totMoe == (if assignTotMoe && IsTotalKey(k, "Margin of Error") then ToInt(v).value else acc.totMoe)
      && ColumnOf(next, c) ==
        if IsHeaderKey(k) && InClass(Classify(ParseHeader(k).value), c) then
          Add(ColumnOf(acc, c), ParseHeader(k).value.dataType, v)
        else ColumnOf(acc, c)
  {
    if k == GEONAME_KEY {
      assert !IsHeaderKey(k) && !IsTotalKey(k, "Estimate") && !IsTotalKey(k, "Margin of Error");
    } else if !Text.Contains(k, "!!") {
      assert !IsHeaderKey(k);
    } else {
      StepHeaderMeaning(acc, ParseHeader(k).value, v, assignTotMoe, c);
    }
  }

  lemma StepHeaderMeaning(acc: Acc, h: Header, v: Value, assignTotMoe: bool, c: Class)
    requires StepHeader(acc, h, v, assignTotMoe).Ok?
    ensures var next := StepHeader(acc, h, v, assignTotMoe).value;
      var top := Classify(h) == TopLevel;
      && next.geoname == acc.geoname
      && next.totEst == (if top && h.dataType == "Estimate" then ToInt(v).value else acc.totEst)
      && next.totMoe == (if assignTotMoe && top && h.dataType == "Margin of Error" then ToInt(v).value else acc.totMoe)
      && ColumnOf(next, c) == if InClass(Classify(h), c) then Add(ColumnOf(acc, c), h.dataType, v) else ColumnOf(acc, c)
  {
    match Classify(h)
    case TopLevel =>
    case Adult =>
    case Citizen(votingAge) =>
    case Unclassified =>
  }

  /**
   * A loop that gets through the row has: the last geoname, the last
   * top-level estimate, the margin of error 0 as written (the intended one
   * otherwise), and for each class exactly the values that select it.
   */
  lemma {:induction false} FoldRowMeaning(items: seq<(string, Value)>, assignTotMoe: bool, c: Class)
    requires FoldRow(items, assignTotMoe).Ok?
    ensures FoldRow(items, assignTotMoe).value.geoname == LastGeoname(items)
    ensures FoldRow(items, assignTotMoe).value.totEst == LastTotal(items, "Estimate")
    ensures !assignTotMoe ==> FoldRow(items, assignTotMoe).value.totMoe == 0
    ensures assignTotMoe ==> FoldRow(items, assignTotMoe).value.totMoe == LastTotal(items, "Margin of Error")
    ensures ColumnOf(FoldRow(items, assignTotMoe).value, c) == Selected(items, c)
  {
    if |items| > 0 {
      var prefix := items[..|items| - 1];
      var (k, v) := items[|items| - 1];
      FoldRowMeaning(prefix, assignTotMoe, c);
      var acc := FoldRow(prefix, assignTotMoe).value;
      assert FoldRow(items, assignTotMoe) == Step(acc, k, v, assignTotMoe);
      StepMeaning(acc, k, v, assignTotMoe, c);
    }
  }

  /** Output `geotype` is always "state", `geoname` the "Geographic Area Name" value or ''. */
  lemma RowToCvapGeo(items: seq<(string, Value)>)
    requires RowToCvap(items).Ok?
    ensures RowToCvap(items).value.geotype == "state"
    ensures RowToCvap(items).value.geoname == LastGeoname(items)
  {
    FoldRowMeaning(items, false, AdultClass);
  }

  /** `tot_est` is the last top-level Estimate; `tot_moe` is always 0 (line 101 compares instead of assigning). */
  lemma RowToCvapTotals(items: seq<(string, Value)>)
    requires RowToCvap(items).Ok?
    ensures RowToCvap(items).value.totEst == LastTotal(items, "Estimate")
    ensures RowToCvap(items).value.totMoe == 0
  {
    FoldRowMeaning(items, false, AdultClass);
  }

  /** The estimates and margins are the sums and `moe_of_sum` of the selected values. */
  lemma RowToCvapColumns(items: seq<(string, Value)>)
    requires RowToCvap(items).Ok?
    ensures var r := RowToCvap(items).value;
      && SumInts(Selected(items, AdultClass).ests) == Ok(r.aduEst)
      && MoeOfValues(Selected(items, AdultClass).moes) == Ok(r.aduMoe)
      && SumInts(Selected(items, CitizenClass).ests) == Ok(r.citEst)
      && MoeOfValues(Selected(items, CitizenClass).moes) == Ok(r.citMoe)
      && SumInts(Selected(items, CvapClass).ests) == Ok(r.cvapEst)
      && MoeOfValues(Selected(items, CvapClass).moes) == Ok(r.cvapMoe)
  {
    FoldRowMeaning(items, false, AdultClass);
    FoldRowMeaning(items, false, CitizenClass);
    FoldRowMeaning(items, false, CvapClass);
  }

  /** The estimate and margin of error a record holds for a class. */
  function ClassEst(r: CvapRecord, c: Class): int {
    match c
    case AdultClass => r.aduEst
    case CitizenClass => r.citEst
    case CvapClass => r.cvapEst
  }

  function ClassMoe(r: CvapRecord, c: Class): Stats.Root {
    match c
    case AdultClass => r.aduMoe
    case CitizenClass => r.citMoe
    case CvapClass => r.cvapMoe
  }

  /** A class with no matching item gives the estimate 0 and the margin of error 0. */
  lemma EmptyClassIsZero(items: seq<(string, Value)>, c: Class, m: real)
    requires RowToCvap(items).Ok? && Selected(items, c) == Column([], [])
    ensures ClassEst(RowToCvap(items).value, c) == 0
    ensures Stats.IsSqrt(m, ClassMoe(RowToCvap(items).value, c).radicand) <==> m == 0.0
  {
    RowToCvapColumns(items);
    assert Reals([]) == [];
    Stats.MoeOfSumEmpty(m);
  }

  lemma TotalAdd(c: Column, dataType: string, v: Value)
    ensures Total(Add(c, dataType, v).ests)
      == Total(c.ests) + (if dataType == "Estimate" && v.Int? then v.i else 0)
  {
    if dataType == "Estimate" {
      assert (c.ests + [v])[..|c.ests|] == c.ests;
    }
  }

  /** With non-negative values, the CVAP estimates never total more than the citizen estimates. */
  lemma {:induction false} CvapWithinCitizens(items: seq<(string, Value)>)
    requires forall i :: 0 <= i < |items| && items[i].1.Int? ==> items[i].1.i >= 0
    ensures Total(Selected(items, CvapClass).ests) <= Total(Selected(items, CitizenClass).ests)
  {
    if |items| > 0 {
      var prefix := items[..|items| - 1];
      var (k, v) := items[|items| - 1];
      CvapWithinCitizens(prefix);
      SelectCvapCitizen(Selected(prefix, CitizenClass), Selected(prefix, CvapClass), k, v);
    }
  }

  /** One more item keeps the CVAP total within the citizen total. */
  lemma SelectCvapCitizen(cit: Column, cvap: Column, k: string, v: Value)
    requires Total(cvap.ests) <= Total(cit.ests) && (v.Int? ==> v.i >= 0)
    ensures Total(Select(cvap, k, v, CvapClass).ests) <= Total(Select(cit, k, v, CitizenClass).ests)
  {
    if IsHeaderKey(k) {
      AddCvapCitizen(cit, cvap, ParseHeader(k).value, v);
    }
  }

  lemma AddCvapCitizen(cit: Column, cvap: Column, h: Header, v: Value)
    requires Total(cvap.ests) <= Total(cit.ests) && (v.Int? ==> v.i >= 0)
    ensures var g := Classify(h);
      Total((if InClass(g, CvapClass) then Add(cvap, h.dataType, v) else cvap).ests)
        <= Total((if InClass(g, CitizenClass) then Add(cit, h.dataType, v) else cit).ests)
  {
    TotalAdd(cit, h.dataType, v);
    TotalAdd(cvap, h.dataType, v);
  }

  /** With non-negative values, `cvap_est <= cit_est`. */
  lemma CvapAtMostCitizens(items: seq<(string, Value)>)
    requires RowToCvap(items).Ok?
    requires forall i :: 0 <= i < |items| && items[i].1.Int? ==> items[i].1.i >= 0
    ensures RowToCvap(items).value.cvapEst <= RowToCvap(items).value.citEst
  {
    RowToCvapColumns(items);
    CvapWithinCitizens(items);
  }

  /** A header with more than six parts makes the 6-way unpack raise `ValueError`. */
  lemma TooManyPartsRaises(items: seq<(string, Value)>, i: nat)
    requires i < |items| && items[i].0 != GEONAME_KEY && Text.Contains(items[i].0, "!!")
    requires |Text.Split(items[i].0, "!!")| > 6
    requires FoldRow(items[..i], false).Ok?
    ensures RowToCvap(items) == Err(ValueError)
  {
    assert items[..i + 1][..i] == items[..i];
    FoldRowErrSticky(items[..i + 1], items[i + 1..], false);
    assert items[..i + 1] + items[i + 1..] == items;
  }

  // ---------------------------------------------------------------------------
  // census.py:101

  /** As written, a top-level Margin of Error of 5 yields `tot_moe` 0. */
  lemma TotMoeDiscarded()
    ensures var items := [("Margin of Error!!Total:", Int(5))];
      RowToCvap(items).Ok? && RowToCvap(items).value.totMoe == 0
  {
    TotalMarginFold(false);
  }

  /** With line 101 assigning, `tot_moe` is the last top-level Margin of Error: 5 here. */
  lemma CorrectedTotMoe()
    ensures var items := [("Margin of Error!!Total:", Int(5))];
      CorrectedRowToCvap(items).Ok? && CorrectedRowToCvap(items).value.totMoe == 5
  {
    TotalMarginFold(true);
  }

  /**
   * With line 101 assigning, `tot_moe` is the last top-level Margin of Error
   * of the row, and every other field is the one the code as written computes.
   */
  lemma CorrectedRowToCvapTotMoe(items: seq<(string, Value)>)
    requires CorrectedRowToCvap(items).Ok?
    ensures RowToCvap(items).Ok?
    ensures CorrectedRowToCvap(items).value.totMoe == LastTotal(items, "Margin of Error")
    ensures CorrectedRowToCvap(items).value.(totMoe := 0) == RowToCvap(items).value
  {
    FoldRowMeaning(items, true, AdultClass);
    CorrectionOnlyTotMoe(items);
  }

  /** The loop over the one item "Margin of Error!!Total:" = 5. */
  lemma TotalMarginFold(assignTotMoe: bool)
    ensures FoldRow([("Margin of Error!!Total:", Int(5))], assignTotMoe)
      == Ok(if assignTotMoe then Start.(totMoe := 5) else Start)
  {
    HeaderExample();
    assert [("Margin of Error!!Total:", Int(5))][..0] == [];
    assert Classify(Header("Margin of Error", "", "", "", "")) == TopLevel;
  }

  /** The correction changes nothing but `tot_moe`. */
  lemma {:induction false} CorrectionOnlyTotMoe(items: seq<(string, Value)>)
    ensures FoldRow(items, true).Ok? <==> FoldRow(items, false).Ok?
    ensures FoldRow(items, true).Ok? ==>
      FoldRow(items, true).value.(totMoe := 0) == FoldRow(items, false).value
  {
    if |items| > 0 {
      var prefix := items[..|items| - 1];
      CorrectionOnlyTotMoe(prefix);
      if FoldRow(prefix, true).Ok? {
        StepCorrectionOnly(FoldRow(prefix, true).value, items[|items| - 1].0, items[|items| - 1].1);
      }
    }
  }

  lemma StepCorrectionOnly(acc: Acc, k: string, v: Value)
    ensures Step(acc, k, v, true).Ok? <==> Step(acc.(totMoe := 0), k, v, false).Ok?
    ensures Step(acc, k, v, true).Ok? ==>
      Step(acc, k, v, true).value.(totMoe := 0) == Step(acc.(totMoe := 0), k, v, false).value
  {
    if k != GEONAME_KEY && Text.Contains(k, "!!") && ParseHeader(k).Ok? {
      StepHeaderCorrectionOnly(acc, ParseHeader(k).value, v);
    }
  }

  lemma StepHeaderCorrectionOnly(acc: Acc, h: Header, v: Value)
    ensures StepHeader(acc, h, v, true).Ok? <==> StepHeader(acc.(totMoe := 0), h, v, false).Ok?
    ensures StepHeader(acc, h, v, true).Ok? ==>
      StepHeader(acc, h, v, true).value.(totMoe := 0) == StepHeader(acc.(totMoe := 0), h, v, false).value
  {
    match Classify(h)
    case TopLevel =>
    case Adult =>
    case Citizen(votingAge) =>
    case Unclassified =>
  }

  lemma TotalMarginParts()
    ensures "Margin of Error!!Total:" == "Margin of Error" + "!!" + "Total:"
    ensures '!' !in "Margin of Error" && !Text.Contains("Total:", "!!")
  {
    Text.AbsentChar("Total:", "!!", 0);
  }

  lemma TotalMarginSplit()
    ensures Text.Contains("Margin of Error!!Total:", "!!")
    ensures Text.Split("Margin of Error!!Total:", "!!") == ["Margin of Error", "Total:"]
  {
    TotalMarginParts();
    Text.SplitAfterFirst("Margin of Error", "!!", "Total:");
    Text.SplitSingle("Total:", "!!");
    Text.SplitSingle("Margin of Error!!Total:", "!!");
  }

  /** "Margin of Error!!Total:" is the top-level margin of error. */
  lemma HeaderExample()
    ensures Text.Contains("Margin of Error!!Total:", "!!")
    ensures ParseHeader("Margin of Error!!Total:") == Ok(Header("Margin of Error", "", "", "", ""))
  {
    TotalMarginSplit();
    assert Text.RStrip("Margin of Error", ':') == "Margin of Error";
  }
}
