/**
 * `ddeserts/tsp.py`: felon-disenfranchisement counts from The Sentencing
 * Project, turned into rows shaped like Census CVAP rows. Reading the CSV
 * file is left out; `Parse.ParseFelonDisfRow` models `_parse_felon_disf_row`.
 */
module Tsp {
  import opened Wrappers
  import opened Runtime
  import Text

  /** Where the data files live; `{0}` is filled with the population. */
  const FELON_DISF_PATH_PATTERN := "data/tsp/2022-felon disenfranchisement-{0}.csv"

  const PATH_PREFIX := "data/tsp/2022-felon disenfranchisement-"
  const PATH_SUFFIX := ".csv"

  /**
   * `pattern.format(arg)` for a pattern whose only braces are those of its
   * replacement fields `{0}`: every `{0}` becomes `arg`.
   */
  function FormatFirst(pattern: string, arg: string): string {
    Text.Join(Text.Split(pattern, "{0}"), arg)
  }

  /** A pattern with one `{0}` and no other brace formats to its two ends around `arg`. */
  lemma FormatOneField(pre: string, post: string, arg: string)
    requires '{' !in pre && '{' !in post && '}' !in pre && '}' !in post
    ensures FormatFirst(pre + "{0}" + post, arg) == pre + arg + post
  {
    Text.SplitAfterFirst(pre, "{0}", post);
    Text.AbsentChar(post, "{0}", 0);
    Text.SplitSingle(post, "{0}");
    var parts := Text.Split(pre + "{0}" + post, "{0}");
    assert parts == [pre, post];
    assert parts[1..] == [post];
    assert Text.Join(parts, arg) == pre + arg + Text.Join([post], arg);
  }

  /** `FELON_DISF_PATH_PATTERN.format(population)`, with the default `'all'`. */
  function FelonDisfPath(population: string := "all"): string {
    FormatFirst(FELON_DISF_PATH_PATTERN, population)
  }

  lemma PatternParts()
    ensures FELON_DISF_PATH_PATTERN == PATH_PREFIX + "{0}" + PATH_SUFFIX
    ensures '{' !in PATH_PREFIX && '{' !in PATH_SUFFIX && '}' !in PATH_PREFIX && '}' !in PATH_SUFFIX
  {
  }

  /** The path is the prefix, the population and `.csv`, whatever the population. */
  lemma FelonDisfPathShape(population: string)
    ensures FelonDisfPath(population) == PATH_PREFIX + population + PATH_SUFFIX
  {
    PatternParts();
    FormatOneField(PATH_PREFIX, PATH_SUFFIX, population);
  }

  /** With no argument, the path is that of the `all` file. */
  lemma FelonDisfPathDefault()
    ensures FelonDisfPath() == "data/tsp/2022-felon disenfranchisement-all.csv"
  {
    FelonDisfPathShape("all");
  }

  /** Distinct populations read distinct files. */
  lemma FelonDisfPathInjective(p: string, q: string)
    requires FelonDisfPath(p) == FelonDisfPath(q)
    ensures p == q
  {
    FelonDisfPathShape(p);
    FelonDisfPathShape(q);
    var n := |PATH_PREFIX|;
    assert p == FelonDisfPath(p)[n..|FelonDisfPath(p)| - |PATH_SUFFIX|];
    assert q == FelonDisfPath(q)[n..|FelonDisfPath(q)| - |PATH_SUFFIX|];
  }

  // ---------------------------------------------------------------------------
  // _felon_disf_row_to_cvap

  /** The keys read from a parsed row. */
  const SOURCE_KEYS := ["STATE", "VOTING ELIGIBLE POPULATION", "PRISON", "TOTAL"]

  /** The keys of the converted row, in the order the dict is built. */
  const CVAP_KEYS := ["geoname", "geotype", "cvap_est_2016_2020", "felon_prison_est", "felon_disf_est"]

  /**
   * `_felon_disf_row_to_cvap(row)`: a five-key row, or the `KeyError` of the
   * first source key that is missing. The result is an ordered dict.
   */
  function FelonDisfRowToCvap(row: map<string, Value>): (r: Result<seq<(string, Value)>>)
    ensures r.Ok? <==> forall k :: k in SOURCE_KEYS ==> k in row
    ensures r.Err? ==> r.error == KeyError
    ensures r.Ok? ==> |r.value| == |CVAP_KEYS| && forall j :: 0 <= j < |CVAP_KEYS| ==> r.value[j].0 == CVAP_KEYS[j]
  {
    if "STATE" !in row then Err(KeyError)
    else if "VOTING ELIGIBLE POPULATION" !in row then Err(KeyError)
    else if "PRISON" !in row then Err(KeyError)
    else if "TOTAL" !in row then Err(KeyError)
    else Ok([
      ("geoname", row["STATE"]),
      ("geotype", Str("state")),
      ("cvap_est_2016_2020", row["VOTING ELIGIBLE POPULATION"]),
      ("felon_prison_est", row["PRISON"]),
      ("felon_disf_est", row["TOTAL"])])
  }

  /** Each key of the converted row is set once. */
  lemma CvapKeysDistinct()
    ensures Distinct(CVAP_KEYS)
  {
  }

  /**
   * The converted row is a state, named by `STATE`, whose counts are copied
   * unchanged; nothing else of the source row is kept.
   */
  lemma FelonDisfRowCopies(row: map<string, Value>)
    requires forall k :: k in SOURCE_KEYS ==> k in row
    ensures var r := FelonDisfRowToCvap(row).value;
      && r[0].1 == row["STATE"]
      && r[1].1 == Str("state")
      && r[2].1 == row["VOTING ELIGIBLE POPULATION"]
      && r[3].1 == row["PRISON"]
      && r[4].1 == row["TOTAL"]
  {
    assert "STATE" in row && "VOTING ELIGIBLE POPULATION" in row && "PRISON" in row && "TOTAL" in row by {
      assert SOURCE_KEYS[0] == "STATE" && SOURCE_KEYS[3] == "TOTAL";
    }
  }

  /** The rows of `[_felon_disf_row_to_cvap(row) for row in rows]`, or the first `KeyError`. */
  function FelonDisfRecords(rows: seq<map<string, Value>>): (r: Result<seq<seq<(string, Value)>>>)
    ensures r.Ok? ==> |r.value| == |rows|
  {
    if |rows| == 0 then Ok([])
    else match FelonDisfRowToCvap(rows[0])
      case Err(e) => Err(e)
      case Ok(first) =>
        match FelonDisfRecords(rows[1..])
        case Err(e) => Err(e)
        case Ok(rest) => Ok([first] + rest)
  }

  /** The list converts when every row has the four source keys, row by row. */
  lemma {:induction false} FelonDisfRecordsRowwise(rows: seq<map<string, Value>>)
    ensures FelonDisfRecords(rows).Ok? <==> forall i :: 0 <= i < |rows| ==> FelonDisfRowToCvap(rows[i]).Ok?
    ensures FelonDisfRecords(rows).Ok? ==>
      forall i :: 0 <= i < |rows| ==> FelonDisfRecords(rows).value[i] == FelonDisfRowToCvap(rows[i]).value
  {
    if |rows| > 0 {
      FelonDisfRecordsRowwise(rows[1..]);
      assert forall i :: 1 <= i < |rows| ==> rows[i] == rows[1..][i - 1];
    }
  }
}
