/**
 * The row parsers of `ddeserts/parse.py`: a Census place name split into
 * state, name and geotype, and the three CSV row cleaners, which rewrite the
 * values of a row read by `csv.DictReader` in place.
 *
 * `census.py` and `tsp.py` carry private copies of two of these parsers
 * (`_parse_age_sex_cit_row`, `_parse_felon_disf_row`) with the same bodies;
 * they are modelled once, here.
 */
module Parse {
  import opened Wrappers
  import opened Runtime
  import Text

  // ---------------------------------------------------------------------------
  // parse_geoname

  /** The three fields `parse_geoname` returns, in the order of its dict. */
  datatype GeoName = GeoName(state: string, name: string, geotype: string)

  /** `r['name'][:-1].split('(')[-1]` when the name ends with a parenthesised common name. */
  function CommonName(name: string): string {
    if Text.EndsWith(name, ")") && Text.Contains(name, "(") then
      var parts := Text.Split(name[..|name| - 1], "(");
      parts[|parts| - 1]
    else name
  }

  /** In California a "town" is a city. */
  function TownToCity(geotype: string, state: string): string {
    if geotype == "town" && state == "California" then "city" else geotype
  }

  /** The clarifications that are kept in the name: those naming a county. */
  predicate NamesCounty(clarification: string) {
    Text.Contains(clarification, "County") || Text.Contains(clarification, "Counties")
  }

  /** Lower-casing keeps the absence of spaces. */
  lemma LowerKeepsNoSpace(s: string)
    requires ' ' !in s
    ensures ' ' !in Text.Lower(s)
  {
    var r := Text.Lower(s);
    forall i | 0 <= i < |r| ensures r[i] != ' ' {
      assert r[i] == Text.LowerChar(s[i]);
    }
  }

  /**
   * `parse_geoname`: "Bayview CDP (Contra Costa County), California" becomes
   * state "California", name "Bayview (Contra Costa County)", geotype "cdp".
   * A name without ", " is a state. `ValueError` is raised when a part meant
   * to be split off by `rsplit` is missing.
   */
  function ParseGeoname(geoname: string): (r: Result<GeoName>)
    ensures r.Err? ==> r.error == ValueError
    ensures !Text.Contains(geoname, ", ") ==> r == Ok(GeoName(geoname, geoname, "state"))
    ensures r.Ok? && Text.Contains(geoname, ", ") ==>
      Text.EndsWith(geoname, ", " + r.value.state) && !Text.Contains(r.value.state, ", ")
    ensures r.Ok? ==> ' ' !in r.value.geotype && Text.IsLower(r.value.geotype)
  {
    if !Text.Contains(geoname, ", ") then
      Ok(GeoName(geoname, geoname, "state"))
    else
      var (rest, state) := Text.RSplitOnce(geoname, ", ").value;
      assert Text.EndsWith(geoname, ", " + state) by {
        assert geoname == rest + (", " + state);
      }
      ParsePlace(rest, state)
  }

  /** What `parse_geoname` does with the text before the state. */
  function ParsePlace(rest: string, state: string): (r: Result<GeoName>)
    ensures r.Err? ==> r.error == ValueError
    ensures r.Ok? ==> r.value.state == state
    ensures r.Ok? ==> ' ' !in r.value.geotype && Text.IsLower(r.value.geotype)
  {
    if !Text.Contains(rest, " ") then
      // a place without a geotype, e.g. "Princeton, New Jersey"
      Ok(GeoName(state, rest, ""))
    else if Text.EndsWith(rest, ")") && Text.Contains(rest, "(") then
      match Text.RSplitOnce(rest[..|rest| - 1], " (")
      case None => Err(ValueError)
      case Some((inner, clarification)) => ParseTyped(inner, clarification, state)
    else
      ParseTyped(rest, "", state)
  }

  /** `r['name'], r['geotype'] = rest.rsplit(' ', 1)` and what follows it. */
  function ParseTyped(rest: string, clarification: string, state: string): (r: Result<GeoName>)
    ensures r.Err? ==> r.error == ValueError
    ensures r.Ok? ==> r.value.state == state
    ensures r.Ok? ==> ' ' !in r.value.geotype && Text.IsLower(r.value.geotype)
  {
    match Text.RSplitOnce(rest, " ")
    case None => Err(ValueError)
    case Some((name, geotype)) =>
      Text.ContainsChar(geotype, ' ');
      var common := CommonName(name);
      Ok(GeoName(
        state,
        if clarification != "" && NamesCounty(clarification) then common + " (" + clarification + ")" else common,
        PlaceType(geotype, state)))
  }

  /** `geotype.lower()`, with a Californian town counted as a city. */
  function PlaceType(geotype: string, state: string): (r: string)
    requires ' ' !in geotype
    ensures ' ' !in r && Text.IsLower(r)
  {
    LowerKeepsNoSpace(geotype);
    Text.LowerIsLower(geotype);
    TownToCity(Text.Lower(geotype), state)
  }

  /** A state name never contains ", ", so the last ", " of a place name is the one before the state. */
  lemma StateSplit(rest: string, state: string)
    requires !Text.Contains(state, ", ")
    ensures Text.RSplitOnce(rest + ", " + state, ", ") == Some((rest, state))
  {
    Text.RSplitAfter(rest, ", ", state);
  }

  /** "Princeton, New Jersey": a place without a geotype keeps its whole name. */
  lemma ParseGeonameWithoutGeotype(name: string, state: string)
    requires ' ' !in name && !Text.Contains(state, ", ")
    ensures ParseGeoname(name + ", " + state) == Ok(GeoName(state, name, ""))
  {
    var g := name + ", " + state;
    assert Text.OccursAt(g, ", ", |name|) by { assert g[|name|..|name| + 2] == ", "; }
    StateSplit(name, state);
    Text.ContainsChar(name, ' ');
  }

  /**
   * "Foo city, California": a name, a geotype and a state, with no
   * parenthesised clarification, parse back into their parts.
   */
  lemma ParseGeonameRoundTrip(name: string, geotype: string, state: string)
    requires ' ' !in geotype && ')' !in geotype && !Text.Contains(state, ", ")
    ensures ParseGeoname(name + " " + geotype + ", " + state)
      == Ok(GeoName(state, CommonName(name), TownToCity(Text.Lower(geotype), state)))
  {
    var rest := name + " " + geotype;
    var g := rest + ", " + state;
    assert Text.OccursAt(g, ", ", |rest|) by { assert g[|rest|..|rest| + 2] == ", "; }
    StateSplit(rest, state);
    assert Text.OccursAt(rest, " ", |name|) by { assert rest[|name|..|name| + 1] == " "; }
    assert !Text.EndsWith(rest, ")") by {
      assert rest[|rest| - 1] == if geotype == "" then ' ' else geotype[|geotype| - 1];
    }
    Text.ContainsChar(geotype, ' ');
    Text.RSplitAfter(name, " ", geotype);
  }

  /**
   * "Bayview CDP (Contra Costa County), California": a parenthesised
   * clarification is split off before the geotype, and is kept in the name
   * only when it names a county.
   */
  lemma ParseGeonameClarified(name: string, geotype: string, clarification: string, state: string)
    requires ' ' !in geotype
    requires !Text.Contains(clarification, " (") && !Text.Contains(state, ", ")
    ensures ParseGeoname(name + " " + geotype + " (" + clarification + ")" + ", " + state)
      == Ok(GeoName(
        state,
        if clarification != "" && NamesCounty(clarification) then CommonName(name) + " (" + clarification + ")"
        else CommonName(name),
        TownToCity(Text.Lower(geotype), state)))
  {
    var inner := name + " " + geotype;
    var rest := inner + " (" + clarification + ")";
    var g := rest + ", " + state;
    assert Text.OccursAt(g, ", ", |rest|) by { assert g[|rest|..|rest| + 2] == ", "; }
    StateSplit(rest, state);
    assert Text.OccursAt(rest, " ", |name|) by { assert rest[|name|..|name| + 1] == " "; }
    assert Text.OccursAt(rest, "(", |inner| + 1) by { assert rest[|inner| + 1..|inner| + 2] == "("; }
    assert Text.EndsWith(rest, ")");
    assert rest[..|rest| - 1] == inner + " (" + clarification;
    Text.RSplitAfter(inner, " (", clarification);
    Text.ContainsChar(geotype, ' ');
    Text.RSplitAfter(name, " ", geotype);
  }

  /**
   * A parenthesised part with no " (" before it cannot be split off, and
   * `rest.rsplit(' (', 1)` raises `ValueError` (e.g. "Foo bar(baz), Ohio").
   */
  lemma ParseGeonameBadClarification(rest: string, state: string)
    requires Text.Contains(rest, "(") && Text.Contains(rest, " ") && !Text.Contains(rest, " (")
    requires !Text.Contains(state, ", ")
    ensures ParseGeoname(rest + ")" + ", " + state) == Err(ValueError)
  {
    var full := rest + ")";
    var g := full + ", " + state;
    assert Text.OccursAt(g, ", ", |full|) by { assert g[|full|..|full| + 2] == ", "; }
    StateSplit(full, state);
    var i :| 0 <= i <= |rest| - 1 && Text.OccursAt(rest, " ", i);
    assert Text.OccursAt(full, " ", i) by { assert full[i..i + 1] == rest[i..i + 1]; }
    var j :| 0 <= j <= |rest| - 1 && Text.OccursAt(rest, "(", j);
    assert Text.OccursAt(full, "(", j) by { assert full[j..j + 1] == rest[j..j + 1]; }
    assert full[..|full| - 1] == rest;
  }

  /**
   * A one-word name followed by a clarification has no geotype to split off,
   * and `rest.rsplit(' ', 1)` raises `ValueError` (e.g. "Milford (balance), Connecticut").
   */
  lemma ParseGeonameMissingGeotype(word: string, clarification: string, state: string)
    requires ' ' !in word && !Text.Contains(clarification, " (") && !Text.Contains(state, ", ")
    ensures ParseGeoname(word + " (" + clarification + ")" + ", " + state) == Err(ValueError)
  {
    var rest := word + " (" + clarification + ")";
    var g := rest + ", " + state;
    assert Text.OccursAt(g, ", ", |rest|) by { assert g[|rest|..|rest| + 2] == ", "; }
    StateSplit(rest, state);
    assert Text.OccursAt(rest, " ", |word|) by { assert rest[|word|..|word| + 1] == " "; }
    assert Text.OccursAt(rest, "(", |word| + 1) by { assert rest[|word| + 1..|word| + 2] == "("; }
    assert rest[..|rest| - 1] == word + " (" + clarification;
    Text.RSplitAfter(word, " (", clarification);
    Text.ContainsChar(word, ' ');
  }

  /** "San Buenaventura (Ventura)": a parenthesised common name replaces the official one. */
  lemma CommonNameOf(official: string, common: string)
    requires '(' !in common
    ensures CommonName(official + "(" + common + ")") == common
  {
    var name := official + "(" + common + ")";
    assert Text.OccursAt(name, "(", |official|) by { assert name[|official|..|official| + 1] == "("; }
    assert name[..|name| - 1] == official + ['('] + common;
    Text.SplitLast(official, '(', common);
  }

  // The three examples below are proved from the general lemmas above; the
  // facts about their string constants are gathered in separate lemmas so
  // that the solver does not evaluate `ParseGeoname` on the constant itself.

  lemma VenturaParts()
    ensures "San Buenaventura (Ventura) city, California"
      == "San Buenaventura (Ventura)" + " " + "city" + ", " + "California"
  {
  }

  lemma VenturaFields()
    ensures CommonName("San Buenaventura (Ventura)") == "Ventura"
    ensures TownToCity(Text.Lower("city"), "California") == "city"
    ensures !Text.Contains("California", ", ")
  {
    assert "San Buenaventura (Ventura)" == "San Buenaventura " + "(" + "Ventura" + ")";
    CommonNameOf("San Buenaventura ", "Ventura");
    Text.AbsentChar("California", ", ", 0);
  }

  /** "San Buenaventura (Ventura) city, California" is Ventura, a city in California. */
  lemma ParseGeonameVentura()
    ensures ParseGeoname("San Buenaventura (Ventura) city, California")
      == Ok(GeoName("California", "Ventura", "city"))
  {
    VenturaParts();
    VenturaFields();
    ParseGeonameRoundTrip("San Buenaventura (Ventura)", "city", "California");
  }

  lemma BayviewParts()
    ensures "Bayview CDP (Contra Costa County), California"
      == "Bayview" + " " + "CDP" + " (" + "Contra Costa County" + ")" + ", " + "California"
  {
  }

  lemma BayviewName()
    ensures "Bayview" + " (" + "Contra Costa County" + ")" == "Bayview (Contra Costa County)"
  {
  }

  lemma BayviewSeparators()
    ensures !Text.Contains("California", ", ") && !Text.Contains("Contra Costa County", " (")
  {
    Text.AbsentChar("California", ", ", 0);
    Text.AbsentChar("Contra Costa County", " (", 1);
  }

  lemma BayviewFields()
    ensures CommonName("Bayview") == "Bayview"
    ensures TownToCity(Text.Lower("CDP"), "California") == "cdp"
  {
    assert !Text.EndsWith("Bayview", ")");
    assert Text.Lower("CDP") == "cdp";
  }

  lemma ContraCostaIsCounty()
    ensures NamesCounty("Contra Costa County")
  {
    assert Text.OccursAt("Contra Costa County", "County", 13) by {
      assert "Contra Costa County"[13..19] == "County";
    }
  }

  /** "Bayview CDP (Contra Costa County), California" keeps its county in the name. */
  lemma ParseGeonameBayview()
    ensures ParseGeoname("Bayview CDP (Contra Costa County), California")
      == Ok(GeoName("California", "Bayview (Contra Costa County)", "cdp"))
  {
    BayviewParts();
    BayviewName();
    BayviewSeparators();
    BayviewFields();
    ContraCostaIsCounty();
    ParseGeonameClarified("Bayview", "CDP", "Contra Costa County", "California");
  }

  lemma MilfordParts()
    ensures "Milford city (balance), Connecticut"
      == "Milford" + " " + "city" + " (" + "balance" + ")" + ", " + "Connecticut"
  {
  }

  lemma MilfordSeparators()
    ensures !Text.Contains("Connecticut", ", ") && !Text.Contains("balance", " (")
    ensures !NamesCounty("balance")
  {
    Text.AbsentChar("Connecticut", ", ", 0);
    Text.AbsentChar("balance", " (", 1);
    Text.AbsentChar("balance", "County", 0);
    Text.AbsentChar("balance", "Counties", 0);
  }

  lemma MilfordFields()
    ensures CommonName("Milford") == "Milford"
    ensures TownToCity(Text.Lower("city"), "Connecticut") == "city"
  {
    assert !Text.EndsWith("Milford", ")");
    assert Text.Lower("city") == "city";
  }

  /** "Milford city (balance), Connecticut" drops a clarification that is not a county. */
  lemma ParseGeonameMilford()
    ensures ParseGeoname("Milford city (balance), Connecticut")
      == Ok(GeoName("Connecticut", "Milford", "city"))
  {
    MilfordParts();
    MilfordSeparators();
    MilfordFields();
    ParseGeonameClarified("Milford", "city", "balance", "Connecticut");
  }

  // ---------------------------------------------------------------------------
  // Rewriting the values of a row in place

  /**
   * After `n` of the keys have been visited, the first `n` hold their
   * converted values and the others are as they were.
   */
  ghost predicate ConvertedUpTo(
    keys: seq<string>, before: map<string, Value>, after: map<string, Value>,
    convert: (string, Value) -> Result<Value>, n: nat)
  {
    && n <= |keys|
    && (forall k :: k in keys ==> k in before && k in after)
    && (forall j :: 0 <= j < n ==> convert(keys[j], before[keys[j]]) == Ok(after[keys[j]]))
    && (forall j :: n <= j < |keys| ==> after[keys[j]] == before[keys[j]])
  }

  /** Rewriting the next key extends the converted prefix by one. */
  lemma ConvertedStep(
    keys: seq<string>, before: map<string, Value>, after: map<string, Value>,
    convert: (string, Value) -> Result<Value>, i: nat, w: Value)
    requires Distinct(keys) && ConvertedUpTo(keys, before, after, convert, i) && i < |keys|
    requires convert(keys[i], after[keys[i]]) == Ok(w)
    ensures ConvertedUpTo(keys, before, after[keys[i] := w], convert, i + 1)
  {
  }

  /**
   * `for k, v in row.items(): row[k] = convert(k, v)`, stopping at the first
   * key whose conversion raises: the keys seen before it are already
   * rewritten, the rest are untouched.
   */
  method ConvertValues(row: Dict, convert: (string, Value) -> Result<Value>) returns (r: Outcome)
    requires row.Valid()
    modifies row
    ensures row.Valid() && row.keys == old(row.keys) && row.entries.Keys == old(row.entries).Keys
    ensures r.Pass? <==> forall k :: k in old(row.entries) ==> convert(k, old(row.entries)[k]).Ok?
    ensures r.Pass? ==> ConvertedUpTo(row.keys, old(row.entries), row.entries, convert, |row.keys|)
    ensures r.Fail? ==> exists n :: (0 <= n < |row.keys|
      && ConvertedUpTo(row.keys, old(row.entries), row.entries, convert, n)
      && convert(row.keys[n], old(row.entries)[row.keys[n]]) == Err(r.error))
  {
    var i := 0;
    while i < |row.keys|
      invariant 0 <= i <= |row.keys|
      invariant row.Valid() && row.keys == old(row.keys) && row.entries.Keys == old(row.entries).Keys
      invariant ConvertedUpTo(row.keys, old(row.entries), row.entries, convert, i)
    {
      var k := row.keys[i];
      match convert(k, row.entries[k])
      case Err(e) =>
        assert ConvertedUpTo(row.keys, old(row.entries), row.entries, convert, i);
        return Fail(e);
      case Ok(w) =>
        ConvertedStep(row.keys, old(row.entries), row.entries, convert, i, w);
        row.Put(k, w);
      i := i + 1;
    }
    r := Pass;
    forall k | k in old(row.entries) ensures convert(k, old(row.entries)[k]).Ok? {
      var j :| 0 <= j < |row.keys| && row.keys[j] == k;
    }
  }

  // ---------------------------------------------------------------------------
  // parse_age_sex_cit_row

  /** The count columns of the age/sex/citizenship tables. */
  predicate IsCountKey(k: string) {
    Text.StartsWith(k, "Estimate!!") || Text.StartsWith(k, "Margin of Error!!")
  }

  /**
   * The new value of one cell: "null" is `None`, "*****" an exact zero (a
   * count with no margin of error), a count column is converted with
   * `int(...)`, anything else is kept.
   */
  function AgeSexCitValue(k: string, v: Value): Result<Value> {
    if v == Str("null") then Ok(Null)
    else if v == Str("*****") then Ok(Int(0))
    else if IsCountKey(k) then
      match ToInt(v)
      case Ok(n) => Ok(Int(n))
      case Err(e) => Err(e)
    else Ok(v)
  }

  /** `parse_age_sex_cit_row(row)`: rewrites the row's values in place. */
  method ParseAgeSexCitRow(row: Dict) returns (r: Outcome)
    requires row.Valid()
    modifies row
    ensures row.Valid() && row.keys == old(row.keys) && row.entries.Keys == old(row.entries).Keys
    ensures r.Pass? <==> forall k :: k in old(row.entries) ==> AgeSexCitValue(k, old(row.entries)[k]).Ok?
    ensures r.Pass? ==> ConvertedUpTo(row.keys, old(row.entries), row.entries, AgeSexCitValue, |row.keys|)
    ensures r.Fail? ==> exists n :: (0 <= n < |row.keys|
      && ConvertedUpTo(row.keys, old(row.entries), row.entries, AgeSexCitValue, n)
      && AgeSexCitValue(row.keys[n], old(row.entries)[row.keys[n]]) == Err(r.error))
  {
    r := ConvertValues(row, AgeSexCitValue);
  }

  /** After parsing, a count column holds an int or `None`. */
  lemma AgeSexCitCountTyped(k: string, v: Value)
    requires IsCountKey(k) && AgeSexCitValue(k, v).Ok?
    ensures AgeSexCitValue(k, v).value.Int? || AgeSexCitValue(k, v).value.Null?
  {
  }

  /** A count column fails to parse exactly when its text is not "null", "*****" or a decimal integer. */
  lemma AgeSexCitCountRaises(k: string, s: string)
    requires IsCountKey(k)
    ensures AgeSexCitValue(k, Str(s)).Err?
        <==> s != "null" && s != "*****" && Text.ParseInt(s).None?
    ensures AgeSexCitValue(k, Str(s)).Err? ==> AgeSexCitValue(k, Str(s)).error == ValueError
  {
  }

  /** A count written as a decimal numeral parses back to the number. */
  lemma AgeSexCitDecimal(k: string, n: int)
    requires IsCountKey(k)
    ensures AgeSexCitValue(k, Str(Text.IntToDecimal(n))) == Ok(Int(n))
  {
    var s := Text.IntToDecimal(n);
    Text.ParseIntOfDecimal(n);
    assert s[0] == '-' || Text.IsDigit(s[0]);
    assert s != "null" && s != "*****" by {
      assert "null"[0] == 'n' && "*****"[0] == '*';
    }
  }

  /**
   * Parsing a parsed cell again changes nothing, except that a `None` in a
   * count column makes `int(None)` raise `TypeError`.
   */
  lemma AgeSexCitIdempotent(k: string, v: Value)
    requires AgeSexCitValue(k, v).Ok?
    ensures var w := AgeSexCitValue(k, v).value;
      if IsCountKey(k) && w.Null? then AgeSexCitValue(k, w) == Err(TypeError)
      else AgeSexCitValue(k, w) == Ok(w)
  {
  }

  // ---------------------------------------------------------------------------
  // parse_cvap_row

  /** The count columns of the CVAP special tabulation. */
  predicate IsCvapCountKey(k: string) {
    Text.EndsWith(k, "_est") || Text.EndsWith(k, "_tot") || Text.EndsWith(k, "number")
  }

  /** The new value of one cell: a count column goes through `int(...)`, others are kept. */
  function CvapValue(k: string, v: Value): Result<Value> {
    if IsCvapCountKey(k) then
      match ToInt(v)
      case Ok(n) => Ok(Int(n))
      case Err(e) => Err(e)
    else Ok(v)
  }

  /** `parse_geoname(row['geoname'])`: `KeyError` without the column, `TypeError` if it is not a str. */
  function CvapGeoname(entries: map<string, Value>): (r: Result<GeoName>)
    ensures "geoname" !in entries ==> r == Err(KeyError)
    ensures "geoname" in entries && entries["geoname"].Str? ==> r == ParseGeoname(entries["geoname"].s)
    ensures "geoname" in entries && !entries["geoname"].Str? ==> r == Err(TypeError)
  {
    if "geoname" !in entries then Err(KeyError)
    else
      match entries["geoname"]
      case Str(s) => ParseGeoname(s)
      case _ => Err(TypeError)
  }

  /** The keys after `row.update(...)` with the geo fields: new ones are appended in order. */
  function WithGeoKeys(keys: seq<string>): seq<string> {
    WithKey(WithKey(WithKey(keys, "state"), "name"), "geotype")
  }

  function WithGeoFields(entries: map<string, Value>, g: GeoName): map<string, Value> {
    entries["state" := Str(g.state)]["name" := Str(g.name)]["geotype" := Str(g.geotype)]
  }

  /**
   * `parse_cvap_row(row)`: adds the geo fields parsed from `geoname`, then
   * converts the count columns in place. A failing `parse_geoname` leaves the
   * row as it was.
   */
  method ParseCvapRow(row: Dict) returns (r: Outcome)
    requires row.Valid()
    modifies row
    ensures row.Valid()
    ensures CvapGeoname(old(row.entries)).Err? ==>
      && r == Fail(CvapGeoname(old(row.entries)).error)
      && row.keys == old(row.keys) && row.entries == old(row.entries)
    ensures CvapGeoname(old(row.entries)).Ok? ==>
      var updated := WithGeoFields(old(row.entries), CvapGeoname(old(row.entries)).value);
      && row.keys == WithGeoKeys(old(row.keys))
      && row.entries.Keys == updated.Keys
      && (r.Pass? <==> forall k :: k in updated ==> CvapValue(k, updated[k]).Ok?)
      && (r.Pass? ==> ConvertedUpTo(row.keys, updated, row.entries, CvapValue, |row.keys|))
      && (r.Fail? ==> exists n :: (0 <= n < |row.keys|
        && ConvertedUpTo(row.keys, updated, row.entries, CvapValue, n)
        && CvapValue(row.keys[n], updated[row.keys[n]]) == Err(r.error)))
  {
    var geo := CvapGeoname(row.entries);
    if geo.Err? {
      return Fail(geo.error);
    }
    var g := geo.value;
    row.Put("state", Str(g.state));
    row.Put("name", Str(g.name));
    row.Put("geotype", Str(g.geotype));
    r := ConvertValues(row, CvapValue);
  }

  lemma LastOfSuffix(k: string, p: string)
    requires |p| > 0
    ensures Text.EndsWith(k, p) ==> k[|k| - 1] == p[|p| - 1]
  {
    if Text.EndsWith(k, p) {
      assert k[|k| - |p|..][|p| - 1] == k[|k| - 1];
    }
  }

  /** No count column name ends in `e`. */
  lemma EndingInENotCount(k: string)
    requires |k| > 0 && k[|k| - 1] == 'e'
    ensures !IsCvapCountKey(k)
  {
    LastOfSuffix(k, "_est");
    LastOfSuffix(k, "_tot");
    LastOfSuffix(k, "number");
  }

  /** Margin-of-error columns and the geo fields are left as text. */
  lemma CvapValueKeeps(k: string, v: Value)
    requires Text.EndsWith(k, "_moe") || k in {"geoname", "state", "name", "geotype"}
    ensures CvapValue(k, v) == Ok(v)
  {
    LastOfSuffix(k, "_moe");
    EndingInENotCount(k);
  }

  /** A count written as a decimal numeral parses back to the number. */
  lemma CvapDecimal(k: string, n: int)
    requires IsCvapCountKey(k)
    ensures CvapValue(k, Str(Text.IntToDecimal(n))) == Ok(Int(n))
  {
    Text.ParseIntOfDecimal(n);
  }

  // ---------------------------------------------------------------------------
  // parse_felon_disf_row

  /** `k.replace('\r', ' ')`: the spreadsheet's line breaks inside headers become spaces. */
  function CleanKey(k: string): (r: string)
    ensures '\r' !in r && |r| == |k|
  {
    Text.ReplaceChar(k, '\r', ' ')
  }

  /** The dict comprehension over the row: later keys that clean to the same name win. */
  function CleanEntries(items: seq<(string, Value)>): map<string, Value> {
    if |items| == 0 then map[]
    else CleanEntries(items[..|items| - 1])[CleanKey(items[|items| - 1].0) := items[|items| - 1].1]
  }

  /** The comprehension's key order: each cleaned key where it first appears. */
  function CleanKeys(keys: seq<string>): seq<string> {
    if |keys| == 0 then []
    else WithKey(CleanKeys(keys[..|keys| - 1]), CleanKey(keys[|keys| - 1]))
  }

  /** The key set of `CleanEntries` is that of `CleanKeys` on the same row. */
  lemma {:induction false} CleanEntriesKeys(items: seq<(string, Value)>, keys: seq<string>)
    requires |items| == |keys| && forall i :: 0 <= i < |keys| ==> items[i].0 == keys[i]
    ensures forall k :: k in CleanEntries(items) <==> k in CleanKeys(keys)
    ensures Distinct(CleanKeys(keys))
  {
    if |keys| > 0 {
      CleanEntriesKeys(items[..|items| - 1], keys[..|keys| - 1]);
    }
  }

  /** Cleaning keys keeps the value of the last key that cleans to each name. */
  lemma {:induction false} CleanEntriesLastWins(items: seq<(string, Value)>, j: nat)
    requires j < |items|
    requires forall i :: j < i < |items| ==> CleanKey(items[i].0) != CleanKey(items[j].0)
    ensures CleanKey(items[j].0) in CleanEntries(items)
    ensures CleanEntries(items)[CleanKey(items[j].0)] == items[j].1
  {
    if j < |items| - 1 {
      CleanEntriesLastWins(items[..|items| - 1], j);
    }
  }

  /** Every value of the cleaned row is a value of the input row. */
  lemma {:induction false} CleanEntriesValues(items: seq<(string, Value)>, k: string)
    requires k in CleanEntries(items)
    ensures exists i :: 0 <= i < |items| && CleanKey(items[i].0) == k && items[i].1 == CleanEntries(items)[k]
  {
    var last := items[|items| - 1];
    if CleanKey(last.0) != k {
      CleanEntriesValues(items[..|items| - 1], k);
      var i :| 0 <= i < |items| - 1 && CleanKey(items[..|items| - 1][i].0) == k
        && items[..|items| - 1][i].1 == CleanEntries(items[..|items| - 1])[k];
      assert items[i] == items[..|items| - 1][i];
    }
  }

  /**
   * The new value of one text cell: empty is 0, text with a '.' goes
   * through `float(...)` (given as `parseFloat`, `None` for `ValueError`),
   * other text through `int(...)` after dropping thousands separators; text
   * that does not convert is kept as it was.
   */
  function FelonDisfValue(s: string, parseFloat: string -> Option<real>): (r: Value)
    ensures s == "" ==> r == Int(0)
    ensures r.Int? || r.Float? || r == Str(s)
    ensures '.' in s ==> !r.Int?
  {
    if s == "" then Int(0)
    else if '.' in s then
      match parseFloat(s)
      case Some(f) => Float(f)
      case None => Str(s)
    else
      match Text.ParseInt(Text.RemoveChar(s, ','))
      case Some(n) => Int(n)
      case None => Str(s)
  }

  /** "1,234,567" is read as 1234567: a number with thousands separators parses to its value. */
  lemma FelonDisfThousands(s: string, n: int, parseFloat: string -> Option<real>)
    requires s != "" && '.' !in s && Text.RemoveChar(s, ',') == Text.IntToDecimal(n)
    ensures FelonDisfValue(s, parseFloat) == Int(n)
  {
    Text.ParseIntOfDecimal(n);
  }

  /** A decimal numeral is read as its value. */
  lemma FelonDisfDecimal(n: int, parseFloat: string -> Option<real>)
    ensures FelonDisfValue(Text.IntToDecimal(n), parseFloat) == Int(n)
  {
    var s := Text.IntToDecimal(n);
    assert s[0] == '-' || Text.IsDigit(s[0]);
    forall i | 0 <= i < |s| ensures s[i] != '.' && s[i] != ',' {
      if s[0] == '-' { assert s[1..] == Text.NatToDecimal(-n); if i > 0 { assert s[i] == s[1..][i - 1]; } }
    }
    assert Text.RemoveChar(s, ',') == s;
    FelonDisfThousands(s, n, parseFloat);
  }

  lemma CleanSnoc(items: seq<(string, Value)>, x: (string, Value), keys: seq<string>)
    ensures CleanEntries(items + [x]) == CleanEntries(items)[CleanKey(x.0) := x.1]
    ensures CleanKeys(keys + [x.0]) == WithKey(CleanKeys(keys), CleanKey(x.0))
  {
    assert (items + [x])[..|items|] == items;
    assert (keys + [x.0])[..|keys|] == keys;
  }

  /** One more item of the comprehension. */
  lemma CleanStep(items: seq<(string, Value)>, keys: seq<string>, i: nat)
    requires i < |items| == |keys| && items[i].0 == keys[i]
    ensures CleanEntries(items[..i + 1]) == CleanEntries(items[..i])[CleanKey(keys[i]) := items[i].1]
    ensures CleanKeys(keys[..i + 1]) == WithKey(CleanKeys(keys[..i]), CleanKey(keys[i]))
  {
    CleanSnoc(items[..i], items[i], keys[..i]);
    assert items[..i + 1] == items[..i] + [items[i]];
    assert keys[..i + 1] == keys[..i] + [keys[i]];
  }

  /** `{k.replace('\r', ' '): v for k, v in row.items()}` */
  method CleanRow(row: Dict) returns (out: Dict)
    requires row.Valid()
    ensures fresh(out) && out.Valid()
    ensures out.keys == CleanKeys(row.keys) && out.entries == CleanEntries(row.Items())
  {
    var keys := row.keys;
    var items := row.Items();
    out := new Dict();
    var i := 0;
    while i < |items|
      invariant 0 <= i <= |items| == |keys|
      invariant out.Valid() && fresh(out)
      invariant out.keys == CleanKeys(keys[..i])
      invariant out.entries == CleanEntries(items[..i])
    {
      var (k, v) := items[i];
      CleanStep(items, keys, i);
      out.Put(CleanKey(k), v);
      i := i + 1;
    }
    assert items[..i] == items && keys[..i] == keys;
  }

  /**
   * One step of the second loop of `parse_felon_disf_row`: a text value is
   * converted; any other value (`None`, which `csv.DictReader` puts in the
   * missing fields of a short row) makes `'.' in v` raise `TypeError`.
   */
  function FelonDisfCell(parseFloat: string -> Option<real>): (string, Value) -> Result<Value> {
    (k: string, v: Value) => if v.Str? then Ok(FelonDisfValue(v.s, parseFloat)) else Err(TypeError)
  }

  /** The second loop of `parse_felon_disf_row`: text values are converted in place, up to the first non-text value. */
  method ConvertFelonDisfValues(row: Dict, parseFloat: string -> Option<real>) returns (r: Outcome)
    requires row.Valid()
    modifies row
    ensures row.Valid() && row.keys == old(row.keys) && row.entries.Keys == old(row.entries).Keys
    ensures r.Pass? <==> forall k :: k in old(row.entries) ==> old(row.entries)[k].Str?
    ensures r.Pass? ==> forall k :: k in row.entries ==> row.entries[k] == FelonDisfValue(old(row.entries)[k].s, parseFloat)
    ensures r.Fail? ==> r.error == TypeError && exists n :: (0 <= n < |row.keys|
      && ConvertedUpTo(row.keys, old(row.entries), row.entries, FelonDisfCell(parseFloat), n)
      && !old(row.entries)[row.keys[n]].Str?)
  {
    r := ConvertValues(row, FelonDisfCell(parseFloat));
    if r.Pass? {
      forall k | k in row.entries
        ensures row.entries[k] == FelonDisfValue(old(row.entries)[k].s, parseFloat)
      {
        var n :| 0 <= n < |row.keys| && row.keys[n] == k;
      }
    }
  }

  /** The values of the cleaned row are values of the input row. */
  lemma CleanEntriesText(items: seq<(string, Value)>)
    requires forall i :: 0 <= i < |items| ==> items[i].1.Str?
    ensures forall k :: k in CleanEntries(items) ==> CleanEntries(items)[k].Str?
  {
    forall k | k in CleanEntries(items) ensures CleanEntries(items)[k].Str? {
      CleanEntriesValues(items, k);
    }
  }

  /**
   * `parse_felon_disf_row(row)`: a new dict with cleaned keys, whose text
   * values are converted where they can be. It raises `TypeError` exactly
   * when a value that survives the key cleaning is not text.
   */
  method ParseFelonDisfRow(row: Dict, parseFloat: string -> Option<real>) returns (out: Dict, r: Outcome)
    requires row.Valid()
    ensures fresh(out) && out.Valid()
    ensures out.keys == CleanKeys(row.keys)
    ensures forall k :: k in out.entries <==> k in CleanEntries(row.Items())
    ensures r.Pass? <==> forall k :: k in CleanEntries(row.Items()) ==> CleanEntries(row.Items())[k].Str?
    ensures (forall k :: k in row.entries ==> row.entries[k].Str?) ==> r.Pass?
    ensures r.Pass? ==> forall k :: k in out.entries ==>
      CleanEntries(row.Items())[k].Str? && out.entries[k] == FelonDisfValue(CleanEntries(row.Items())[k].s, parseFloat)
    ensures r.Fail? ==> r.error == TypeError
  {
    out := CleanRow(row);
    if forall k :: k in row.entries ==> row.entries[k].Str? {
      CleanEntriesText(row.Items());
    }
    r := ConvertFelonDisfValues(out, parseFloat);
  }
}
