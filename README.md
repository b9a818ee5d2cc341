# democracy-deserts (`ddeserts`): a verified model of its core

`ddeserts` estimates the voting-age population that cannot vote, the
"disenfranchised voting-age population" (DVAP), from three sources:

- American Community Survey (ACS) tables: citizen voting-age population
  (CVAP) and table B05003 (age, sex, nativity and citizenship).
- The Sentencing Project's felon-disenfranchisement counts.
- A list of charter cities.

This project models the deterministic core of the package:

| module | models |
|---|---|
| `Stats` (`stats.dfy`) | `stats.py`: margins of error (MoE) of sums and of proportions, after chapter 8 of the *ACS General Handbook* (2018), and the clamped proportion estimate. |
| `Parse` (`parse.dfy`) | `parse.py`: the geography-name parser `parse_geoname` and the three row parsers. The row parsers rewrite a `dict` in place. |
| `Census` (`census.dfy`) | `census.py`: `_age_sex_cit_row_to_cvap`, the loop that classifies B05003 headers and accumulates adult, citizen and CVAP counts. |
| `Annotate` (`annotate.dfy`) | `annotate.py`: the DVAP columns and the `has_charter` column, assigned into a table in place. |
| `Tsp` (`tsp.dfy`) | `tsp.py`: the data-file path and the projection of a Sentencing Project row onto CVAP-style keys. |
| `Runtime` (`runtime.dfy`) | The Python values a row holds (`None`, int, float, str, bool), Python's `int(...)`, and an insertion-ordered `dict` class. |
| `Text` (`text.dfy`) | The `str` methods the core uses: `split`, `rsplit`, `rstrip`, `replace`, `lower`, `in`, `startswith`, `endswith`, and `int()` on strings. |
| `Wrappers` (`wrappers.dfy`) | `Option`, the Python exceptions raised (`ValueError`, `TypeError`, `KeyError`) and `Result`. |

Design decisions:

- **Square roots.** `sqrt` is not computed.
  - A margin of error is kept exactly as `Root(scale, radicand)`, meaning `scale * sqrt(radicand)`.
  - The lemmas speak of every `m` with `m >= 0 && m * m == radicand`.
  - Numbers are Dafny `real`s, not IEEE floats.
- **Rounding up.** In `add_dvap_columns`, `ceil(moe_of_sum(a, b))` on integer margins is the least `s >= 0` with `s * s >= a * a + b * b`.
- **Dictionaries and tables.** A Python `dict` that the row parsers mutate is the class `Runtime.Dict`, with:
  - the keys in insertion order;
  - an entry map;
  - `Put` for `d[k] = v`.

  A pandas `DataFrame` is the class `Annotate.Frame`: its column names and one map per row. Each column assignment `df[c] = ...` is a method that rewrites every row.
- **Parameters for missing code.**
  - `annotate.py:3` imports `moe_of_ratio` from `stats.py`, which defines no such function, so that import raises `ImportError` as the code is written. The model takes `moe_of_ratio` as a function-valued parameter of `AddDvapColumns`, and nothing is assumed about it.
  - Python's `float(s)` is a parameter `string -> Option<real>`.
- **Duplicated functions.** `census.py` and `tsp.py` keep private copies of two row parsers:
  - `_parse_age_sex_cit_row` (census.py:45-54) is the same code as `parse_age_sex_cit_row`.
  - `_parse_felon_disf_row` (tsp.py:36-57) is the same code as `parse_felon_disf_row`.

  Each is modelled once, in `Parse`: `Parse.ParseAgeSexCitRow` and `Parse.ParseFelonDisfRow`.
- **The loop in census.py.** `Census.AgeSexCitRowToCvap` is the imperative loop over `row.items()`. Its contract ties it to the function `Census.RowToCvap` (a fold over the items), and the lemmas about the function state what the loop computes.

## Model

| member | source | states |
|---|---|---|
| Stats.MoeOfSum | ddeserts/stats.py:9-13 | The combined margin of error has scale 1 and a non-negative radicand, the sum of the squared margins. |
| Stats.SumOfSquaresAppend | ddeserts/stats.py:13 | The sum of squares of a concatenation is the sum of the two parts' sums of squares. |
| Stats.MoeOfSumEmpty | ddeserts/stats.py:9-13 | With no margins, the only square root of the radicand is 0. |
| Stats.MoeOfSumSingle | ddeserts/stats.py:13 | For one margin `x`, the root is exactly `abs(x)`, in both directions. |
| Stats.SumOfSquaresPermutation | ddeserts/stats.py:13 | Any reordering of the margins gives the same sum of squares. |
| Stats.MoeOfSumOrder | ddeserts/stats.py:9-13 | `moe_of_sum` does not depend on the order of its arguments. |
| Stats.MoeOfSumExtraZero | ddeserts/stats.py:9-13 | An extra margin of 0, at any position, changes nothing. |
| Stats.MoeOfSumPair | ddeserts/stats.py:9-13 | The combined margin of two is at least each one's absolute value and at most the sum of those. |
| Stats.EstOfProp | ddeserts/stats.py:36-47 | The proportion always lies in [0, 1], for every input, including negative and zero ones. |
| Stats.EstOfPropIsQuotient | ddeserts/stats.py:44-47 | When `1 <= pop` and `0 <= subpop <= pop`, the result is exactly `subpop / pop`. |
| Stats.EstOfPropQuotientOutsideDomain | ddeserts/stats.py:44-47 | The quotient can also come out outside that domain, at `pop = 0.5` and `subpop = 0`, so the converse does not hold. |
| Stats.EstOfPropSmallPop | ddeserts/stats.py:44 | A population below 1 is treated as 1. |
| Stats.EstOfPropNoSubpop | ddeserts/stats.py:45-47 | A subpopulation of at most 0 gives 0. |
| Stats.EstOfPropWholePop | ddeserts/stats.py:44-47 | A subpopulation of at least `max(pop, 1)` gives 1. |
| Stats.EstOfPropClampedQuotient | ddeserts/stats.py:44-47 | The result equals `subpop / max(pop, 1)` clamped to [0, 1], the independent reference form. |
| Stats.EstOfPropMonotone | ddeserts/stats.py:44-47 | A larger subpopulation never gives a smaller proportion. |
| Stats.MoeOfProp | ddeserts/stats.py:16-33 | With non-negative margins the call succeeds, with a non-negative radicand and a scale in (0, 1]. A negative radicand is the `ValueError` of `sqrt`. |
| Stats.RadicandNonNegative | ddeserts/stats.py:25-33 | With non-negative margins, clamping `pop_moe` to `subpop_moe` and `prop` to [0, 1] keeps the radicand between 0 and `subpop_moe ** 2`. |
| Stats.MoeOfPropBounds | ddeserts/stats.py:25-33 | With non-negative margins, the result lies between 0 and `subpop_moe / max(pop_est, 1)`. |
| Stats.MoeOfPropExactPop | ddeserts/stats.py:29-33 | With `pop_moe = 0`, the result is exactly `subpop_moe / max(pop_est, 1)`. |
| Stats.MoeOfPropNegativeMoeRaises | ddeserts/stats.py:29-33 | Negative margins can make the radicand negative, and then the call raises `ValueError`. |
| Parse.ParseGeoname | ddeserts/parse.py:48-103 | It fails only with `ValueError`. A name without `", "` is a state, named after itself. Otherwise `state` is the text after the last `", "`. The geotype is lower case and has no space. |
| Parse.ParseGeonameWithoutGeotype | ddeserts/parse.py:58-65 | When the remainder has no space, `name` is the remainder and `geotype` stays `''`. |
| Parse.ParseGeonameRoundTrip | ddeserts/parse.py:58-88 | `name + " " + geotype + ", " + state` parses back to `state`, the common name of `name`, and `geotype` lower-cased. `town` is mapped to `city` only in California. |
| Parse.ParseGeonameClarified | ddeserts/parse.py:70-101 | A trailing `" (clarification)"` is removed before the split. It is added back to the name exactly when it is non-empty and mentions `County` or `Counties`. |
| Parse.ParseGeonameBadClarification | ddeserts/parse.py:70-73 | A parenthesis not preceded by `" ("` makes the two-way unpack raise `ValueError`. |
| Parse.ParseGeonameMissingGeotype | ddeserts/parse.py:70-75 | One word before the clarification makes the name/geotype unpack raise `ValueError`. |
| Parse.CommonNameOf | ddeserts/parse.py:80-81 | A name ending in `(common)` is replaced by `common`. |
| Parse.ParseGeonameVentura | ddeserts/parse.py:77-81 | "San Buenaventura (Ventura) city, California" gives name "Ventura" and geotype "city". |
| Parse.ParseGeonameBayview | ddeserts/parse.py:90-96 | "Bayview CDP (Contra Costa County), California" gives "Bayview (Contra Costa County)" and geotype "cdp". |
| Parse.ParseGeonameMilford | ddeserts/parse.py:98-101 | "Milford city (balance), Connecticut" gives "Milford": that clarification is dropped. |
| Parse.ConvertValues | ddeserts/parse.py:2-8 | The in-place loop keeps the key set and order. It succeeds exactly when every value converts, with every value then converted. On failure, the keys before the failing one are converted and the rest are unchanged. |
| Parse.ParseAgeSexCitRow | ddeserts/parse.py:1-10 | `parse_age_sex_cit_row`, stated as `ConvertValues`' contract with the per-value rule `AgeSexCitValue`. |
| Parse.AgeSexCitCountTyped | ddeserts/parse.py:3-8 | A converted count cell is an int or `None`. |
| Parse.AgeSexCitCountRaises | ddeserts/parse.py:3-8 | A count cell raises exactly when it is not `'null'`, not `'*****'` and not an integer numeral, and then raises `ValueError`. |
| Parse.AgeSexCitDecimal | ddeserts/parse.py:7-8 | The decimal numeral of `n` under a count key becomes `n`. |
| Parse.AgeSexCitIdempotent | ddeserts/parse.py:1-10 | Converting a converted cell again changes nothing, except that a `None` count makes `int(None)` raise `TypeError`. |
| Parse.CvapGeoname | ddeserts/parse.py:15 | `row['geoname']` is looked up: `KeyError` when it is absent, `TypeError` when it is not a string, otherwise `parse_geoname` of it. |
| Parse.ParseCvapRow | ddeserts/parse.py:13-21 | On a geoname error the row is unchanged. Otherwise `state`, `name` and `geotype` are set or appended, and then the `_est`, `_tot` and `number` keys are converted, with the same success and failure account as `ConvertValues`. |
| Parse.CvapValueKeeps | ddeserts/parse.py:17-19 | `_moe` values and the geography fields are never converted. |
| Parse.CvapDecimal | ddeserts/parse.py:18-19 | A count key's decimal numeral of `n` becomes `n`. |
| Parse.CleanRow | ddeserts/parse.py:26-29 | The comprehension builds a fresh dict whose keys and entries are the `\r`-cleaned ones, in first-insertion order. |
| Parse.CleanEntriesKeys | ddeserts/parse.py:26-29 | The cleaned dict's keys are exactly the cleaned source keys, without duplicates. |
| Parse.CleanEntriesLastWins | ddeserts/parse.py:26-29 | When two keys collide after cleaning, the later value wins. |
| Parse.CleanEntriesValues | ddeserts/parse.py:26-29 | Every cleaned value is the value of some source key that cleans to it. |
| Parse.FelonDisfValue | ddeserts/parse.py:31-43 | For a text value: `''` becomes 0, and a value with `.` is never an int. Every result is an int, a float or the original string, so a text value never raises. |
| Parse.FelonDisfThousands | ddeserts/parse.py:39-43 | A value without `.` whose comma-free text is the numeral of `n` becomes `n`. |
| Parse.FelonDisfDecimal | ddeserts/parse.py:39-41 | A plain numeral of `n` becomes `n`. |
| Parse.ConvertFelonDisfValues | ddeserts/parse.py:31-43 | The loop keeps the keys. It succeeds exactly when every value is text, and then every value is replaced by its converted form. Otherwise it raises `TypeError` at a non-text value (`'.' in v`), with the keys before it converted and the rest unchanged. |
| Parse.ParseFelonDisfRow | ddeserts/parse.py:24-45 | `parse_felon_disf_row` builds a fresh dict with the cleaned keys. It raises `TypeError` exactly when a value that survives the key cleaning is not text, such as `DictReader`'s `None` for a missing field, so it never raises on an all-text row. On success every value is converted from the cleaned string. |
| Census.HeaderParts | ddeserts/census.py:89-91 | A header splits into at most 6 parts, padded with `''` to exactly 6, or raises `ValueError` (the unpack). |
| Census.ParseHeader | ddeserts/census.py:89-94 | The five named parts are read exactly when the split has at most 6 parts. Otherwise `ValueError`. |
| Census.HeaderStripped | ddeserts/census.py:91 | No named part keeps a trailing `:`. |
| Census.ClassifyChain | ddeserts/census.py:96-121 | The classification is the ordered, exclusive chain top-level, then adult, then citizen. A CVAP key is a citizen key aged 18 and over with a nativity part. |
| Census.SumInts | ddeserts/census.py:128-132 | `sum(...)` succeeds exactly on lists of ints and gives their total. Otherwise `TypeError`. |
| Census.MoeOfValues | ddeserts/census.py:129-133 | On a list of ints, `moe_of_sum(*values)` is `Stats.MoeOfSum` of them. In the model other values give `TypeError` (see Left out). |
| Census.FoldRowErrSticky | ddeserts/census.py:85-121 | Once an item raises, the rest of the row does not matter. |
| Census.AgeSexCitRowToCvap | ddeserts/census.py:57-134 | The loop with its ten accumulators returns exactly the fold `RowToCvap` of the row's items, stopping at the first exception. |
| Census.RaiseEndsRow | ddeserts/census.py:85-121 | An exception at item `i` is the result of the whole call. |
| Census.StepMeaning | ddeserts/census.py:86-121 | One item sets `geoname` if it is the area-name key, and `tot_est` if it is a top-level Estimate. It appends its value to a class's list exactly when its header selects that class. Other items are ignored. |
| Census.FoldRowMeaning | ddeserts/census.py:74-121 | After the loop: `geoname` is the last area name, `tot_est` the last top-level Estimate, `tot_moe` 0 as written, and each class holds exactly its selected values. |
| Census.RowToCvapGeo | ddeserts/census.py:74-75 | `geotype` is always `'state'`. `geoname` is the last `Geographic Area Name` value, or `''` without one. |
| Census.RowToCvapTotals | ddeserts/census.py:76-77 | `tot_est` is the last top-level Estimate, or 0. `tot_moe` is always 0. |
| Census.RowToCvapColumns | ddeserts/census.py:123-134 | Each class's estimate is the sum of its selected Estimate values, and its margin is `moe_of_sum` of its selected Margin of Error values. |
| Census.EmptyClassIsZero | ddeserts/census.py:78-83 | Any class (adult, citizen or CVAP) with no matching keys gives estimate 0 and margin 0. |
| Census.CvapWithinCitizens | ddeserts/census.py:110-121 | With non-negative values, the CVAP estimates never total more than the citizen estimates. |
| Census.CvapAtMostCitizens | ddeserts/census.py:130-132 | With non-negative values, `cvap_est <= cit_est`. |
| Census.TooManyPartsRaises | ddeserts/census.py:89-94 | A header with more than 6 parts, reached without an earlier error, makes the call raise `ValueError`. |
| Census.TotMoeDiscarded | ddeserts/census.py:100-101 | As written, a row whose top-level Margin of Error is 5 yields `tot_moe` 0. |
| Census.CorrectedTotMoe | ddeserts/census.py:100-101 | With the assignment intended, the same row yields `tot_moe` 5. |
| Census.CorrectedRowToCvapTotMoe | ddeserts/census.py:100-101 | With the assignment intended, `tot_moe` is the last top-level Margin of Error. Every other field is unchanged from the code as written. |
| Census.CorrectionOnlyTotMoe | ddeserts/census.py:96-101 | The correction changes when the loop raises in no case, and changes no accumulator except `tot_moe`. |
| Annotate.Frame.SetColumn | ddeserts/annotate.py:8 | `df[name] = values` adds `name` to the columns if it is new, and sets that cell of every row, leaving the others. |
| Annotate.CeilSqrt | ddeserts/annotate.py:11 | The result is the least natural number whose square is at least `n`. |
| Annotate.CeilSqrtLeast | ddeserts/annotate.py:11 | Any natural number whose square is at least `n` is at least the result. |
| Annotate.CeilSqrtIsCeiling | ddeserts/annotate.py:11 | `CeilSqrt(a*a + b*b)` is the ceiling of the real `moe_of_sum(a, b)`. |
| Annotate.DvapMoeBounds | ddeserts/annotate.py:9-14 | `dvap_moe` is at least `abs(adu_moe)` and `abs(cvap_moe)`, and at most their sum. |
| Annotate.DvapRow | ddeserts/annotate.py:7-22 | A row gains exactly the four DVAP cells, with the right types, and keeps every other cell. The margin is non-negative, and `dvap_pct * adu_est == dvap_est`. |
| Annotate.DvapRowValues | ddeserts/annotate.py:8-22 | `dvap_est = adu_est - cvap_est`. `dvap_moe` is the ceiling of the combined margin. `dvap_pct_moe` is `moe_of_ratio(dvap_est, dvap_moe, adu_est, adu_moe)`. |
| Annotate.DvapEstNotClamped | ddeserts/annotate.py:8-14 | `dvap_est` is not clamped: adults 10 and CVAP 12 give -2, and margins 3 and 4 give 5. |
| Annotate.DvapRowIdempotent | ddeserts/annotate.py:7-24 | Annotating an annotated row again changes nothing. |
| Annotate.AssignDvapEst | ddeserts/annotate.py:8 | The `dvap_est` column assignment, row by row. |
| Annotate.AssignDvapMoe | ddeserts/annotate.py:9-14 | The `dvap_moe` column assignment, row by row. |
| Annotate.AssignDvapPct | ddeserts/annotate.py:16 | The `dvap_pct` column assignment, row by row. |
| Annotate.AssignDvapPctMoe | ddeserts/annotate.py:17-22 | The `dvap_pct_moe` column assignment, row by row. |
| Annotate.AddDvapColumns | ddeserts/annotate.py:7-24 | It returns the same table. It keeps the number of rows, appends the four columns, and leaves every row as `DvapRow` of its old value. |
| Annotate.CharterRow | ddeserts/annotate.py:28 | `has_charter` is `True` exactly when the row's name is a string in the charter set, and `False` otherwise. Nothing else changes. |
| Annotate.AddHasCharterColumn | ddeserts/annotate.py:27-30 | It returns the same table, with the `has_charter` column added and every row as `CharterRow` of its old value. |
| Tsp.FormatOneField | ddeserts/tsp.py:16 | `pattern.format(arg)` on a pattern whose only braces are one `{0}` puts `arg` in its place. |
| Tsp.FelonDisfPathShape | ddeserts/tsp.py:8-16 | Every population's path is the fixed prefix, the population and `.csv`. |
| Tsp.FelonDisfPathDefault | ddeserts/tsp.py:15-16 | The default population `'all'` reads `data/tsp/2022-felon disenfranchisement-all.csv`. |
| Tsp.FelonDisfPathInjective | ddeserts/tsp.py:16 | Different populations read different files. |
| Tsp.FelonDisfRowToCvap | ddeserts/tsp.py:60-73 | It succeeds exactly when `STATE`, `VOTING ELIGIBLE POPULATION`, `PRISON` and `TOTAL` are all present, and otherwise raises `KeyError`. The result has exactly the five CVAP-style keys, in order. |
| Tsp.FelonDisfRowCopies | ddeserts/tsp.py:63-69 | `geotype` is `'state'`, and the other four values are copied unchanged from the source keys. |
| Tsp.FelonDisfRecords | ddeserts/tsp.py:19 | The list comprehension gives one record per row. |
| Tsp.FelonDisfRecordsRowwise | ddeserts/tsp.py:19 | The comprehension succeeds exactly when every row converts, and record `i` is row `i` converted. |
| Text.RSplitOnce | ddeserts/parse.py:58 | `rsplit(sep, 1)` splits at the last occurrence: it succeeds exactly when `sep` occurs, the parts rebuild the string, and the tail holds no `sep`. |
| Text.SplitJoin | ddeserts/census.py:89 | Joining the pieces of `split(sep)` with `sep` gives back the string. |
| Text.SplitPieces | ddeserts/census.py:89 | No piece of `split(sep)` contains `sep`. |
| Text.RStrip | ddeserts/census.py:91 | `rstrip(':')` removes exactly the trailing run of `:`. |
| Text.ParseIntOfDecimal | ddeserts/parse.py:8 | `int(str(n)) == n` for every integer `n`. |
| Runtime.ToInt | ddeserts/census.py:99 | `int(v)`: an int is kept and `None` raises `TypeError`. A string is read as its numeral, or raises `ValueError` when it is not one. A float is truncated toward zero, and a bool is 0 or 1. |
| Runtime.Dict.Put | ddeserts/parse.py:4 | `d[k] = v` sets the entry. It keeps an existing key's position and appends a new key. |

## Left out

- Reading files: opening them, skipping headers, `csv.DictReader`, latin-1 decoding and the generators that yield rows (census.py:11-42, tsp.py:18 and 26-33). These are I/O, and rows enter the model as values.
- `ddeserts/load.py` is not part of this model. It is CSV and file plumbing: the line filter and `load_charter_cities`.
- `DataFrame.from_records` (tsp.py:21) is library plumbing. The records are modelled as the sequence they are built from.
- The `astype('int')` casts after the census records are built (census.py:23-26) are not modelled. They truncate the float margins `adu_moe`, `cit_moe` and `cvap_moe`; `Census.CvapRecord` keeps those margins as exact `Stats.Root` values.
- Floating point: numbers are exact `real`s, and `sqrt` is stated through its square.
- Stats.MoeOfProp: the result is a `Root` whose value is the scale times a square root of the radicand, so the bounds are stated for every square root `m` of the radicand, not for a computed float.
- Python's `float(s)` is a parameter. Only its success or failure shapes the result; its rounding is not modelled.
- Parse.ParseGeoname: `str.lower` is modelled on ASCII letters only. Unicode case mapping is not modelled.
- Text.ParseInt: `int(s)` is modelled as an optional sign followed by ASCII digits. Surrounding whitespace, underscores and non-ASCII digits, which Python also accepts, are rejected.
- Tsp.FormatFirst: `str.format` is modelled for the `{0}` field only, which is the only field the pattern has.
- Census.SumInts: `sum(...)` is modelled on ints only. Float or bool values in a class list are reported as `TypeError`, although Python would add them. The row parser feeding this function produces only ints and `None` under count keys.
- Census.MoeOfValues: `moe_of_sum(*values)` is modelled on ints only. Float or bool values are reported as `TypeError`, although Python would square them.
- Census.AgeSexCitRowToCvap: the docstring lists a `line` field (census.py:62) that the code does not produce. The model follows the code.
- The body of `moe_of_ratio`: `stats.py` does not define it, so the import at annotate.py:3 raises `ImportError` as written. The model takes it as an uninterpreted parameter. `moe_of_prop` is not substituted for it, since its argument order differs.
- Parse.ParseFelonDisfRow: keys are strings. A row with more fields than its header, which `DictReader` stores under the key `None` (so that `k.replace` raises `AttributeError`), is not modelled.
- Annotate.AddDvapColumns requires the four input columns to hold ints and `adu_est` to be non-zero. Pandas would raise `KeyError` for a missing column and give `inf` or `NaN` for a zero divisor; neither is modelled.
- Annotate.AddHasCharterColumn requires a `name` column (pandas raises `KeyError` without one).
- Pandas vectorisation, dtypes and the index are not modelled. A table is a sequence of row maps with a column list.
- `PROP_PRISON_NON_CIT` (tsp.py:12) is an unused constant.
- The `est_of_prop` converse: `s / p` is not returned *only* when `1 <= p` and `0 <= s <= p`. `Stats.EstOfPropQuotientOutsideDomain` exhibits `s = 0, p = 0.5`, so the one-directional `Stats.EstOfPropIsQuotient` is the strongest correct form.

## Findings

| source | as written | input that shows it | evidently intended | confidence | as-written member | corrected member |
|---|---|---|---|---|---|---|
| ddeserts/census.py:101 | `tot_moe == int(v)` compares and discards the result, so `tot_moe` stays 0 | the row `{"Margin of Error!!Total:": 5}` gives `tot_moe` 0 | `tot_moe = int(v)`: the last top-level Margin of Error, 5 here | high; not executed | Census.TotMoeDiscarded | Census.CorrectedRowToCvapTotMoe |
