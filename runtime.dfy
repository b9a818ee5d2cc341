/**
 * The Python values the rows hold, Python's `int(...)` on them, and an
 * insertion-ordered dictionary (`dict`) that the row parsers update in place.
 */
module Runtime {
  import opened Wrappers
  import Text

  /** A cell of a CSV row or of a table: `None`, an int, a float, a str or a bool. */
  datatype Value = Null | Int(i: int) | Float(f: real) | Str(s: string) | Bool(b: bool)

  /** Python's `int(x)` truncates a float toward zero (Dafny's `Floor` rounds down). */
  function TruncateTowardZero(f: real): (r: int)
    ensures f >= 0.0 ==> r as real <= f < r as real + 1.0
    ensures f < 0.0 ==> r as real - 1.0 < f <= r as real
  {
    if f >= 0.0 then f.Floor else -((-f).Floor)
  }

  /**
   * Python's `int(v)`: `None` raises `TypeError`, a string is read as a
   * numeral or raises `ValueError`, a float is truncated toward zero and a
   * bool is 0 or 1.
   */
  function ToInt(v: Value): (r: Result<int>)
    ensures v.Int? ==> r == Ok(v.i)
    ensures v.Null? ==> r == Err(TypeError)
    ensures v.Str? ==> (r.Ok? <==> Text.ParseInt(v.s).Some?) && (r.Ok? ==> r.value == Text.ParseInt(v.s).value)
    ensures v.Float? ==> r.Ok? && r.value == TruncateTowardZero(v.f)
    ensures v.Bool? ==> r == Ok(if v.b then 1 else 0)
    ensures r.Err? ==> (v.Null? <==> r.error == TypeError)
    ensures r.Err? ==> (v.Str? <==> r.error == ValueError)
  {
    match v
    case Null => Err(TypeError)
    case Int(i) => Ok(i)
    case Float(f) => Ok(TruncateTowardZero(f))
    case Bool(b) => Ok(if b then 1 else 0)
    case Str(s) =>
      match Text.ParseInt(s)
      case Some(n) => Ok(n)
      case None => Err(ValueError)
  }

  /** The entries of a dictionary in insertion order. */
  function ItemsOf(keys: seq<string>, entries: map<string, Value>): (r: seq<(string, Value)>)
    requires forall k :: k in keys ==> k in entries
    ensures |r| == |keys|
    ensures forall i :: 0 <= i < |keys| ==> r[i] == (keys[i], entries[keys[i]])
  {
    if |keys| == 0 then [] else ItemsOf(keys[..|keys| - 1], entries) + [(keys[|keys| - 1], entries[keys[|keys| - 1]])]
  }

  /** The key order after storing `k`: a key already present keeps its place, a new one goes last. */
  function WithKey(keys: seq<string>, k: string): (r: seq<string>)
    ensures k in r && forall x :: x in r <==> x in keys || x == k
    ensures Distinct(keys) ==> Distinct(r)
  {
    if k in keys then keys else keys + [k]
  }

  predicate Distinct(keys: seq<string>) {
    forall i, j :: 0 <= i < j < |keys| ==> keys[i] != keys[j]
  }

  /**
   * A Python `dict` from `str` keys: `keys` is the insertion order, `entries`
   * the mapping. Assigning to a key already present keeps its position;
   * assigning to a new key appends it.
   */
  class Dict {
    var keys: seq<string>
    var entries: map<string, Value>

    ghost predicate Valid()
      reads this
    {
      && Distinct(keys)
      && (forall k :: k in entries <==> k in keys)
    }

    /** `(key, value)` pairs in order: what `dict.items()` iterates over. */
    function Items(): (r: seq<(string, Value)>)
      reads this
      requires Valid()
      ensures |r| == |keys|
    {
      ItemsOf(keys, entries)
    }

    /** `{}` */
    constructor ()
      ensures Valid() && keys == [] && entries == map[]
    {
      keys := [];
      entries := map[];
    }

    /** `d[k] = v` */
    method Put(k: string, v: Value)
      requires Valid()
      modifies this
      ensures Valid()
      ensures entries == old(entries)[k := v]
      ensures keys == WithKey(old(keys), k)
    {
      if k !in entries {
        keys := keys + [k];
      }
      entries := entries[k := v];
    }
  }
}
