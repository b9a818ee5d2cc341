/**
 * The Python `str` operations the parsers use, on `string` = `seq<char>`:
 * `in`, `startswith`, `endswith`, `rsplit(sep, 1)`, `split(sep)`,
 * `rstrip(c)`, `replace`, `lower()` and decimal `int(...)`.
 */
module Text {
  import opened Wrappers

  /** `t` occurs in `s` starting at index `i`. */
  predicate OccursAt(s: string, t: string, i: int) {
    0 <= i && i + |t| <= |s| && s[i..i + |t|] == t
  }

  /** Python's `t in s`. */
  predicate Contains(s: string, t: string) {
    exists i | 0 <= i <= |s| - |t| :: OccursAt(s, t, i)
  }

  predicate StartsWith(s: string, p: string) {
    |p| <= |s| && s[..|p|] == p
  }

  predicate EndsWith(s: string, p: string) {
    |p| <= |s| && s[|s| - |p|..] == p
  }

  /** The last occurrence of `t` in `s` that starts at or before `i`. */
  function LastIndexFrom(s: string, t: string, i: int): (r: Option<nat>)
    ensures r.Some? ==> r.value <= i && OccursAt(s, t, r.value)
    ensures r.Some? ==> forall j :: r.value < j <= i ==> !OccursAt(s, t, j)
    ensures r.None? ==> forall j :: j <= i ==> !OccursAt(s, t, j)
    decreases i + 1
  {
    if i < 0 then None
    else if OccursAt(s, t, i) then Some(i)
    else LastIndexFrom(s, t, i - 1)
  }

  /** The index where the last occurrence of `t` in `s` starts. */
  function LastIndexOf(s: string, t: string): (r: Option<nat>)
    ensures r.Some? ==> OccursAt(s, t, r.value)
    ensures r.Some? ==> forall j :: r.value < j ==> !OccursAt(s, t, j)
    ensures r.None? <==> !Contains(s, t)
  {
    LastIndexFrom(s, t, |s| - |t|)
  }

  /** The first occurrence of `t` in `s` that starts at or after `i`. */
  function FirstIndexFrom(s: string, t: string, i: nat): (r: Option<nat>)
    ensures r.Some? ==> i <= r.value && OccursAt(s, t, r.value)
    ensures r.Some? ==> forall j :: i <= j < r.value ==> !OccursAt(s, t, j)
    ensures r.None? ==> forall j :: i <= j ==> !OccursAt(s, t, j)
    decreases |s| - i
  {
    if i + |t| > |s| then None
    else if OccursAt(s, t, i) then Some(i)
    else FirstIndexFrom(s, t, i + 1)
  }

  /** The index where the first occurrence of `t` in `s` starts. */
  function FirstIndexOf(s: string, t: string): (r: Option<nat>)
    ensures r.Some? ==> OccursAt(s, t, r.value)
    ensures r.Some? ==> forall j :: 0 <= j < r.value ==> !OccursAt(s, t, j)
    ensures r.None? <==> !Contains(s, t)
  {
    FirstIndexFrom(s, t, 0)
  }

  /** An occurrence of `t` inside `s[a..]` is an occurrence inside `s`, shifted by `a`. */
  lemma OccursInSuffix(s: string, t: string, a: nat, j: int)
    requires a <= |s|
    ensures OccursAt(s[a..], t, j) <==> (0 <= j && OccursAt(s, t, a + j))
  {
    if 0 <= j && j + |t| <= |s| - a {
      assert s[a..][j..j + |t|] == s[a + j..a + j + |t|];
    }
  }

  /** An occurrence of `t` inside `s[..b]` is an occurrence inside `s` that ends by `b`. */
  lemma OccursInPrefix(s: string, t: string, b: nat, j: int)
    requires b <= |s|
    ensures OccursAt(s[..b], t, j) <==> (OccursAt(s, t, j) && j + |t| <= b)
  {
    if 0 <= j && j + |t| <= b {
      assert s[..b][j..j + |t|] == s[j..j + |t|];
    }
  }

  /**
   * Python's `s.rsplit(sep, 1)` unpacked into two names: `None` when the split
   * yields a single piece (the unpack raises), otherwise the text before and
   * after the LAST occurrence of `sep`.
   */
  function RSplitOnce(s: string, sep: string): (r: Option<(string, string)>)
    requires |sep| > 0
    ensures r.Some? <==> Contains(s, sep)
    ensures r.Some? ==> s == r.value.0 + sep + r.value.1
    ensures r.Some? ==> !Contains(r.value.1, sep)
  {
    match LastIndexOf(s, sep)
    case None => None
    case Some(i) =>
      var after := s[i + |sep|..];
      assert s == s[..i] + sep + after by {
        assert s[i..i + |sep|] == sep;
        assert s == s[..i] + s[i..i + |sep|] + s[i + |sep|..];
      }
      forall j | 0 <= j <= |after| - |sep|
        ensures !OccursAt(after, sep, j)
      {
        OccursInSuffix(s, sep, i + |sep|, j);
      }
      Some((s[..i], after))
  }

  /** Python's `', '.join(parts)` with separator `sep`. */
  function Join(parts: seq<string>, sep: string): string
  {
    if |parts| == 0 then ""
    else if |parts| == 1 then parts[0]
    else parts[0] + sep + Join(parts[1..], sep)
  }

  /**
   * Python's `s.split(sep)` for a non-empty separator: the pieces between the
   * occurrences of `sep`, found from left to right without overlap.
   */
  function Split(s: string, sep: string): (r: seq<string>)
    requires |sep| > 0
    ensures |r| >= 1
    decreases |s|
  {
    match FirstIndexOf(s, sep)
    case None => [s]
    case Some(i) => [s[..i]] + Split(s[i + |sep|..], sep)
  }

  /** The text before the first occurrence of `sep` and the text after it. */
  lemma FirstSplit(s: string, sep: string, i: nat)
    requires |sep| > 0 && FirstIndexOf(s, sep) == Some(i)
    ensures s == s[..i] + sep + s[i + |sep|..]
    ensures !Contains(s[..i], sep)
  {
    assert s[i..i + |sep|] == sep;
    assert s == s[..i] + s[i..i + |sep|] + s[i + |sep|..];
    forall j | 0 <= j <= i - |sep| ensures !OccursAt(s[..i], sep, j) {
      OccursInPrefix(s, sep, i, j);
    }
  }

  /** `sep.join(s.split(sep)) == s`. */
  lemma {:induction false} SplitJoin(s: string, sep: string)
    requires |sep| > 0
    ensures Join(Split(s, sep), sep) == s
    decreases |s|
  {
    match FirstIndexOf(s, sep)
    case None =>
    case Some(i) =>
      FirstSplit(s, sep, i);
      SplitJoin(s[i + |sep|..], sep);
  }

  /** No piece of `s.split(sep)` contains `sep`. */
  lemma {:induction false} SplitPieces(s: string, sep: string, k: nat)
    requires |sep| > 0 && k < |Split(s, sep)|
    ensures !Contains(Split(s, sep)[k], sep)
    decreases |s|
  {
    match FirstIndexOf(s, sep)
    case None =>
    case Some(i) =>
      FirstSplit(s, sep, i);
      if k > 0 {
        SplitPieces(s[i + |sep|..], sep, k - 1);
      }
  }

  /** `s.split(sep)` has one piece exactly when `sep` does not occur in `s`. */
  lemma {:induction false} SplitSingle(s: string, sep: string)
    requires |sep| > 0
    ensures |Split(s, sep)| == 1 <==> !Contains(s, sep)
  {
    var first := FirstIndexOf(s, sep);
    if first.Some? {
      var rest := Split(s[first.value + |sep|..], sep);
      assert Split(s, sep) == [s[..first.value]] + rest;
      assert |rest| >= 1;
    }
  }

  /** Python's `s.rstrip(c)`: `s` without its trailing run of `c`. */
  function RStrip(s: string, c: char): (r: string)
    ensures |r| <= |s| && r == s[..|r|]
    ensures |r| == 0 || r[|r| - 1] != c
    ensures forall i :: |r| <= i < |s| ==> s[i] == c
  {
    if |s| > 0 && s[|s| - 1] == c then RStrip(s[..|s| - 1], c) else s
  }

  /** Python's `s.replace(a, b)` for single characters. */
  function ReplaceChar(s: string, a: char, b: char): (r: string)
    ensures |r| == |s|
    ensures forall i :: 0 <= i < |s| ==> r[i] == if s[i] == a then b else s[i]
  {
    if |s| == 0 then "" else ReplaceChar(s[..|s| - 1], a, b) + [if s[|s| - 1] == a then b else s[|s| - 1]]
  }

  /** Python's `s.replace(c, '')`. */
  function RemoveChar(s: string, c: char): (r: string)
    ensures c !in r
    ensures c !in s ==> r == s
  {
    if |s| == 0 then ""
    else if s[|s| - 1] == c then RemoveChar(s[..|s| - 1], c)
    else RemoveChar(s[..|s| - 1], c) + [s[|s| - 1]]
  }

  function LowerChar(c: char): char {
    if 'A' <= c <= 'Z' then (c as int - 'A' as int + 'a' as int) as char else c
  }

  /** Python's `s.lower()` on ASCII letters. */
  function Lower(s: string): (r: string)
    ensures |r| == |s|
    ensures forall i :: 0 <= i < |s| ==> r[i] == LowerChar(s[i])
  {
    if |s| == 0 then "" else Lower(s[..|s| - 1]) + [LowerChar(s[|s| - 1])]
  }

  /** No upper-case ASCII letter in `s`. */
  predicate IsLower(s: string) {
    forall i :: 0 <= i < |s| ==> !('A' <= s[i] <= 'Z')
  }

  lemma LowerIsLower(s: string)
    ensures IsLower(Lower(s))
  {
  }

  // ---------------------------------------------------------------------------
  // Decimal integers.

  predicate IsDigit(c: char) { '0' <= c <= '9' }

  predicate AllDigits(s: string) { forall i :: 0 <= i < |s| ==> IsDigit(s[i]) }

  function DigitValue(c: char): nat
    requires IsDigit(c)
  {
    c as int - '0' as int
  }

  function DigitChar(d: nat): (c: char)
    requires d < 10
    ensures IsDigit(c) && DigitValue(c) == d
  {
    ('0' as int + d) as char
  }

  /** The value of a string of decimal digits, most significant first. */
  function DigitsValue(s: string): nat
    requires AllDigits(s)
  {
    if |s| == 0 then 0 else 10 * DigitsValue(s[..|s| - 1]) + DigitValue(s[|s| - 1])
  }

  /**
   * Python's `int(s)` on a string, simplified: an optional `+` or `-` sign
   * followed by one or more ASCII digits. `None` is the `ValueError`.
   */
  function ParseInt(s: string): (r: Option<int>)
    ensures r.Some? ==> |s| > 0
  {
    if |s| > 0 && (s[0] == '-' || s[0] == '+') then
      var ds := s[1..];
      if |ds| > 0 && AllDigits(ds) then
        var n: int := DigitsValue(ds);
        Some(if s[0] == '-' then -n else n)
      else None
    else if |s| > 0 && AllDigits(s) then Some(DigitsValue(s))
    else None
  }

  /** The shortest decimal numeral of `n`. */
  function NatToDecimal(n: nat): (r: string)
    ensures |r| > 0 && AllDigits(r)
  {
    if n < 10 then [DigitChar(n)] else NatToDecimal(n / 10) + [DigitChar(n % 10)]
  }

  /** Python's `str(n)` for an int. */
  function IntToDecimal(n: int): (r: string)
    ensures |r| > 0
  {
    if n < 0 then "-" + NatToDecimal(-n) else NatToDecimal(n)
  }

  lemma {:induction false} NatToDecimalValue(n: nat)
    ensures DigitsValue(NatToDecimal(n)) == n
  {
    var r := NatToDecimal(n);
    if n >= 10 {
      NatToDecimalValue(n / 10);
      assert r[..|r| - 1] == NatToDecimal(n / 10);
    }
  }

  /** Reading back what `str(n)` prints gives `n`. */
  lemma ParseIntOfDecimal(n: int)
    ensures ParseInt(IntToDecimal(n)) == Some(n)
  {
    if n < 0 {
      NatToDecimalValue(-n);
      assert IntToDecimal(n)[1..] == NatToDecimal(-n);
    } else {
      NatToDecimalValue(n);
    }
  }

  /** A separator whose first character is absent from `s` does not occur in `s`. */
  lemma AbsentFirstChar(s: string, t: string)
    requires |t| > 0 && t[0] !in s
    ensures !Contains(s, t)
  {
    forall i | 0 <= i <= |s| - |t| ensures !OccursAt(s, t, i) {
      assert s[i..i + |t|][0] == s[i];
    }
  }

  /**
   * The last occurrence of `sep` in `a + sep + b` is the one after `a` when
   * `sep` occurs in `sep + b` only at its start.
   */
  lemma {:induction false} RSplitAt(a: string, sep: string, b: string)
    requires |sep| > 0
    requires forall j :: 0 < j ==> !OccursAt(sep + b, sep, j)
    ensures RSplitOnce(a + sep + b, sep) == Some((a, b))
  {
    var s := a + sep + b;
    assert OccursAt(s, sep, |a|) by {
      assert s[|a|..|a| + |sep|] == sep;
    }
    var i := LastIndexOf(s, sep).value;
    if i > |a| {
      assert s[|a|..] == sep + b;
      OccursInSuffix(s, sep, |a|, i - |a|);
      assert false;
    }
    assert i == |a|;
    assert s[..i] == a;
    assert s[i + |sep|..] == b;
  }

  /** A one-character string occurs exactly when its character does. */
  lemma ContainsChar(s: string, c: char)
    ensures Contains(s, [c]) <==> c in s
  {
    if c in s {
      var i :| 0 <= i < |s| && s[i] == c;
      assert OccursAt(s, [c], i);
    }
    if Contains(s, [c]) {
      var i :| 0 <= i <= |s| - 1 && OccursAt(s, [c], i);
      assert s[i..i + 1][0] == s[i];
    }
  }

  /** A separator whose first character does not recur in it occurs in `sep + b` only at 0, when absent from `b`. */
  lemma OnlyLeadingOccurrence(sep: string, b: string, j: int)
    requires |sep| > 0 && forall k :: 0 < k < |sep| ==> sep[k] != sep[0]
    requires !Contains(b, sep)
    requires 0 < j
    ensures !OccursAt(sep + b, sep, j)
  {
    var s := sep + b;
    if j < |sep| {
      if j + |sep| <= |s| {
        assert s[j..j + |sep|][0] == s[j] == sep[j];
      }
    } else {
      OccursInSuffix(s, sep, |sep|, j - |sep|);
      assert s[|sep|..] == b;
    }
  }

  /**
   * `(a + sep + b).rsplit(sep, 1)` is `[a, b]` when `sep` is absent from `b`
   * and its first character does not recur in it (`", "`, `" ("`, `" "`).
   */
  lemma RSplitAfter(a: string, sep: string, b: string)
    requires |sep| > 0 && forall k :: 0 < k < |sep| ==> sep[k] != sep[0]
    requires !Contains(b, sep)
    ensures RSplitOnce(a + sep + b, sep) == Some((a, b))
  {
    forall j | 0 < j ensures !OccursAt(sep + b, sep, j) {
      OnlyLeadingOccurrence(sep, b, j);
    }
    RSplitAt(a, sep, b);
  }

  /** `(a + sep + b).split(sep)` starts with `a` when the first character of `sep` does not occur in `a`. */
  lemma SplitAfterFirst(a: string, sep: string, b: string)
    requires |sep| > 0 && sep[0] !in a
    ensures Split(a + sep + b, sep) == [a] + Split(b, sep)
  {
    var s := a + sep + b;
    assert OccursAt(s, sep, |a|) by {
      assert s[|a|..|a| + |sep|] == sep;
    }
    forall j | 0 <= j < |a| ensures !OccursAt(s, sep, j) {
      if j + |sep| <= |s| {
        assert s[j..j + |sep|][0] == s[j] == a[j];
      }
    }
    var i := FirstIndexOf(s, sep).value;
    assert i == |a|;
    assert s[..i] == a;
    assert s[i + |sep|..] == b;
  }

  /** A string with a character that does not occur in `s` does not occur in `s`. */
  lemma AbsentChar(s: string, t: string, k: nat)
    requires k < |t| && t[k] !in s
    ensures !Contains(s, t)
  {
    forall i | 0 <= i <= |s| - |t| ensures !OccursAt(s, t, i) {
      assert s[i..i + |t|][k] == s[i + k];
    }
  }

  /** The last piece of `s.split(c)` is what follows the last `c`. */
  lemma {:induction false} SplitLast(a: string, c: char, b: string)
    requires c !in b
    ensures var parts := Split(a + [c] + b, [c]); parts[|parts| - 1] == b
    decreases |a|
  {
    var s := a + [c] + b;
    var i := SplitLastFirst(a, c, b);
    var rest := Split(s[i + 1..], [c]);
    assert Split(s, [c]) == [s[..i]] + rest;
    if i == |a| {
      assert s[i + 1..] == b;
      ContainsChar(b, c);
      assert rest == [b];
    } else {
      SplitLastTail(a, c, b, i);
      SplitLast(a[i + 1..], c, b);
    }
  }

  /** The first `c` of `a + [c] + b` is at most at `|a|`. */
  lemma SplitLastFirst(a: string, c: char, b: string) returns (i: nat)
    ensures FirstIndexOf(a + [c] + b, [c]) == Some(i) && i <= |a|
  {
    var s := a + [c] + b;
    assert OccursAt(s, [c], |a|) by {
      assert s[|a|..|a| + 1] == [c];
    }
    i := FirstIndexOf(s, [c]).value;
  }

  lemma SplitLastTail(a: string, c: char, b: string, i: nat)
    requires i < |a|
    ensures (a + [c] + b)[i + 1..] == a[i + 1..] + [c] + b
  {
    assert a + [c] + b == a[..i + 1] + (a[i + 1..] + [c] + b);
  }
}

