/** Models of the PHP built-in functions that lib/functions.php relies on:
    trim, is_numeric, substr_count (for one character), strtolower, strtr (for
    one character), explode, implode and strval (for non-negative integers).
    Strings are sequences of characters; PHP's byte strings are read as ASCII. */
module Php {

  datatype Option<T> = None | Some(value: T)

  // ---------------------------------------------------------------- trim

  /** The characters trim() strips when it is given no character list:
      space, tab, newline, carriage return, NUL and vertical tab. */
  const TrimChars: set<char> := {' ', '\t', '\n', '\r', '\0', '\U{000B}'}

  /** Number of leading characters of `s` that belong to `cs`. */
  function LeadingIn(s: string, cs: set<char>): (k: nat)
    ensures k <= |s|
    ensures forall i :: 0 <= i < k ==> s[i] in cs
    ensures k < |s| ==> s[k] !in cs
  {
    if |s| > 0 && s[0] in cs then 1 + LeadingIn(s[1..], cs) else 0
  }

  /** Number of trailing characters of `s` that belong to `cs`. */
  function TrailingIn(s: string, cs: set<char>): (k: nat)
    ensures k <= |s|
    ensures forall i :: |s| - k <= i < |s| ==> s[i] in cs
    ensures k < |s| ==> s[|s| - 1 - k] !in cs
  {
    if |s| > 0 && s[|s| - 1] in cs then 1 + TrailingIn(s[..|s| - 1], cs) else 0
  }

  /** `r` is the stretch of `s` starting at `a`, and only characters of `cs`
      lie before and after it. */
  predicate TrimmedAt(s: string, cs: set<char>, r: string, a: int)
  {
    0 <= a <= |s| - |r| && r == s[a..a + |r|] &&
    (forall i :: 0 <= i < a ==> s[i] in cs) &&
    (forall i :: a + |r| <= i < |s| ==> s[i] in cs)
  }

  /** trim($s, $cs): removes the characters of `cs` from both ends of `s`. */
  function TrimSet(s: string, cs: set<char>): (r: string)
    ensures |r| <= |s|
    ensures |r| > 0 ==> r[0] !in cs && r[|r| - 1] !in cs
    ensures (forall i :: 0 <= i < |s| ==> s[i] in cs) ==> r == []
    ensures |s| > 0 && s[0] !in cs && s[|s| - 1] !in cs ==> r == s
    ensures exists a :: TrimmedAt(s, cs, r, a)
  {
    var a := LeadingIn(s, cs);
    var rest := s[a..];
    var r := rest[..|rest| - TrailingIn(rest, cs)];
    assert r == s[a..a + |r|];
    assert forall i :: a + |r| <= i < |s| ==> s[i] in cs by {
      forall i | a + |r| <= i < |s| ensures s[i] in cs {
        assert s[i] == rest[i - a];
      }
    }
    assert TrimmedAt(s, cs, r, a);
    r
  }

  /** The stretch trim keeps is the only one with characters of `cs` around it
      and none at its own ends. */
  lemma TrimSetUnique(s: string, cs: set<char>, t: string, a: int)
    requires TrimmedAt(s, cs, t, a)
    requires |t| > 0 ==> t[0] !in cs && t[|t| - 1] !in cs
    ensures t == TrimSet(s, cs)
  {
    var r := TrimSet(s, cs);
    if |t| > 0 {
      var b :| TrimmedAt(s, cs, r, b);
      assert r[0] == s[b] && t[0] == s[a];
      assert |r| == |t| by {
        assert r[|r| - 1] == s[b + |r| - 1] && t[|t| - 1] == s[a + |t| - 1];
      }
    }
  }

  /** trim($s) with the default character list. */
  function Trim(s: string): string
  {
    TrimSet(s, TrimChars)
  }

  // ---------------------------------------------------------- is_numeric

  predicate IsDigit(c: char)
  {
    '0' <= c <= '9'
  }

  /** The whitespace is_numeric() accepts in front of a number. */
  const NumericWhitespace: set<char> := {' ', '\t', '\n', '\r', '\U{000B}', '\U{000C}'}

  /** Number of leading decimal digits of `s`. */
  function LeadingDigits(s: string): (k: nat)
    ensures k <= |s|
    ensures forall i :: 0 <= i < k ==> IsDigit(s[i])
    ensures k < |s| ==> !IsDigit(s[k])
  {
    if |s| > 0 && IsDigit(s[0]) then 1 + LeadingDigits(s[1..]) else 0
  }

  predicate AllDigits(s: string)
  {
    forall i :: 0 <= i < |s| ==> IsDigit(s[i])
  }

  /** An optional exponent: empty, or `e`/`E`, an optional sign and at least one digit. */
  predicate IsExponentOrEmpty(e: string)
  {
    |e| == 0 ||
    ((e[0] == 'e' || e[0] == 'E') &&
     var f := if |e| > 1 && (e[1] == '+' || e[1] == '-') then e[2..] else e[1..];
     |f| > 0 && AllDigits(f))
  }

  /** Digits with an optional decimal point (at least one digit on one side of it),
      then an optional exponent. */
  predicate IsUnsignedDecimal(u: string)
  {
    var a := LeadingDigits(u);
    if a < |u| && u[a] == '.' then
      var b := LeadingDigits(u[a + 1..]);
      (a > 0 || b > 0) && IsExponentOrEmpty(u[a + 1 + b..])
    else
      a > 0 && IsExponentOrEmpty(u[a..])
  }

  /** is_numeric() on a string, as PHP 7 defines it: leading whitespace, an
      optional sign, then a decimal number; no trailing characters at all. */
  predicate IsNumeric(s: string)
  {
    var t := s[LeadingIn(s, NumericWhitespace)..];
    var u := if |t| > 0 && (t[0] == '+' || t[0] == '-') then t[1..] else t;
    IsUnsignedDecimal(u)
  }

  /** The characters a numeric string may contain. */
  predicate IsNumericChar(c: char)
  {
    IsDigit(c) || c in NumericWhitespace || c in {'+', '-', '.', 'e', 'E'}
  }

  lemma ExponentChars(e: string)
    requires IsExponentOrEmpty(e)
    ensures forall i :: 0 <= i < |e| ==> IsNumericChar(e[i])
  {
    if |e| > 0 {
      var f := if |e| > 1 && (e[1] == '+' || e[1] == '-') then e[2..] else e[1..];
      var off := |e| - |f|;
      forall i | 0 <= i < |e| ensures IsNumericChar(e[i]) {
        if i >= off {
          assert e[i] == f[i - off];
        }
      }
    }
  }

  /** The fractional form: digits, '.', digits, exponent. */
  lemma PointDecimalChars(u: string, a: nat, b: nat)
    requires a < |u| && u[a] == '.'
    requires forall i :: 0 <= i < a ==> IsDigit(u[i])
    requires a + 1 + b <= |u| && forall i :: a + 1 <= i < a + 1 + b ==> IsDigit(u[i])
    requires a > 0 || b > 0
    requires IsExponentOrEmpty(u[a + 1 + b..])
    ensures forall i :: 0 <= i < |u| ==> IsNumericChar(u[i])
    ensures exists i :: 0 <= i < |u| && IsDigit(u[i])
  {
    var e := u[a + 1 + b..];
    ExponentChars(e);
    forall i | 0 <= i < |u| ensures IsNumericChar(u[i]) {
      if i >= a + 1 + b {
        assert u[i] == e[i - (a + 1 + b)];
      }
    }
    if a == 0 {
      assert IsDigit(u[a + 1]);
    } else {
      assert IsDigit(u[0]);
    }
  }

  /** The integral form: digits, exponent. */
  lemma IntegralDecimalChars(u: string, a: nat)
    requires 0 < a <= |u|
    requires forall i :: 0 <= i < a ==> IsDigit(u[i])
    requires IsExponentOrEmpty(u[a..])
    ensures forall i :: 0 <= i < |u| ==> IsNumericChar(u[i])
    ensures exists i :: 0 <= i < |u| && IsDigit(u[i])
  {
    var e := u[a..];
    ExponentChars(e);
    forall i | 0 <= i < |u| ensures IsNumericChar(u[i]) {
      if i >= a {
        assert u[i] == e[i - a];
      }
    }
    assert IsDigit(u[0]);
  }

  lemma SuffixOfSuffix(u: string, a: nat, b: nat)
    requires a + b <= |u|
    ensures u[a..][b..] == u[a + b..]
  {
  }

  lemma UnsignedDecimalChars(u: string)
    requires IsUnsignedDecimal(u)
    ensures forall i :: 0 <= i < |u| ==> IsNumericChar(u[i])
    ensures exists i :: 0 <= i < |u| && IsDigit(u[i])
  {
    var a := LeadingDigits(u);
    if a < |u| && u[a] == '.' {
      var v := u[a + 1..];
      var b := LeadingDigits(v);
      SuffixOfSuffix(u, a + 1, b);
      forall i | a + 1 <= i < a + 1 + b ensures IsDigit(u[i]) {
        assert u[i] == v[i - a - 1];
      }
      PointDecimalChars(u, a, b);
    } else {
      IntegralDecimalChars(u, a);
    }
  }

  /** A numeric string holds a digit, and only whitespace, signs, digits, the
      decimal point and the exponent letter; in particular no ':' or '!'. */
  lemma {:induction false} NumericChars(s: string)
    requires IsNumeric(s)
    ensures forall i :: 0 <= i < |s| ==> IsNumericChar(s[i])
    ensures exists i :: 0 <= i < |s| && IsDigit(s[i])
  {
    var k := LeadingIn(s, NumericWhitespace);
    var t := s[k..];
    var signed := |t| > 0 && (t[0] == '+' || t[0] == '-');
    var u := if signed then t[1..] else t;
    UnsignedDecimalChars(u);
    var off := if signed then k + 1 else k;
    assert u == s[off..];
    forall i | 0 <= i < |s| ensures IsNumericChar(s[i]) {
      if i >= off {
        assert s[i] == u[i - off];
      }
    }
    var j :| 0 <= j < |u| && IsDigit(u[j]);
    assert s[off + j] == u[j];
  }

  /** Every non-empty run of digits is numeric. */
  lemma DigitsAreNumeric(s: string)
    requires |s| > 0 && AllDigits(s)
    ensures IsNumeric(s)
  {
    assert LeadingIn(s, NumericWhitespace) == 0;
    assert s[0..] == s;
    var a := LeadingDigits(s);
    assert a == |s|;
    assert s[a..] == [];
  }

  // --------------------------------------------------------- substr_count

  /** substr_count($s, $c) for a one-character needle. */
  function CountChar(s: string, c: char): (n: nat)
    ensures n <= |s|
    ensures n == 0 <==> c !in s
  {
    if s == [] then 0 else (if s[0] == c then 1 else 0) + CountChar(s[1..], c)
  }

  // ----------------------------------------------------- strtolower, strtr

  /** strtolower() on one character (ASCII letters only). */
  function LowerChar(c: char): char
  {
    if 'A' <= c <= 'Z' then (c as int + 32) as char else c
  }

  /** strtolower(): lowers every character, so the length is kept. */
  function Lower(s: string): (r: string)
    ensures |r| == |s|
    ensures forall i :: 0 <= i < |s| ==> r[i] == LowerChar(s[i])
  {
    seq(|s|, i requires 0 <= i < |s| => LowerChar(s[i]))
  }

  /** strtr($s, $from, $to) with one-character `from` and `to`. */
  function Translate(s: string, from: char, to: char): (r: string)
    ensures |r| == |s|
    ensures forall i :: 0 <= i < |s| ==> r[i] == (if s[i] == from then to else s[i])
  {
    if s == [] then [] else [if s[0] == from then to else s[0]] + Translate(s[1..], from, to)
  }

  // ------------------------------------------------------ explode, implode

  /** implode($sep, $parts) (also called join). */
  function Join(sep: string, parts: seq<string>): string
  {
    if |parts| == 0 then []
    else if |parts| == 1 then parts[0]
    else parts[0] + sep + Join(sep, parts[1..])
  }

  /** `d` occurs in `t` starting at index `j`. */
  predicate OccursAt(d: string, t: string, j: int)
  {
    0 <= j && j + |d| <= |t| && t[j..j + |d|] == d
  }

  /** The first occurrence of `d` in `t` at or after index `from`. */
  function IndexFrom(d: string, t: string, from: nat): (r: Option<nat>)
    requires |d| > 0
    ensures r.Some? ==> from <= r.value && OccursAt(d, t, r.value)
    ensures r.Some? ==> forall j :: from <= j < r.value ==> !OccursAt(d, t, j)
    ensures r.None? ==> forall j :: from <= j ==> !OccursAt(d, t, j)
    decreases |t| - from
  {
    if from + |d| > |t| then None
    else if t[from..from + |d|] == d then Some(from)
    else IndexFrom(d, t, from + 1)
  }

  /** explode($d, $t) for a non-empty delimiter: the pieces between the
      left-to-right, non-overlapping occurrences of `d`. */
  function Explode(d: string, t: string): (parts: seq<string>)
    requires |d| > 0
    ensures |parts| >= 1
    decreases |t|
  {
    match IndexFrom(d, t, 0)
    case None => [t]
    case Some(i) => [t[..i]] + Explode(d, t[i + |d|..])
  }

  /** Gluing the pieces back together with the delimiter gives the original. */
  lemma {:induction false} ExplodeJoin(d: string, t: string)
    requires |d| > 0
    ensures Join(d, Explode(d, t)) == t
    decreases |t|
  {
    match IndexFrom(d, t, 0)
    case None =>
    case Some(i) =>
      var rest := Explode(d, t[i + |d|..]);
      ExplodeJoin(d, t[i + |d|..]);
      assert Explode(d, t) == [t[..i]] + rest;
      assert (([t[..i]] + rest)[1..]) == rest;
      calc {
        Join(d, Explode(d, t));
        t[..i] + d + Join(d, rest);
        t[..i] + t[i..i + |d|] + t[i + |d|..];
        t;
      }
  }

  /** No piece of an explode contains the delimiter. */
  lemma {:induction false} ExplodePiecesFree(d: string, t: string, k: nat)
    requires |d| > 0
    requires k < |Explode(d, t)|
    ensures forall j :: !OccursAt(d, Explode(d, t)[k], j)
    decreases |t|
  {
    match IndexFrom(d, t, 0)
    case None =>
    case Some(i) =>
      if k == 0 {
        forall j ensures !OccursAt(d, t[..i], j) {
          if OccursAt(d, t[..i], j) {
            assert t[..i][j..j + |d|] == t[j..j + |d|];
            assert OccursAt(d, t, j);
          }
        }
      } else {
        ExplodePiecesFree(d, t[i + |d|..], k - 1);
      }
  }

  // --------------------------------------------------------------- strval

  /** The decimal digits of `n`, most significant first, without leading zeros. */
  function DecimalDigits(n: nat): (ds: seq<nat>)
    ensures |ds| >= 1
    ensures forall i :: 0 <= i < |ds| ==> ds[i] < 10
    ensures |ds| > 1 ==> ds[0] != 0
  {
    if n < 10 then [n] else DecimalDigits(n / 10) + [n % 10]
  }

  /** The number a sequence of decimal digits denotes. */
  function DigitsValue(ds: seq<nat>): nat
  {
    if ds == [] then 0 else 10 * DigitsValue(ds[..|ds| - 1]) + ds[|ds| - 1]
  }

  /** Reading back the digits of `n` gives `n`. */
  lemma {:induction false} DecimalDigitsValue(n: nat)
    ensures DigitsValue(DecimalDigits(n)) == n
  {
    if n >= 10 {
      var ds := DecimalDigits(n);
      assert ds[..|ds| - 1] == DecimalDigits(n / 10);
      DecimalDigitsValue(n / 10);
    }
  }

  /** strval($n) for a non-negative integer. */
  function DecimalString(n: nat): (s: string)
    ensures |s| == |DecimalDigits(n)|
    ensures forall i :: 0 <= i < |s| ==> IsDigit(s[i]) && s[i] as int - '0' as int == DecimalDigits(n)[i]
  {
    var ds := DecimalDigits(n);
    seq(|ds|, i requires 0 <= i < |ds| => ('0' as int + ds[i]) as char)
  }
}
