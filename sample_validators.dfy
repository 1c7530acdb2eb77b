/** The validators the poller applies to raw samples (lib/functions.php):
    is_hexadecimal, strip_quotes and validate_result. */
module SampleValidators {
  import opened Php

  predicate IsHexDigit(c: char)
  {
    '0' <= c <= '9' || 'a' <= c <= 'f' || 'A' <= c <= 'F'
  }

  /** preg_match('/[a-fA-F0-9]/', $part): the match is unanchored, so one hex
      digit anywhere in the chunk is enough. */
  predicate HasHexDigit(part: string)
  {
    exists j :: 0 <= j < |part| && IsHexDigit(part[j])
  }

  /** The strings is_hexadecimal accepts once trimmed: chunks of two characters
      (the last one may be a single character), each holding a hex digit, with
      one ':' after every chunk but the last. The empty string is accepted. */
  predicate HexGroups(t: string)
    decreases |t|
  {
    if |t| == 0 then true
    else if |t| <= 2 then HasHexDigit(t)
    else HasHexDigit(t[..2]) && t[2] == ':' && |t| > 3 && HexGroups(t[3..])
  }

  /** In an accepted string the indices 2, 5, 8, ... hold ':', and a non-empty
      accepted string never has a length that is a multiple of 3. */
  lemma {:induction false} HexGroupsLayout(t: string)
    requires HexGroups(t)
    ensures forall i :: 0 <= i < |t| && i % 3 == 2 ==> t[i] == ':'
    ensures |t| % 3 != 0 || |t| == 0
    decreases |t|
  {
    if |t| > 2 {
      HexGroupsLayout(t[3..]);
      forall i | 0 <= i < |t| && i % 3 == 2 ensures t[i] == ':' {
        if i > 2 {
          assert t[i] == t[3..][i - 3];
        }
      }
    }
  }

  /** An empty or all-blank sample counts as hexadecimal. */
  lemma BlankIsHexadecimal(s: string)
    requires forall i :: 0 <= i < |s| ==> s[i] in TrimChars
    ensures HexGroups(Trim(s))
  {
  }

  /** Pairs of hex digits joined by ':' (the last group may hold one digit) are
      accepted, e.g. "AB:CD:EF" and "AB:CD:E". */
  lemma {:induction false} JoinedHexPairsAccepted(groups: seq<string>)
    requires |groups| > 0
    requires forall k :: 0 <= k < |groups| - 1 ==> |groups[k]| == 2
    requires 1 <= |groups[|groups| - 1]| <= 2
    requires forall k, i :: 0 <= k < |groups| && 0 <= i < |groups[k]| ==> IsHexDigit(groups[k][i])
    ensures HexGroups(Join(":", groups))
    decreases |groups|
  {
    var g := groups[0];
    assert IsHexDigit(g[0]);
    if |groups| > 1 {
      var rest := groups[1..];
      JoinedHexPairsAccepted(rest);
      var t := Join(":", groups);
      assert t == g + ":" + Join(":", rest);
      assert |Join(":", rest)| >= 1 by {
        if |rest| > 1 {
          assert Join(":", rest) == rest[0] + ":" + Join(":", rest[1..]);
        }
      }
      assert t[..2] == g;
      assert t[3..] == Join(":", rest);
    }
  }

  /** is_hexadecimal: scans the trimmed string two characters at a time. */
  method IsHexadecimal(hexstr: string) returns (b: bool)
    ensures b == HexGroups(Trim(hexstr))
  {
    var t := Trim(hexstr);
    var i := 0;
    var length := |t|;
    while i < length
      invariant 0 <= i
      invariant i <= length ==> HexGroups(t[i..]) == HexGroups(t)
      invariant i > length ==> HexGroups(t)
      decreases length - i
    {
      var part := t[i..if i + 2 <= length then i + 2 else length];
      ghost var rest := t[i..];
      i := i + 2;
      if !HasHexDigit(part) {
        assert |rest| <= 2 ==> part == rest;
        assert |rest| > 2 ==> part == rest[..2];
        return false;
      } else if i < length {
        assert part == rest[..2] && rest[2] == t[i];
        if t[i] != ':' {
          return false;
        } else if i + 1 == length {
          return false;
        }
        assert rest[3..] == t[i + 1..];
        i := i + 1;
      } else {
        assert part == rest;
        i := i + 1;
      }
    }
    assert t[length..] == [];
    return true;
  }

  /** Quotes that strip_quotes trims from both ends. */
  const Quotes: set<char> := {'\'', '"'}

  predicate IsDigitOrU(c: char)
  {
    '0' <= c <= '9' || c == 'U'
  }

  /** The sample with whitespace, then quotes, trimmed from both ends. */
  function Unquoted(s: string): string
  {
    TrimSet(Trim(s), Quotes)
  }

  /** Values strip_quotes leaves alone: numeric, hexadecimal, or the marker "U". */
  predicate KeptWhole(t: string)
  {
    IsNumeric(t) || HexGroups(Trim(t)) || t == "U"
  }

  /** `t` holds a digit or the marker 'U' somewhere. */
  predicate HasMarker(t: string)
  {
    exists j :: 0 <= j < |t| && IsDigitOrU(t[j])
  }

  /** `r` is `t` cut right after its last digit or 'U'; `t` itself when it
      holds none. */
  predicate CutAtLastMarker(t: string, r: string)
  {
    r <= t &&
    (HasMarker(t) ==> |r| > 0 && IsDigitOrU(r[|r| - 1]) &&
                      forall j :: |r| <= j < |t| ==> !IsDigitOrU(t[j])) &&
    (!HasMarker(t) ==> r == t)
  }

  /** The backwards scan of strip_quotes for the last digit or 'U'. */
  method CutTail(t: string) returns (r: string)
    ensures CutAtLastMarker(t, r)
  {
    r := t;
    var len := |t|;
    var a := len - 1;
    while a >= 0
      invariant -1 <= a < len
      invariant forall j :: a < j < len ==> !IsDigitOrU(t[j])
    {
      if IsDigitOrU(t[a]) {
        r := t[..a + 1];
        return;
      }
      a := a - 1;
    }
  }

  /** strip_quotes: trims whitespace and quotes, then, unless the value is
      numeric, hexadecimal or "U", cuts it back to its last digit or 'U'. */
  method StripQuotes(result: string) returns (r: string)
    ensures KeptWhole(Unquoted(result)) ==> r == Unquoted(result)
    ensures !KeptWhole(Unquoted(result)) ==> CutAtLastMarker(Unquoted(result), r)
  {
    var t := TrimSet(Trim(result), Quotes);
    var hex := IsHexadecimal(t);
    if !IsNumeric(t) && !hex && t != "U" {
      r := CutTail(t);
    } else {
      r := t;
    }
  }

  /** validate_result's verdict and the value it leaves: the case table. A
      sample with no ':', '!' or space must be numeric and is otherwise replaced
      by "U"; one with a delimiter and no space is valid; one with a delimiter
      and spaces is valid when the spaces are one fewer than the delimiters
      (':' counted if present, '!' otherwise); one with spaces only must be
      numeric. */
  function Classify(s: string): (bool, string)
  {
    if ':' !in s && '!' !in s && ' ' !in s then
      if IsNumeric(s) then (true, s) else (false, "U")
    else if ':' in s || '!' in s then
      if ' ' !in s then (true, s)
      else (CountChar(s, ' ') + 1 == (if ':' in s then CountChar(s, ':') else CountChar(s, '!')), s)
    else (IsNumeric(s), s)
  }

  /** validate_result: `result'` is the by-reference sample after the call. */
  method ValidateResult(result: string) returns (valid: bool, result': string)
    ensures (valid, result') == Classify(result)
  {
    result' := result;
    var delimCnt := 0;
    var spaceCnt := 0;
    valid := false;
    var checked := false;

    if CountChar(result', ':') == 0 && CountChar(result', '!') == 0 && CountChar(result', ' ') == 0 {
      checked := true;
      if IsNumeric(result') {
        valid := true;
      } else {
        valid := false;
        result' := "U";
      }
    }
    if !checked {
      if CountChar(result', ':') != 0 || CountChar(result', '!') != 0 {
        if CountChar(result', ' ') == 0 {
          valid := true;
          checked := true;
        }
        if CountChar(result', ' ') != 0 {
          checked := true;
          if CountChar(result', ':') != 0 {
            delimCnt := CountChar(result', ':');
          } else if '!' in result' {
            delimCnt := CountChar(result', '!');
          }
          spaceCnt := CountChar(result', ' ');
          valid := spaceCnt + 1 == delimCnt;
        }
      }
    }
    if !checked {
      valid := IsNumeric(result');
    }
  }

  /** The only rewrite validate_result makes is to the marker "U", and only
      of an invalid sample. */
  lemma ClassifyRewritesOnlyToU(s: string)
    ensures Classify(s).1 != s ==> Classify(s) == (false, "U")
  {
  }

  /** Validating the value validate_result leaves changes nothing further. */
  lemma ClassifyIdempotent(s: string)
    ensures Classify(Classify(s).1) == Classify(s)
  {
    if Classify(s).1 != s {
      assert !IsNumeric("U") by {
        assert LeadingIn("U", NumericWhitespace) == 0;
        assert "U"[0..] == "U";
        assert LeadingDigits("U") == 0;
      }
    }
  }

  /** A numeric sample is always valid and kept as it is. */
  lemma NumericSampleIsValid(s: string)
    requires IsNumeric(s)
    ensures Classify(s) == (true, s)
  {
    NumericChars(s);
    NoDelimiterAmongNumericChars(s);
  }

  /** A non-empty sample of decimal digits only is valid and kept as it is. */
  lemma DigitSampleIsValid(s: string)
    requires |s| > 0 && AllDigits(s)
    ensures Classify(s) == (true, s)
  {
    DigitsAreNumeric(s);
    NumericSampleIsValid(s);
  }

  lemma NoDelimiterAmongNumericChars(s: string)
    requires forall i :: 0 <= i < |s| ==> IsNumericChar(s[i])
    ensures ':' !in s && '!' !in s
  {
    assert !IsNumericChar(':') && !IsNumericChar('!');
  }

  /** A sample with no delimiter, no space and no digit is rewritten to "U". */
  lemma DigitlessSampleBecomesU(s: string)
    requires ':' !in s && '!' !in s && ' ' !in s
    requires forall i :: 0 <= i < |s| ==> !IsDigit(s[i])
    ensures Classify(s) == (false, "U")
  {
    if IsNumeric(s) {
      NumericChars(s);
    }
  }
}
