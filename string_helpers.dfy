/** The small string helpers of lib/functions.php: title_trim, strip_newlines,
    generate_graph_def_name, clean_up_name, clean_up_file_name, stri_replace,
    sanitize_cdef and the choice rule of generate_graph_best_cf. */
module StringHelpers {
  import opened Php

  // ------------------------------------------------------------- filters

  /** The characters of `s` that satisfy `keep`, in order. */
  function Filter(s: string, keep: char -> bool): (r: string)
    ensures |r| <= |s|
    ensures forall i :: 0 <= i < |r| ==> keep(r[i])
    ensures (forall i :: 0 <= i < |s| ==> keep(s[i])) ==> r == s
  {
    if s == [] then [] else (if keep(s[0]) then [s[0]] else []) + Filter(s[1..], keep)
  }

  lemma {:induction false} FilterAppend(a: string, b: string, keep: char -> bool)
    ensures Filter(a + b, keep) == Filter(a, keep) + Filter(b, keep)
    decreases |a|
  {
    if a != [] {
      var head := if keep(a[0]) then [a[0]] else [];
      assert (a + b)[1..] == a[1..] + b;
      FilterAppend(a[1..], b, keep);
      calc {
        Filter(a + b, keep);
        head + Filter(a[1..] + b, keep);
        head + (Filter(a[1..], keep) + Filter(b, keep));
        (head + Filter(a[1..], keep)) + Filter(b, keep);
      }
    } else {
      assert a + b == b;
    }
  }

  /** A prefix of rejected characters does not show in the filter. */
  lemma {:induction false} FilterSkip(s: string, k: nat, keep: char -> bool)
    requires k <= |s|
    requires forall i :: 0 <= i < k ==> !keep(s[i])
    ensures Filter(s, keep) == Filter(s[k..], keep)
    decreases k
  {
    if k > 0 {
      FilterSkip(s[1..], k - 1, keep);
      assert s[1..][k - 1..] == s[k..];
    } else {
      assert s[0..] == s;
    }
  }

  /** Filtering twice keeps what both tests accept. */
  lemma {:induction false} FilterFilter(s: string, p: char -> bool, q: char -> bool, pq: char -> bool)
    requires forall c :: pq(c) == (p(c) && q(c))
    ensures Filter(Filter(s, p), q) == Filter(s, pq)
    decreases |s|
  {
    if s != [] {
      FilterFilter(s[1..], p, q, pq);
      var head := if p(s[0]) then [s[0]] else [];
      FilterAppend(head, Filter(s[1..], p), q);
    }
  }

  // ---------------------------------------------------------- title_trim

  /** title_trim: the first `maxLength` characters followed by "..." when the
      text is longer than `maxLength`, else the text itself. */
  function TitleTrim(text: string, maxLength: nat): (r: string)
    ensures |text| <= maxLength ==> r == text
    ensures |r| <= maxLength + 3
    ensures |text| > maxLength ==> |r| == maxLength + 3 && r[..maxLength] == text[..maxLength] && r[maxLength..] == "..."
  {
    if |text| > maxLength then text[..maxLength] + "..." else text
  }

  /** Trimming a title a second time with the same bound changes nothing. */
  lemma TitleTrimIdempotent(text: string, maxLength: nat)
    ensures TitleTrim(TitleTrim(text, maxLength), maxLength) == TitleTrim(text, maxLength)
  {
  }

  // ------------------------------------------------------ strip_newlines

  /** strip_newlines: every '\n' and '\r' becomes NUL; nothing else changes. */
  function StripNewlines(s: string): (r: string)
    ensures |r| == |s|
    ensures forall i :: 0 <= i < |s| ==> r[i] == (if s[i] == '\n' || s[i] == '\r' then '\0' else s[i])
  {
    Translate(Translate(s, '\n', '\0'), '\r', '\0')
  }

  /** The result holds no line break, and a text without one is unchanged. */
  lemma StripNewlinesRemovesBreaks(s: string)
    ensures '\n' !in StripNewlines(s) && '\r' !in StripNewlines(s)
    ensures '\n' !in s && '\r' !in s ==> StripNewlines(s) == s
  {
  }

  // --------------------------------------------- generate_graph_def_name

  /** The lookup table: digit d becomes the d-th letter. */
  const DefLetters: seq<char> := ['a', 'b', 'c', 'd', 'e', 'f', 'g', 'h', 'i', 'j']

  /** generate_graph_def_name: each decimal digit of the id becomes a letter. */
  function GraphDefName(graphItemId: nat): (r: string)
    ensures |r| == |DecimalDigits(graphItemId)|
    ensures forall i :: 0 <= i < |r| ==> 'a' <= r[i] <= 'j' && r[i] as int - 'a' as int == DecimalDigits(graphItemId)[i]
  {
    var digits := DecimalString(graphItemId);
    seq(|digits|, i requires 0 <= i < |digits| => DefLetters[digits[i] as int - '0' as int])
  }

  /** Reads a DEF name back as the number it encodes. */
  function DefNameValue(name: string): nat
    requires forall i :: 0 <= i < |name| ==> 'a' <= name[i] <= 'j'
  {
    DigitsValue(seq(|name|, i requires 0 <= i < |name| => (name[i] as int - 'a' as int) as nat))
  }

  /** A DEF name decodes to the id it was generated from. */
  lemma GraphDefNameRoundTrip(graphItemId: nat)
    ensures DefNameValue(GraphDefName(graphItemId)) == graphItemId
  {
    var name := GraphDefName(graphItemId);
    var ds := seq(|name|, i requires 0 <= i < |name| => (name[i] as int - 'a' as int) as nat);
    assert ds == DecimalDigits(graphItemId);
    DecimalDigitsValue(graphItemId);
  }

  /** Different ids never share a DEF name. */
  lemma GraphDefNameInjective(a: nat, b: nat)
    requires GraphDefName(a) == GraphDefName(b)
    ensures a == b
  {
    GraphDefNameRoundTrip(a);
    GraphDefNameRoundTrip(b);
  }

  // ------------------------------------- clean_up_name, clean_up_file_name

  /** The characters matched by `[\s\.]` (ASCII whitespace and the dot). */
  const NameSeparators: set<char> := {' ', '\t', '\n', '\U{000B}', '\U{000C}', '\r', '.'}

  predicate IsAlnum(c: char)
  {
    'a' <= c <= 'z' || 'A' <= c <= 'Z' || '0' <= c <= '9'
  }

  /** The characters a cleaned name may hold; file names may also hold '-'. */
  predicate IsNameChar(c: char, allowDash: bool)
  {
    IsAlnum(c) || c == '_' || (allowDash && c == '-')
  }

  /** First pass: every run of separators becomes one '_'. */
  function CollapseSeparators(s: string): (r: string)
    ensures forall i :: 0 <= i < |r| ==> r[i] !in NameSeparators
    decreases |s|
  {
    if s == [] then []
    else if s[0] in NameSeparators then "_" + CollapseSeparators(s[LeadingIn(s, NameSeparators)..])
    else [s[0]] + CollapseSeparators(s[1..])
  }

  /** Second pass: every character outside the allowed set is dropped. */
  function KeepNameChars(s: string, allowDash: bool): (r: string)
    ensures forall i :: 0 <= i < |r| ==> IsNameChar(r[i], allowDash)
  {
    Filter(s, c => IsNameChar(c, allowDash))
  }

  predicate NoDoubleUnderscore(s: string)
  {
    forall i :: 0 <= i < |s| - 1 ==> !(s[i] == '_' && s[i + 1] == '_')
  }

  /** Third pass: every run of '_' becomes a single '_'. */
  function SqueezeUnderscores(s: string): (r: string)
    ensures NoDoubleUnderscore(r)
    ensures forall i :: 0 <= i < |r| ==> r[i] in s
    ensures |s| > 0 ==> |r| > 0 && r[0] == s[0]
    decreases |s|
  {
    if s == [] then []
    else if s[0] == '_' then
      var k := LeadingIn(s, {'_'});
      var rest := SqueezeUnderscores(s[k..]);
      assert forall i :: 0 <= i < |rest| ==> rest[i] in s by {
        forall i | 0 <= i < |rest| ensures rest[i] in s {
          var j :| 0 <= j < |s[k..]| && s[k..][j] == rest[i];
          assert s[k + j] == rest[i];
        }
      }
      "_" + rest
    else
      var rest := SqueezeUnderscores(s[1..]);
      assert forall i :: 0 <= i < |rest| ==> rest[i] in s by {
        forall i | 0 <= i < |rest| ensures rest[i] in s {
          var j :| 0 <= j < |s[1..]| && s[1..][j] == rest[i];
          assert s[1 + j] == rest[i];
        }
      }
      [s[0]] + rest
  }

  /** The three passes of clean_up_name (allowDash false) and
      clean_up_file_name (allowDash true). */
  function Clean(s: string, allowDash: bool): (r: string)
    ensures forall i :: 0 <= i < |r| ==> IsNameChar(r[i], allowDash)
    ensures NoDoubleUnderscore(r)
  {
    var kept := KeepNameChars(CollapseSeparators(s), allowDash);
    var r := SqueezeUnderscores(kept);
    assert forall i :: 0 <= i < |r| ==> IsNameChar(r[i], allowDash) by {
      forall i | 0 <= i < |r| ensures IsNameChar(r[i], allowDash) {
        var j :| 0 <= j < |kept| && kept[j] == r[i];
      }
    }
    r
  }

  /** clean_up_name: letters, digits and single underscores only. */
  function CleanUpName(s: string): (r: string)
    ensures forall i :: 0 <= i < |r| ==> IsAlnum(r[i]) || r[i] == '_'
    ensures NoDoubleUnderscore(r)
  {
    Clean(s, false)
  }

  /** clean_up_file_name: as clean_up_name, but '-' is kept. */
  function CleanUpFileName(s: string): (r: string)
    ensures forall i :: 0 <= i < |r| ==> IsAlnum(r[i]) || r[i] == '_' || r[i] == '-'
    ensures NoDoubleUnderscore(r)
  {
    Clean(s, true)
  }

  /** A run of separators contributes nothing a `keep` test accepts, on
      either side of the first pass. */
  lemma CollapseRunStep(s: string, keep: char -> bool)
    requires s != [] && s[0] in NameSeparators
    requires !keep('_') && forall c :: c in NameSeparators ==> !keep(c)
    ensures Filter(CollapseSeparators(s), keep) ==
            Filter(CollapseSeparators(s[LeadingIn(s, NameSeparators)..]), keep)
    ensures Filter(s, keep) == Filter(s[LeadingIn(s, NameSeparators)..], keep)
  {
    var k := LeadingIn(s, NameSeparators);
    var rest := CollapseSeparators(s[k..]);
    assert CollapseSeparators(s) == "_" + rest;
    FilterSkip("_" + rest, 1, keep);
    assert ("_" + rest)[1..] == rest;
    FilterSkip(s, k, keep);
  }

  /** The first pass keeps every character that is neither a separator nor
      '_', in order. */
  lemma {:induction false} CollapseKeeps(s: string, keep: char -> bool)
    requires !keep('_') && forall c :: c in NameSeparators ==> !keep(c)
    ensures Filter(CollapseSeparators(s), keep) == Filter(s, keep)
    decreases |s|
  {
    if s != [] {
      if s[0] in NameSeparators {
        CollapseRunStep(s, keep);
        CollapseKeeps(s[LeadingIn(s, NameSeparators)..], keep);
      } else {
        CollapseKeeps(s[1..], keep);
        assert ([s[0]] + CollapseSeparators(s[1..]))[1..] == CollapseSeparators(s[1..]);
      }
    }
  }

  /** The third pass keeps every character other than '_', in order. */
  lemma {:induction false} SqueezeKeeps(s: string, keep: char -> bool)
    requires !keep('_')
    ensures Filter(SqueezeUnderscores(s), keep) == Filter(s, keep)
    decreases |s|
  {
    if s != [] {
      if s[0] == '_' {
        var k := LeadingIn(s, {'_'});
        var rest := SqueezeUnderscores(s[k..]);
        SqueezeKeeps(s[k..], keep);
        assert SqueezeUnderscores(s) == "_" + rest;
        FilterSkip("_" + rest, 1, keep);
        assert ("_" + rest)[1..] == rest;
        FilterSkip(s, k, keep);
      } else {
        SqueezeKeeps(s[1..], keep);
        assert ([s[0]] + SqueezeUnderscores(s[1..]))[1..] == SqueezeUnderscores(s[1..]);
      }
    }
  }

  /** Cleaning keeps every letter and digit of the input, in order. */
  lemma CleanKeepsAlnum(s: string, allowDash: bool)
    ensures Filter(Clean(s, allowDash), IsAlnum) == Filter(s, IsAlnum)
  {
    var collapsed := CollapseSeparators(s);
    var kept := KeepNameChars(collapsed, allowDash);
    assert Filter(SqueezeUnderscores(kept), IsAlnum) == Filter(kept, IsAlnum) by {
      SqueezeKeeps(kept, IsAlnum);
    }
    assert Filter(kept, IsAlnum) == Filter(collapsed, IsAlnum) by {
      FilterFilter(collapsed, c => IsNameChar(c, allowDash), IsAlnum, IsAlnum);
    }
    assert Filter(collapsed, IsAlnum) == Filter(s, IsAlnum) by {
      CollapseKeeps(s, IsAlnum);
    }
  }

  /** Apart from underscores, cleaning keeps exactly the allowed characters of
      the input, in order: letters and digits, and '-' in file names. */
  lemma CleanKeepsNameChars(s: string, allowDash: bool)
    ensures Filter(Clean(s, allowDash), c => c != '_') == Filter(s, c => IsNameChar(c, allowDash) && c != '_')
  {
    var notUnderscore := c => c != '_';
    var named := c => IsNameChar(c, allowDash) && c != '_';
    var collapsed := CollapseSeparators(s);
    var kept := KeepNameChars(collapsed, allowDash);
    assert Filter(SqueezeUnderscores(kept), notUnderscore) == Filter(kept, notUnderscore) by {
      SqueezeKeeps(kept, notUnderscore);
    }
    assert Filter(kept, notUnderscore) == Filter(collapsed, named) by {
      FilterFilter(collapsed, c => IsNameChar(c, allowDash), notUnderscore, named);
    }
    assert Filter(collapsed, named) == Filter(s, named) by {
      CollapseKeeps(s, named);
    }
  }

  /** Characters ahead of the first separator pass through the first pass. */
  lemma {:induction false} CollapseAfterPlain(a: string, t: string)
    requires forall i :: 0 <= i < |a| ==> a[i] !in NameSeparators
    ensures CollapseSeparators(a + t) == a + CollapseSeparators(t)
    decreases |a|
  {
    if a != [] {
      assert (a + t)[1..] == a[1..] + t;
      CollapseAfterPlain(a[1..], t);
    } else {
      assert a + t == t;
    }
  }

  /** A whole run of separators becomes one '_'. */
  lemma CollapseRun(m: string, b: string)
    requires |m| > 0 && forall i :: 0 <= i < |m| ==> m[i] in NameSeparators
    requires |b| > 0 ==> b[0] !in NameSeparators
    ensures CollapseSeparators(m + b) == "_" + CollapseSeparators(b)
  {
    var k := LeadingIn(m + b, NameSeparators);
    assert k == |m| by {
      assert forall i :: 0 <= i < |m| ==> (m + b)[i] == m[i];
      if |b| > 0 {
        assert (m + b)[|m|] == b[0];
      }
    }
    assert (m + b)[|m|..] == b;
  }

  /** The first pass turns the run between two words into one '_'. */
  lemma CollapseAroundRun(a: string, m: string, b: string)
    requires forall i :: 0 <= i < |a| ==> IsAlnum(a[i])
    requires |m| > 0 && forall i :: 0 <= i < |m| ==> m[i] in NameSeparators
    requires forall i :: 0 <= i < |b| ==> IsAlnum(b[i])
    ensures CollapseSeparators(a + m + b) == a + "_" + b
  {
    assert a + m + b == a + (m + b);
    CollapseAfterPlain(a, m + b);
    CollapseRun(m, b);
    CollapseFixedPoint(b);
  }

  /** Two words joined by one '_' are already clean. */
  lemma JoinedWordsClean(a: string, b: string, allowDash: bool)
    requires forall i :: 0 <= i < |a| ==> IsAlnum(a[i])
    requires forall i :: 0 <= i < |b| ==> IsAlnum(b[i])
    ensures forall i :: 0 <= i < |a + "_" + b| ==> IsNameChar((a + "_" + b)[i], allowDash)
    ensures NoDoubleUnderscore(a + "_" + b)
  {
    var joined := a + "_" + b;
    forall i | 0 <= i < |joined| ensures IsNameChar(joined[i], allowDash) {
      if i > |a| {
        assert joined[i] == b[i - |a| - 1];
      }
    }
    forall i | 0 <= i < |joined| - 1 ensures !(joined[i] == '_' && joined[i + 1] == '_') {
      if i < |a| {
        assert joined[i] == a[i];
      } else {
        assert joined[i + 1] == b[i - |a|];
      }
    }
  }

  /** A run of whitespace and dots between two words becomes a single '_'. */
  lemma CleanJoinsAtSeparatorRun(a: string, m: string, b: string, allowDash: bool)
    requires forall i :: 0 <= i < |a| ==> IsAlnum(a[i])
    requires |m| > 0 && forall i :: 0 <= i < |m| ==> m[i] in NameSeparators
    requires forall i :: 0 <= i < |b| ==> IsAlnum(b[i])
    ensures Clean(a + m + b, allowDash) == a + "_" + b
  {
    var joined := a + "_" + b;
    CollapseAroundRun(a, m, b);
    JoinedWordsClean(a, b, allowDash);
    assert KeepNameChars(joined, allowDash) == joined;
    SqueezeFixedPoint(joined);
  }

  lemma {:induction false} CollapseFixedPoint(s: string)
    requires forall i :: 0 <= i < |s| ==> s[i] !in NameSeparators
    ensures CollapseSeparators(s) == s
    decreases |s|
  {
    if s != [] {
      CollapseFixedPoint(s[1..]);
    }
  }

  lemma {:induction false} SqueezeFixedPoint(s: string)
    requires NoDoubleUnderscore(s)
    ensures SqueezeUnderscores(s) == s
    decreases |s|
  {
    if s != [] {
      if s[0] == '_' {
        assert LeadingIn(s, {'_'}) == 1 by {
          if |s| > 1 {
            assert s[1] != '_';
            assert LeadingIn(s[1..], {'_'}) == 0;
          }
        }
      }
      SqueezeFixedPoint(s[1..]);
    }
  }

  /** A name that is already clean is left as it is. */
  lemma CleanFixedPoint(s: string, allowDash: bool)
    requires forall i :: 0 <= i < |s| ==> IsNameChar(s[i], allowDash)
    requires NoDoubleUnderscore(s)
    ensures Clean(s, allowDash) == s
  {
    CollapseFixedPoint(s);
    SqueezeFixedPoint(s);
  }

  /** Cleaning a cleaned name changes nothing. */
  lemma CleanIdempotent(s: string, allowDash: bool)
    ensures Clean(Clean(s, allowDash), allowDash) == Clean(s, allowDash)
  {
    CleanFixedPoint(Clean(s, allowDash), allowDash);
  }

  // --------------------------------------------------------- stri_replace

  /** Where the k-th piece starts once the pieces are glued together with a
      separator of `dl` characters. */
  function Offset(parts: seq<string>, dl: nat, k: nat): nat
    requires k <= |parts|
  {
    if k == 0 then 0 else |parts[0]| + dl + Offset(parts[1..], dl, k - 1)
  }

  lemma {:induction false} OffsetStep(parts: seq<string>, dl: nat, k: nat)
    requires k < |parts|
    ensures Offset(parts, dl, k + 1) == Offset(parts, dl, k) + |parts[k]| + dl
    decreases k
  {
    if k > 0 {
      OffsetStep(parts[1..], dl, k - 1);
    }
  }

  lemma SliceOfSuffix(s: string, a: nat, b: nat, n: nat)
    requires a + b + n <= |s|
    ensures s[a..][b..b + n] == s[a + b..a + b + n]
  {
  }

  /** The k-th part of a join lies at its offset. */
  lemma {:induction false} JoinAt(sep: string, parts: seq<string>, k: nat)
    requires k < |parts|
    ensures Offset(parts, |sep|, k) + |parts[k]| <= |Join(sep, parts)|
    ensures Join(sep, parts)[Offset(parts, |sep|, k)..Offset(parts, |sep|, k) + |parts[k]|] == parts[k]
    decreases k
  {
    var j := Join(sep, parts);
    if |parts| > 1 {
      var rest := parts[1..];
      assert j == parts[0] + sep + Join(sep, rest);
      if k > 0 {
        JoinAt(sep, rest, k - 1);
        var o := Offset(rest, |sep|, k - 1);
        assert j[|parts[0]| + |sep|..] == Join(sep, rest);
        SliceOfSuffix(j, |parts[0]| + |sep|, o, |parts[k]|);
      } else {
        assert j[..|parts[0]|] == parts[0];
      }
    } else {
      assert j == parts[0];
    }
  }

  /** The pieces of `s` between the case-insensitive occurrences of `find`,
      in their original case: the stretches of `s` where the explode of the
      lower-cased text put its pieces. */
  function CaseSplit(find: string, s: string): (parts: seq<string>)
    requires |find| > 0
    ensures |parts| == |Explode(Lower(find), Lower(s))|
  {
    var e := Explode(Lower(find), Lower(s));
    ExplodeJoin(Lower(find), Lower(s));
    seq(|e|, k requires 0 <= k < |e| =>
      JoinAt(Lower(find), e, k);
      s[Offset(e, |find|, k)..Offset(e, |find|, k) + |e[k]|])
  }

  /** The k-th piece lies in `s` where the k-th piece of the explode of the
      lower-cased text lies in that text. */
  lemma CaseSplitAt(find: string, s: string, k: nat)
    requires |find| > 0
    requires k < |Explode(Lower(find), Lower(s))|
    ensures var e := Explode(Lower(find), Lower(s));
      var o := Offset(e, |find|, k);
      o + |e[k]| <= |s| && Lower(s)[o..o + |e[k]|] == e[k] && CaseSplit(find, s)[k] == s[o..o + |e[k]|]
  {
    var e := Explode(Lower(find), Lower(s));
    var o := Offset(e, |find|, k);
    assert o + |e[k]| <= |s| && Lower(s)[o..o + |e[k]|] == e[k] by {
      ExplodeJoin(Lower(find), Lower(s));
      JoinAt(Lower(find), e, k);
    }
    ghost var c := CaseSplit(find, s);
    assert c[k] == s[o..o + |e[k]|];
  }

  /** Each piece, lower-cased, is the matching piece of the explode of the
      lower-cased text. */
  lemma CaseSplitLowers(find: string, s: string, k: nat)
    requires |find| > 0
    requires k < |CaseSplit(find, s)|
    ensures Lower(CaseSplit(find, s)[k]) == Explode(Lower(find), Lower(s))[k]
  {
    var e := Explode(Lower(find), Lower(s));
    var o := Offset(e, |find|, k);
    var n := |e[k]|;
    CaseSplitAt(find, s, k);
    assert Lower(s[o..o + n]) == Lower(s)[o..o + n];
  }

  /** So no piece holds `find` in any case. */
  lemma CaseSplitPieces(find: string, s: string, k: nat)
    requires |find| > 0
    requires k < |CaseSplit(find, s)|
    ensures forall j :: !OccursAt(Lower(find), Lower(CaseSplit(find, s)[k]), j)
  {
    CaseSplitLowers(find, s, k);
    ExplodePiecesFree(Lower(find), Lower(s), k);
  }

  /** Without a case-insensitive occurrence of `find`, the split is `s` alone. */
  lemma CaseSplitWithoutMatch(find: string, s: string)
    requires |find| > 0
    requires forall j :: !OccursAt(Lower(find), Lower(s), j)
    ensures CaseSplit(find, s) == [s]
  {
    var e := Explode(Lower(find), Lower(s));
    assert e == [Lower(s)];
    var c := CaseSplit(find, s);
    assert Offset(e, |find|, 0) == 0;
    assert c[0] == s[0..|s|] == s;
  }

  /** stri_replace: `find` is searched for in the lower-cased text; the pieces
      between matches are cut from the original text and glued together with
      `replace`. */
  method StriReplace(find: string, replace: string, s: string) returns (r: string)
    requires |find| > 0
    ensures r == Join(replace, CaseSplit(find, s))
  {
    var lowerFind := Lower(find);
    var parts := Explode(lowerFind, Lower(s));
    ghost var pieces := parts;
    ghost var target := CaseSplit(find, s);
    var pos := 0;
    var k := 0;
    while k < |parts|
      invariant 0 <= k <= |parts| == |pieces| == |target|
      invariant forall j :: 0 <= j < k ==> parts[j] == target[j]
      invariant forall j :: k <= j < |parts| ==> parts[j] == pieces[j]
      invariant pos == Offset(pieces, |find|, k)
    {
      var part := parts[k];
      CaseSplitAt(find, s, k);
      parts := parts[k := s[pos..pos + |part|]];
      OffsetStep(pieces, |find|, k);
      pos := pos + |part| + |find|;
      k := k + 1;
    }
    assert parts == target;
    r := Join(replace, parts);
  }

  // -------------------------------------------------------- sanitize_cdef

  /** The characters sanitize_cdef removes, in the order it removes them. */
  const CdefDropChars: seq<char> := ['^', '$', '<', '>', '`', '\'', '"', '|', '[', ']', '{', '}', ';', '!']

  /** str_replace with a list of one-character needles and empty replacements:
      each needle in turn is removed from the whole string. */
  function RemoveEach(s: string, needles: seq<char>): string
    decreases |needles|
  {
    if needles == [] then s else RemoveEach(Filter(s, c => c != needles[0]), needles[1..])
  }

  lemma {:induction false} RemoveEachIsFilter(s: string, needles: seq<char>)
    ensures RemoveEach(s, needles) == Filter(s, c => c !in needles)
    decreases |needles|
  {
    if needles == [] {
      assert Filter(s, c => c !in needles) == s;
    } else {
      var n := needles[0];
      RemoveEachIsFilter(Filter(s, c => c != n), needles[1..]);
      FilterFilter(s, c => c != n, c => c !in needles[1..], c => c !in needles);
    }
  }

  /** sanitize_cdef: drops every character of CdefDropChars. */
  function SanitizeCdef(cdef: string): (r: string)
    ensures r == Filter(cdef, c => c !in CdefDropChars)
  {
    RemoveEachIsFilter(cdef, CdefDropChars);
    RemoveEach(cdef, CdefDropChars)
  }

  /** A sanitized CDEF holds no dropped character, and sanitizing it again
      changes nothing. */
  lemma SanitizeCdefIdempotent(cdef: string)
    ensures forall i :: 0 <= i < |SanitizeCdef(cdef)| ==> SanitizeCdef(cdef)[i] !in CdefDropChars
    ensures SanitizeCdef(SanitizeCdef(cdef)) == SanitizeCdef(cdef)
  {
  }

  // ---------------------------------------------- generate_graph_best_cf

  /** The consolidation function generate_graph_best_cf falls back to (AVERAGE). */
  const DefaultCf: int := 1

  /** The choice rule of generate_graph_best_cf, with the CFs stored in the
      data source's RRD file given as `availCfs`: the requested CF when the
      file holds it, else the file's first CF, else AVERAGE. */
  method GenerateGraphBestCf(localDataId: int, availCfs: seq<int>, requestedCf: int) returns (cf: int)
    ensures localDataId > 0 && requestedCf in availCfs ==> cf == requestedCf
    ensures localDataId > 0 && |availCfs| > 0 && requestedCf !in availCfs ==> cf == availCfs[0]
    ensures localDataId <= 0 || |availCfs| == 0 ==> cf == DefaultCf
  {
    if localDataId > 0 {
      if |availCfs| > 0 {
        for i := 0 to |availCfs|
          invariant requestedCf !in availCfs[..i]
        {
          if availCfs[i] == requestedCf {
            return requestedCf;
          }
        }
        assert availCfs[..|availCfs|] == availCfs;
        return availCfs[0];
      }
    }
    return DefaultCf;
  }
}
