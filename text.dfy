/**
 * The Python `str` operations the crawler, the classifiers and the query helpers rely on:
 * `lower`, `isupper`, `title`, `strip`, `split`, `join`, slicing, `in`, `int(...)`,
 * `str(int)` and `re.findall(r'\w+', ...)`.
 *
 * Character classes follow Python's Unicode tables restricted to Latin-1 (U+0000..U+00FF),
 * which covers the Spanish text the system handles.
 */
module Text {
  import opened Wrappers

  // ---------------------------------------------------------------------------------------
  // Character classes
  // ---------------------------------------------------------------------------------------

  predicate IsAsciiDigit(c: char) { '0' <= c <= '9' }

  /** `c.isupper()` within Latin-1. */
  predicate IsUpperChar(c: char) { 'A' <= c <= 'Z' || ('À' <= c <= 'Þ' && c != '×') }

  /** `c.islower()` within Latin-1 (ª, µ and º are lower-case letters for Python). */
  predicate IsLowerChar(c: char)
  {
    'a' <= c <= 'z' || ('ß' <= c <= 'ÿ' && c != '÷') || c == 'ª' || c == 'µ' || c == 'º'
  }

  predicate IsCasedChar(c: char) { IsUpperChar(c) || IsLowerChar(c) }

  /** `c.isspace()` within Latin-1. */
  predicate IsSpace(c: char)
  {
    var n := c as int;
    (9 <= n <= 13) || (0x1c <= n <= 0x1f) || n == 0x20 || n == 0x85 || n == 0xa0
  }

  /** Membership in the regular-expression class `\w` (letters, digits, `_`) within Latin-1. */
  predicate IsWordChar(c: char)
  {
    IsAsciiDigit(c) || IsCasedChar(c) || c == '_'
    || c == '²' || c == '³' || c == '¹' || ('¼' <= c <= '¾')
  }

  function LowerChar(c: char): (r: char)
    ensures !IsUpperChar(r)
    ensures IsUpperChar(c) ==> IsLowerChar(r)
    ensures !IsUpperChar(c) ==> r == c
  {
    if IsUpperChar(c) then (c as int + 32) as char else c
  }

  function UpperChar(c: char): (r: char)
    ensures IsLowerChar(c) && c != 'ß' && c != 'ÿ' && c != 'ª' && c != 'µ' && c != 'º' ==> IsUpperChar(r)
    ensures !IsLowerChar(c) ==> r == c
  {
    if 'a' <= c <= 'z' || ('à' <= c <= 'þ' && c != '÷') then (c as int - 32) as char else c
  }

  // ---------------------------------------------------------------------------------------
  // Case mapping
  // ---------------------------------------------------------------------------------------

  /** `s.lower()`. */
  function Lower(s: string): (r: string)
    ensures |r| == |s|
    ensures forall i :: 0 <= i < |s| ==> r[i] == LowerChar(s[i])
  {
    seq(|s|, i requires 0 <= i < |s| => LowerChar(s[i]))
  }

  lemma LowerAppend(a: string, b: string)
    ensures Lower(a + b) == Lower(a) + Lower(b)
  {
  }

  lemma LowerSlice(s: string, i: int, j: int)
    requires 0 <= i <= j <= |s|
    ensures Lower(s[i..j]) == Lower(s)[i..j]
  {
  }

  /** `s.isupper()`: at least one upper-case letter and no lower-case one; `lower()` changes such a text. */
  function PyIsUpper(s: string): (r: bool)
    ensures r ==> Lower(s) != s
  {
    LoweringChangesUpper(s);
    (exists i | 0 <= i < |s| :: IsUpperChar(s[i])) && forall i | 0 <= i < |s| :: !IsLowerChar(s[i])
  }

  /**
   * A text with a lower-case letter is never upper-case; for any other text, being upper-case
   * is the same as being changed by `lower()`.
   */
  lemma PyIsUpperIsLowering(s: string)
    ensures (exists i | 0 <= i < |s| :: IsLowerChar(s[i])) ==> !PyIsUpper(s)
    ensures (forall i | 0 <= i < |s| :: !IsLowerChar(s[i])) ==> (PyIsUpper(s) <==> Lower(s) != s)
  {
    LoweringChangesUpper(s);
  }

  /** `lower()` changes a text exactly when the text holds an upper-case letter. */
  lemma LoweringChangesUpper(s: string)
    ensures (exists i | 0 <= i < |s| :: IsUpperChar(s[i])) <==> Lower(s) != s
  {
    if Lower(s) != s {
      var i :| 0 <= i < |s| && Lower(s)[i] != s[i];
      assert IsUpperChar(s[i]);
    }
    if exists i | 0 <= i < |s| :: IsUpperChar(s[i]) {
      var i :| 0 <= i < |s| && IsUpperChar(s[i]);
      assert Lower(s)[i] != s[i];
    }
  }

  /**
   * `s.title()`: the first character is raised, and after it each character is lowered when
   * it follows a cased letter and raised otherwise.
   */
  function TitleCase(s: string): (r: string)
    ensures |r| == |s|
    ensures |s| > 0 ==> r[0] == UpperChar(s[0])
    ensures forall i | 0 < i < |s| :: r[i] == if IsCasedChar(s[i - 1]) then LowerChar(s[i]) else UpperChar(s[i])
  {
    TitleFrom(s, false)
  }

  function TitleFrom(s: string, previousCased: bool): (r: string)
    ensures |r| == |s|
    ensures |s| > 0 ==> r[0] == if previousCased then LowerChar(s[0]) else UpperChar(s[0])
    ensures forall i | 0 < i < |s| :: r[i] == if IsCasedChar(s[i - 1]) then LowerChar(s[i]) else UpperChar(s[i])
    decreases |s|
  {
    if |s| == 0 then ""
    else
      var rest := TitleFrom(s[1..], IsCasedChar(s[0]));
      var r := [if previousCased then LowerChar(s[0]) else UpperChar(s[0])] + rest;
      assert forall i | 0 < i < |s| :: r[i] == rest[i - 1] && s[1..][i - 1] == s[i];
      r
  }

  // ---------------------------------------------------------------------------------------
  // Substrings, prefixes, slicing
  // ---------------------------------------------------------------------------------------

  /** `pat` occurs in `text` starting at position `i`. */
  predicate OccursAt(text: string, pat: string, i: int)
  {
    0 <= i <= |text| - |pat| && text[i..i + |pat|] == pat
  }

  /** Python's `pat in text` on strings. */
  predicate Contains(text: string, pat: string)
  {
    exists i | 0 <= i <= |text| :: OccursAt(text, pat, i)
  }

  /** A substring found in `mid` is still found once text is added on either side. */
  lemma ContainsExtend(pre: string, mid: string, post: string, pat: string)
    requires Contains(mid, pat)
    ensures Contains(pre + mid + post, pat)
  {
    var i :| 0 <= i <= |mid| && OccursAt(mid, pat, i);
    var whole := pre + mid + post;
    assert whole[|pre| + i..|pre| + i + |pat|] == mid[i..i + |pat|];
    assert OccursAt(whole, pat, |pre| + i);
  }

  /** A substring of a substring of `text` is a substring of `text`. */
  lemma ContainsTransitive(text: string, mid: string, pat: string)
    requires Contains(text, mid) && Contains(mid, pat)
    ensures Contains(text, pat)
  {
    var i :| 0 <= i <= |text| && OccursAt(text, mid, i);
    var j :| 0 <= j <= |mid| && OccursAt(mid, pat, j);
    assert mid == text[i..i + |mid|];
    assert forall k | 0 <= k < |pat| :: text[i + j + k] == mid[j + k] == pat[k];
    assert text[i + j..i + j + |pat|] == pat;
    assert OccursAt(text, pat, i + j);
  }

  /** A string ends with, and so contains, its last part. */
  lemma ContainsEnd(pre: string, pat: string)
    ensures Contains(pre + pat, pat)
  {
    assert (pre + pat)[|pre|..|pre| + |pat|] == pat;
    assert OccursAt(pre + pat, pat, |pre|);
  }

  /** Text added at the end keeps every substring. */
  lemma ContainsAppend(text: string, post: string, pat: string)
    requires Contains(text, pat)
    ensures Contains(text + post, pat)
  {
    var i :| 0 <= i <= |text| && OccursAt(text, pat, i);
    assert (text + post)[i..i + |pat|] == text[i..i + |pat|];
    assert OccursAt(text + post, pat, i);
  }

  /** Every string contains its own prefixes. */
  lemma ContainsPrefix(text: string, n: nat)
    requires n <= |text|
    ensures Contains(text, text[..n])
  {
    assert OccursAt(text, text[..n], 0);
  }

  predicate StartsWith(s: string, p: string) { |p| <= |s| && s[..|p|] == p }

  predicate EndsWith(s: string, p: string) { |p| <= |s| && s[|s| - |p|..] == p }

  /** Python's `s[:n]` for `n >= 0`. */
  function Take(s: string, n: nat): (r: string)
    ensures |r| == if |s| <= n then |s| else n
    ensures r == s[..|r|]
  {
    if |s| <= n then s else s[..n]
  }

  /** `s.replace(c, "")` for a single character. */
  function RemoveChar(s: string, c: char): (r: string)
    ensures c !in r
    ensures |r| <= |s|
    ensures c !in s ==> r == s
  {
    if |s| == 0 then ""
    else if s[0] == c then RemoveChar(s[1..], c)
    else [s[0]] + RemoveChar(s[1..], c)
  }

  /** Removing a character from two texts one after the other. */
  lemma {:induction false} RemoveCharAppend(a: string, b: string, c: char)
    ensures RemoveChar(a + b, c) == RemoveChar(a, c) + RemoveChar(b, c)
    decreases |a|
  {
    if |a| > 0 {
      assert (a + b)[1..] == a[1..] + b;
      RemoveCharAppend(a[1..], b, c);
    } else {
      assert a + b == b;
    }
  }

  /** A text made only of the character is removed entirely. */
  lemma {:induction false} RemoveCharAll(s: string, c: char)
    requires forall i | 0 <= i < |s| :: s[i] == c
    ensures RemoveChar(s, c) == ""
    decreases |s|
  {
    if |s| > 0 {
      RemoveCharAll(s[1..], c);
    }
  }

  /** Position of the first occurrence of `pat` in `s` (Python's `s.find(pat)`, -1 as None). */
  function FindFrom(s: string, pat: string, from: nat): (r: Option<nat>)
    requires from <= |s|
    ensures r.Some? ==> from <= r.value && OccursAt(s, pat, r.value)
    ensures r.Some? ==> forall k | from <= k < r.value :: !OccursAt(s, pat, k)
    ensures r.None? ==> forall k | from <= k :: !OccursAt(s, pat, k)
    decreases |s| - from
  {
    if |s| - from < |pat| then None
    else if s[from..from + |pat|] == pat then Some(from)
    else FindFrom(s, pat, from + 1)
  }

  function Find(s: string, pat: string): (r: Option<nat>)
    ensures r.Some? <==> Contains(s, pat)
    ensures r.Some? ==> OccursAt(s, pat, r.value)
    ensures r.Some? ==> forall k | 0 <= k < r.value :: !OccursAt(s, pat, k)
  {
    FindFrom(s, pat, 0)
  }

  /** The text before the first `c` (all of `s` when there is none): `s.split(c)[0]`. */
  function TakeUntil(s: string, c: char): (r: string)
    ensures c !in r
    ensures StartsWith(s, r)
    ensures |r| < |s| ==> s[|r|] == c
    decreases |s|
  {
    if |s| == 0 || s[0] == c then "" else [s[0]] + TakeUntil(s[1..], c)
  }

  /** The text before the first `c` stops at that `c`, whatever follows. */
  lemma {:induction false} TakeUntilBefore(a: string, c: char, rest: string)
    requires c !in a
    ensures TakeUntil(a + [c] + rest, c) == a
    decreases |a|
  {
    if |a| > 0 {
      assert (a + [c] + rest)[1..] == a[1..] + [c] + rest;
      TakeUntilBefore(a[1..], c, rest);
    }
  }

  // ---------------------------------------------------------------------------------------
  // strip / split / join
  // ---------------------------------------------------------------------------------------

  /** `s.lstrip()`: the result is a suffix that does not start with white space. */
  function StripLeft(s: string): (r: string)
    ensures |r| <= |s| && r == s[|s| - |r|..]
    ensures |r| > 0 ==> !IsSpace(r[0])
    decreases |s|
  {
    if |s| > 0 && IsSpace(s[0]) then StripLeft(s[1..]) else s
  }

  /** `s.rstrip()`: the result is a prefix that does not end with white space. */
  function StripRight(s: string): (r: string)
    ensures |r| <= |s| && r == s[..|r|]
    ensures |r| > 0 ==> !IsSpace(r[|r| - 1])
    decreases |s|
  {
    if |s| > 0 && IsSpace(s[|s| - 1]) then StripRight(s[..|s| - 1]) else s
  }

  /** `s.strip()`: no white space at either end (`StripRemovesOnlySpace` says what was cut). */
  function Strip(s: string): (r: string)
    ensures |r| <= |s|
    ensures |r| > 0 ==> !IsSpace(r[0]) && !IsSpace(r[|r| - 1])
  {
    StripRight(StripLeft(s))
  }

  /** `lstrip` removes white space only. */
  lemma {:induction false} StripLeftRemovesSpace(s: string)
    ensures AllSpace(s[..|s| - |StripLeft(s)|])
    decreases |s|
  {
    if |s| > 0 && IsSpace(s[0]) {
      StripLeftRemovesSpace(s[1..]);
      assert s[..|s| - |StripLeft(s)|] == [s[0]] + s[1..][..|s| - 1 - |StripLeft(s[1..])|];
    }
  }

  /** `rstrip` removes white space only. */
  lemma {:induction false} StripRightRemovesSpace(s: string)
    ensures AllSpace(s[|StripRight(s)|..])
    decreases |s|
  {
    if |s| > 0 && IsSpace(s[|s| - 1]) {
      var init := s[..|s| - 1];
      StripRightRemovesSpace(init);
      assert s[|StripRight(s)|..] == init[|StripRight(init)|..] + [s[|s| - 1]];
    }
  }

  /** `strip` returns a slice of `s` and removes white space only, at both ends. */
  lemma StripRemovesOnlySpace(s: string)
    ensures exists i, j | 0 <= i <= j <= |s| :: Strip(s) == s[i..j] && AllSpace(s[..i]) && AllSpace(s[j..])
  {
    var l := StripLeft(s);
    var r := StripRight(l);
    var i := |s| - |l|;
    StripLeftRemovesSpace(s);
    StripRightRemovesSpace(l);
    assert l == s[i..];
    assert r == l[..|r|];
    assert s[i + |r|..] == l[|r|..];
    assert Strip(s) == s[i..i + |r|];
  }

  /** Every character of `t` is white space. */
  predicate AllSpace(t: string)
  {
    forall k | 0 <= k < |t| :: IsSpace(t[k])
  }

  /** Stripping a string without white space at its ends changes nothing. */
  lemma StripNoSpace(s: string)
    requires |s| > 0 ==> !IsSpace(s[0]) && !IsSpace(s[|s| - 1])
    ensures Strip(s) == s
  {
    assert StripLeft(s) == s;
  }

  /** `s.split(sep)` for a one-character separator: the pieces between separators, kept when empty. */
  function Split(s: string, sep: char): (parts: seq<string>)
    ensures |parts| >= 1
    ensures forall k | 0 <= k < |parts| :: sep !in parts[k]
    decreases |s|
  {
    if |s| == 0 then [""]
    else
      var rest := Split(s[1..], sep);
      if s[0] == sep then [""] + rest
      else [[s[0]] + rest[0]] + rest[1..]
  }

  /** `sep.join(parts)`. */
  function Join(sep: string, parts: seq<string>): (r: string)
    decreases |parts|
  {
    if |parts| == 0 then ""
    else if |parts| == 1 then parts[0]
    else parts[0] + sep + Join(sep, parts[1..])
  }

  lemma {:induction false} JoinSplit(s: string, sep: char)
    ensures Join([sep], Split(s, sep)) == s
    decreases |s|
  {
    if |s| > 0 {
      var rest := Split(s[1..], sep);
      JoinSplit(s[1..], sep);
      if s[0] == sep {
        assert Split(s, sep) == [""] + rest;
      } else {
        assert Split(s, sep) == [[s[0]] + rest[0]] + rest[1..];
        if |rest| > 1 {
          assert Join([sep], rest) == rest[0] + [sep] + Join([sep], rest[1..]);
        }
      }
    }
  }

  /** Splitting a join of separator-free pieces gives the pieces back. */
  lemma {:induction false} SplitJoin(parts: seq<string>, sep: char)
    requires |parts| >= 1
    requires forall k | 0 <= k < |parts| :: sep !in parts[k]
    ensures Split(Join([sep], parts), sep) == parts
    decreases |parts|, |parts[0]|
  {
    var p := parts[0];
    if |parts| == 1 {
      SplitPiece(p, sep);
    } else {
      var tail := Join([sep], parts[1..]);
      if |p| == 0 {
        SplitJoin(parts[1..], sep);
        assert Join([sep], parts) == [sep] + tail;
        SplitAfterSep(tail, sep);
        assert [""] + parts[1..] == parts;
      } else {
        var shorter := [p[1..]] + parts[1..];
        assert shorter[1..] == parts[1..];
        var js := Join([sep], shorter);
        assert js == p[1..] + [sep] + tail;
        assert Split(js, sep) == shorter by {
          assert forall k | 0 < k < |shorter| :: shorter[k] == parts[k];
          assert p[0] in p;
          SplitJoin(shorter, sep);
        }
        assert Join([sep], parts) == [p[0]] + js;
        assert p[0] != sep by { assert p[0] in p; }
        SplitAfterChar(p[0], js, sep);
        assert [p[0]] + p[1..] == p;
        assert [[p[0]] + shorter[0]] + shorter[1..] == parts;
      }
    }
  }

  /** A leading separator splits off an empty piece. */
  lemma SplitAfterSep(t: string, sep: char)
    ensures Split([sep] + t, sep) == [""] + Split(t, sep)
  {
    assert ([sep] + t)[1..] == t;
  }

  /** A leading character other than the separator joins the first piece of the rest. */
  lemma SplitAfterChar(c: char, t: string, sep: char)
    requires c != sep
    ensures Split([c] + t, sep) == [[c] + Split(t, sep)[0]] + Split(t, sep)[1..]
  {
    assert ([c] + t)[1..] == t;
  }

  /** Each part of a join occurs in the joined text. */
  lemma {:induction false} JoinContainsParts(sep: string, parts: seq<string>, k: int)
    requires 0 <= k < |parts|
    ensures Contains(Join(sep, parts), parts[k])
    decreases |parts|
  {
    if |parts| == 1 || k == 0 {
      ContainsPrefix(parts[k], |parts[k]|);
      assert parts[k][..|parts[k]|] == parts[k];
      var rest := if |parts| == 1 then "" else sep + Join(sep, parts[1..]);
      assert Join(sep, parts) == "" + parts[0] + rest;
      ContainsExtend("", parts[0], rest, parts[k]);
    } else {
      JoinContainsParts(sep, parts[1..], k - 1);
      assert Join(sep, parts) == parts[0] + sep + Join(sep, parts[1..]) + "";
      ContainsExtend(parts[0] + sep, Join(sep, parts[1..]), "", parts[k]);
    }
  }

  /** Joining two non-empty runs of parts is joining each and putting a separator between. */
  lemma {:induction false} JoinAppend(sep: string, a: seq<string>, b: seq<string>)
    requires |a| > 0 && |b| > 0
    ensures Join(sep, a + b) == Join(sep, a) + sep + Join(sep, b)
    decreases |a|
  {
    if |a| > 1 {
      assert (a + b)[1..] == a[1..] + b;
      JoinAppend(sep, a[1..], b);
    } else {
      assert (a + b)[1..] == b;
    }
  }

  /** `s.replace(a, b)` for single characters. */
  function ReplaceChar(s: string, a: char, b: char): (r: string)
    ensures |r| == |s|
    ensures forall i | 0 <= i < |s| :: r[i] == if s[i] == a then b else s[i]
  {
    seq(|s|, i requires 0 <= i < |s| => if s[i] == a then b else s[i])
  }

  /** Replacing the separator of a join of separator-free parts is joining with the replacement. */
  lemma {:induction false} ReplaceJoin(parts: seq<string>, a: char, b: char)
    requires forall k | 0 <= k < |parts| :: a !in parts[k]
    ensures ReplaceChar(Join([a], parts), a, b) == Join([b], parts)
    decreases |parts|
  {
    if |parts| == 1 {
      assert ReplaceChar(parts[0], a, b) == parts[0];
    } else if |parts| > 1 {
      ReplaceJoin(parts[1..], a, b);
      var rest := Join([a], parts[1..]);
      assert Join([a], parts) == parts[0] + [a] + rest;
      assert ReplaceChar(parts[0] + [a] + rest, a, b) == ReplaceChar(parts[0], a, b) + [b] + ReplaceChar(rest, a, b);
      assert ReplaceChar(parts[0], a, b) == parts[0];
    }
  }

  lemma {:induction false} SplitPiece(p: string, sep: char)
    requires sep !in p
    ensures Split(p, sep) == [p]
    decreases |p|
  {
    if |p| > 0 {
      assert sep !in p[1..] by { assert forall k | 0 <= k < |p[1..]| :: p[1..][k] == p[k + 1]; }
      SplitPiece(p[1..], sep);
      assert [p[0]] + p[1..] == p;
    }
  }

  /** `url.split('/')[-1]`. */
  function LastSegment(url: string): string
  {
    var parts := Split(url, '/');
    parts[|parts| - 1]
  }

  /** A join of parts free of `c` with a separator other than `c` is free of `c`. */
  lemma {:induction false} JoinHasNo(parts: seq<string>, sep: char, c: char)
    requires sep != c
    requires forall k | 0 <= k < |parts| :: c !in parts[k]
    ensures c !in Join([sep], parts)
    decreases |parts|
  {
    if |parts| > 1 {
      JoinHasNo(parts[1..], sep, c);
    }
  }

  /** The last piece of splitting `prefix`, a separator and a separator-free `seg` is `seg`. */
  lemma {:induction false} SplitLastPiece(prefix: string, seg: string, sep: char)
    requires sep !in seg
    ensures var parts := Split(prefix + [sep] + seg, sep); |parts| >= 2 && parts[|parts| - 1] == seg
    decreases |prefix|
  {
    var s := prefix + [sep] + seg;
    if |prefix| == 0 {
      assert s[1..] == seg;
      SplitPiece(seg, sep);
    } else {
      assert s[1..] == prefix[1..] + [sep] + seg;
      SplitLastPiece(prefix[1..], seg, sep);
    }
  }

  /** The last segment of a path that ends with `/` and a segment without '/' is that segment. */
  lemma LastSegmentOf(prefix: string, seg: string)
    requires '/' !in seg
    ensures LastSegment(prefix + "/" + seg) == seg
  {
    assert prefix + "/" + seg == prefix + ['/'] + seg;
    SplitLastPiece(prefix, seg, '/');
  }

  /** Splitting a separator-free first piece, a separator and the rest: the piece, then the rest's pieces. */
  lemma SplitField(p: string, sep: char, r: string)
    requires sep !in p
    ensures Split(p + [sep] + r, sep) == [p] + Split(r, sep)
  {
    var parts := [p] + Split(r, sep);
    JoinSplit(r, sep);
    assert parts[1..] == Split(r, sep);
    assert Join([sep], parts) == p + [sep] + r;
    SplitJoin(parts, sep);
  }

  /** Three separator-free pieces joined by the separator split back into those three. */
  lemma SplitThree(a: string, b: string, c: string, sep: char)
    requires sep !in a && sep !in b && sep !in c
    ensures Split(a + [sep] + b + [sep] + c, sep) == [a, b, c]
  {
    var bc := b + [sep] + c;
    assert Split(bc, sep) == [b, c] by {
      SplitPiece(c, sep);
      SplitField(b, sep, c);
      assert [b] + [c] == [b, c];
    }
    assert a + [sep] + b + [sep] + c == a + [sep] + bc;
    assert Split(a + [sep] + bc, sep) == [a] + [b, c] by {
      SplitField(a, sep, bc);
    }
    assert [a] + [b, c] == [a, b, c];
  }

  // ---------------------------------------------------------------------------------------
  // Integers: int(text) and str(n)
  // ---------------------------------------------------------------------------------------

  predicate AllDigits(s: string) { forall i | 0 <= i < |s| :: IsAsciiDigit(s[i]) }

  function DigitValue(c: char): nat requires IsAsciiDigit(c) { c as int - '0' as int }

  function DigitsValue(s: string): nat
    requires AllDigits(s)
    decreases |s|
  {
    if |s| == 0 then 0 else DigitsValue(s[..|s| - 1]) * 10 + DigitValue(s[|s| - 1])
  }

  /**
   * Python's `int(text)`: surrounding white space is ignored, one optional sign, then
   * one or more digits; anything else raises ValueError (None here).
   */
  function ParseInt(text: string): (r: Option<int>)
  {
    ParseSigned(Strip(text))
  }

  /**
   * `int(...)` fails on blank text, succeeds only on a text that is digits after an optional
   * sign once stripped, and reads a run of digits as its decimal value.
   */
  lemma ParseIntAccepts(text: string)
    ensures Strip(text) == "" ==> ParseInt(text).None?
    ensures ParseInt(text).Some? ==> forall i | 0 <= i < |Strip(text)| ::
      IsAsciiDigit(Strip(text)[i]) || (i == 0 && (Strip(text)[0] == '-' || Strip(text)[0] == '+'))
    ensures ParseInt(text).Some? && AllDigits(Strip(text)) ==> ParseInt(text).value == DigitsValue(Strip(text))
  {
    var t := Strip(text);
    if ParseInt(text).Some? && !AllDigits(t) {
      assert |t| >= 2 && AllDigits(t[1..]);
      assert forall i | 1 <= i < |t| :: t[i] == t[1..][i - 1];
    }
  }

  /** The sign-and-digits part of `int(...)`, on text already stripped. */
  function ParseSigned(t: string): (r: Option<int>)
  {
    if |t| >= 2 && (t[0] == '-' || t[0] == '+') && AllDigits(t[1..]) then
      var v: int := DigitsValue(t[1..]);
      Some(if t[0] == '-' then -v else v)
    else if |t| >= 1 && AllDigits(t) then Some(DigitsValue(t))
    else None
  }

  function DigitChar(d: nat): (c: char)
    requires d < 10
    ensures IsAsciiDigit(c) && DigitValue(c) == d
  {
    ('0' as int + d) as char
  }

  function NatToStr(n: nat): (s: string)
    ensures |s| >= 1 && AllDigits(s)
    decreases n
  {
    if n < 10 then [DigitChar(n)] else NatToStr(n / 10) + [DigitChar(n % 10)]
  }

  /** Python's `str(n)` for an integer. */
  function IntToStr(n: int): (s: string)
  {
    if n < 0 then "-" + NatToStr(-n) else NatToStr(n)
  }

  lemma {:induction false} NatToStrValue(n: nat)
    ensures DigitsValue(NatToStr(n)) == n
    decreases n
  {
    if n >= 10 {
      NatToStrValue(n / 10);
      var s := NatToStr(n);
      assert s[..|s| - 1] == NatToStr(n / 10);
    }
  }

  /** `int(str(n)) == n`. */
  lemma IntToStrParses(n: int)
    ensures ParseInt(IntToStr(n)) == Some(n)
  {
    var s := IntToStr(n);
    var d := NatToStr(if n < 0 then -n else n);
    assert DigitsValue(d) == if n < 0 then -n else n by { NatToStrValue(if n < 0 then -n else n); }
    if n < 0 {
      assert s == "-" + d && s[1..] == d;
      assert !IsSpace(s[|s| - 1]) by { assert s[|s| - 1] == d[|d| - 1]; }
    } else {
      assert s == d && !IsSpace(s[0]) && !IsSpace(s[|s| - 1]);
      assert !(s[0] == '-' || s[0] == '+');
    }
    StripNoSpace(s);
  }

  /** `int(s)` of a run of ASCII digits is its decimal value (leading zeros allowed). */
  lemma DigitsParse(s: string)
    requires |s| >= 1 && AllDigits(s)
    ensures ParseInt(s) == Some(DigitsValue(s))
  {
    assert IsAsciiDigit(s[0]) && IsAsciiDigit(s[|s| - 1]);
    StripNoSpace(s);
  }

  /** `int(str(n)) == n` for a natural number. */
  lemma NatToStrParses(n: nat)
    ensures ParseInt(NatToStr(n)) == Some(n)
  {
    IntToStrParses(n);
  }

  /** A run of digits holds no other character. */
  lemma DigitsHaveNo(s: string, c: char)
    requires AllDigits(s) && !IsAsciiDigit(c)
    ensures c !in s
  {
    forall i | 0 <= i < |s|
      ensures s[i] != c
    {
      assert IsAsciiDigit(s[i]);
    }
  }

  // ---------------------------------------------------------------------------------------
  // re.findall(r'\w+', s)
  // ---------------------------------------------------------------------------------------

  /** Length of the run of word characters at the start of `s`. */
  function RunLength(s: string): (n: nat)
    ensures n <= |s|
    ensures forall i | 0 <= i < n :: IsWordChar(s[i])
    ensures n < |s| ==> !IsWordChar(s[n])
    decreases |s|
  {
    if |s| == 0 || !IsWordChar(s[0]) then 0 else 1 + RunLength(s[1..])
  }

  /** `re.findall(r'\w+', s)`: the maximal runs of word characters, left to right. */
  function WordRuns(s: string): (words: seq<string>)
    ensures forall k | 0 <= k < |words| :: |words[k]| > 0
    ensures forall k, i | 0 <= k < |words| && 0 <= i < |words[k]| :: IsWordChar(words[k][i])
    decreases |s|
  {
    if |s| == 0 then []
    else if !IsWordChar(s[0]) then WordRuns(s[1..])
    else
      var n := RunLength(s);
      [s[..n]] + WordRuns(s[n..])
  }

  function Concat(parts: seq<string>): string
  {
    if |parts| == 0 then "" else parts[0] + Concat(parts[1..])
  }

  function WordCharsOf(s: string): string
  {
    if |s| == 0 then "" else (if IsWordChar(s[0]) then [s[0]] else "") + WordCharsOf(s[1..])
  }

  lemma {:induction false} WordCharsOfAppend(a: string, b: string)
    ensures WordCharsOf(a + b) == WordCharsOf(a) + WordCharsOf(b)
    decreases |a|
  {
    if |a| > 0 {
      var head: string := if IsWordChar(a[0]) then [a[0]] else "";
      assert (a + b)[0] == a[0];
      assert (a + b)[1..] == a[1..] + b;
      WordCharsOfAppend(a[1..], b);
      calc {
        WordCharsOf(a + b);
        head + WordCharsOf(a[1..] + b);
        head + (WordCharsOf(a[1..]) + WordCharsOf(b));
        (head + WordCharsOf(a[1..])) + WordCharsOf(b);
        WordCharsOf(a) + WordCharsOf(b);
      }
    } else {
      assert a + b == b;
    }
  }

  lemma {:induction false} WordCharsOfAllWord(s: string)
    requires forall i | 0 <= i < |s| :: IsWordChar(s[i])
    ensures WordCharsOf(s) == s
    decreases |s|
  {
    if |s| > 0 { WordCharsOfAllWord(s[1..]); }
  }

  /** The runs, put back together, are exactly the word characters of the text, in order. */
  lemma {:induction false} WordRunsCoverWordChars(s: string)
    ensures Concat(WordRuns(s)) == WordCharsOf(s)
    decreases |s|
  {
    if |s| > 0 {
      if !IsWordChar(s[0]) {
        WordRunsCoverWordChars(s[1..]);
      } else {
        var n := RunLength(s);
        WordRunsCoverWordChars(s[n..]);
        assert s == s[..n] + s[n..];
        WordCharsOfAppend(s[..n], s[n..]);
        WordCharsOfAllWord(s[..n]);
        assert WordRuns(s) == [s[..n]] + WordRuns(s[n..]);
      }
    }
  }

  /** A substring of a suffix is a substring of the whole text. */
  lemma ContainsInSuffix(text: string, n: int, pat: string)
    requires 0 <= n <= |text| && Contains(text[n..], pat)
    ensures Contains(text, pat)
  {
    var i :| 0 <= i <= |text[n..]| && OccursAt(text[n..], pat, i);
    assert text[n + i..n + i + |pat|] == text[n..][i..i + |pat|];
    assert OccursAt(text, pat, n + i);
  }

  /** Every word run is a substring of the text it came from. */
  lemma {:induction false} WordRunsInText(s: string, k: int)
    requires 0 <= k < |WordRuns(s)|
    ensures Contains(s, WordRuns(s)[k])
    decreases |s|
  {
    var words := WordRuns(s);
    if !IsWordChar(s[0]) {
      assert words == WordRuns(s[1..]);
      WordRunsInText(s[1..], k);
      ContainsInSuffix(s, 1, words[k]);
    } else {
      var n := RunLength(s);
      assert words == [s[..n]] + WordRuns(s[n..]);
      if k == 0 {
        ContainsPrefix(s, n);
      } else {
        assert words[k] == WordRuns(s[n..])[k - 1];
        WordRunsInText(s[n..], k - 1);
        ContainsInSuffix(s, n, words[k]);
      }
    }
  }
}
