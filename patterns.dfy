/**
 * The pieces of Python regular expressions the date parsers are built from, read at a
 * given position of the text: runs of `\d`, `\s` and `\w`, a fixed number of digits, a
 * literal, and the short number `\d{1,2}` followed by a separator.
 *
 * Each run function returns where the greedy run ends. A greedy run followed by something
 * its own class never matches cannot give back characters to make the rest match, so the
 * patterns here match exactly when their pieces match one after the other at the run ends.
 */
module Patterns {
  import opened Wrappers
  import opened Text

  /** End of the run of ASCII digits (`\d*`) that starts at `i`. */
  function DigitsEnd(s: string, i: nat): (j: nat)
    requires i <= |s|
    ensures i <= j <= |s| && AllDigits(s[i..j])
    ensures j < |s| ==> !IsAsciiDigit(s[j])
    decreases |s| - i
  {
    if i < |s| && IsAsciiDigit(s[i]) then
      var j := DigitsEnd(s, i + 1);
      assert s[i..j] == [s[i]] + s[i + 1..j];
      j
    else i
  }

  /** End of the run of white space (`\s*`) that starts at `i`. */
  function SpacesEnd(s: string, i: nat): (j: nat)
    requires i <= |s|
    ensures i <= j <= |s| && forall k | i <= k < j :: IsSpace(s[k])
    ensures j < |s| ==> !IsSpace(s[j])
    decreases |s| - i
  {
    if i < |s| && IsSpace(s[i]) then SpacesEnd(s, i + 1) else i
  }

  /** End of the run of word characters (`\w*`) that starts at `i`. */
  function WordEnd(s: string, i: nat): (j: nat)
    requires i <= |s|
    ensures i <= j <= |s| && forall k | i <= k < j :: IsWordChar(s[k])
    ensures j < |s| ==> !IsWordChar(s[j])
    decreases |s| - i
  {
    if i < |s| && IsWordChar(s[i]) then WordEnd(s, i + 1) else i
  }

  /** `\d{n}` at `i`. */
  predicate DigitsAt(s: string, i: nat, n: nat)
  {
    i + n <= |s| && AllDigits(s[i..i + n])
  }

  /** The literal `lit` at `i`. */
  predicate LiteralAt(s: string, i: nat, lit: string)
  {
    i + |lit| <= |s| && s[i..i + |lit|] == lit
  }

  /**
   * `\d{1,2}` followed by the separator `sep` (not a digit), at `i`: where the match ends,
   * after the separator. Two digits are tried before one, as the greedy quantifier does.
   */
  function ShortNumberThen(s: string, i: nat, sep: char): (r: Option<nat>)
    requires !IsAsciiDigit(sep)
    ensures r.Some? <==> exists n | 1 <= n <= 2 :: DigitsAt(s, i, n) && i + n < |s| && s[i + n] == sep
    ensures r.Some? ==> i + 2 <= r.value <= i + 3 && DigitsAt(s, i, r.value - i - 1) && s[r.value - 1] == sep
  {
    if DigitsAt(s, i, 2) && i + 2 < |s| && s[i + 2] == sep then Some(i + 3)
    else if DigitsAt(s, i, 1) && i + 1 < |s| && s[i + 1] == sep then Some(i + 2)
    else if DigitsAt(s, i, 2) then
      assert IsAsciiDigit(s[i + 1]) by { assert s[i..i + 2][1] == s[i + 1]; }
      None
    else None
  }

  /** A digit run of one or two digits followed by the separator matches `\d{1,2}<sep>` there. */
  lemma ShortNumberOf(s: string, i: nat, digits: string, sep: char)
    requires !IsAsciiDigit(sep) && 1 <= |digits| <= 2 && AllDigits(digits)
    requires i + |digits| < |s| && s[i..i + |digits|] == digits && s[i + |digits|] == sep
    ensures ShortNumberThen(s, i, sep) == Some(i + |digits| + 1)
  {
    assert DigitsAt(s, i, |digits|);
  }

  /** A digit run of known length ends where the digits stop. */
  lemma DigitsEndAt(s: string, i: nat, n: nat)
    requires DigitsAt(s, i, n) && (i + n == |s| || !IsAsciiDigit(s[i + n]))
    ensures DigitsEnd(s, i) == i + n
  {
  }

  /** A white-space run of known length ends where the white space stops. */
  lemma SpacesEndAt(s: string, i: nat, n: nat)
    requires i + n <= |s| && (forall k | i <= k < i + n :: IsSpace(s[k]))
    requires i + n == |s| || !IsSpace(s[i + n])
    ensures SpacesEnd(s, i) == i + n
  {
  }

  /** A word run of known length ends where the word characters stop. */
  lemma WordEndAt(s: string, i: nat, n: nat)
    requires i + n <= |s| && (forall k | i <= k < i + n :: IsWordChar(s[k]))
    requires i + n == |s| || !IsWordChar(s[i + n])
    ensures WordEnd(s, i) == i + n
  {
  }

  /**
   * `\s+<lit>\s+` at `i`, for a literal that starts with a character other than white
   * space: where the match ends, after the second run of white space.
   */
  function SpacedLiteral(s: string, i: nat, lit: string): (r: Option<nat>)
    requires i <= |s|
    ensures r.Some? ==> i + |lit| + 2 <= r.value <= |s|
  {
    var a := SpacesEnd(s, i);
    if a == i || !LiteralAt(s, a, lit) then None
    else
      var c := SpacesEnd(s, a + |lit|);
      if c == a + |lit| then None else Some(c)
  }

  /** A single space, the literal and a single space match `\s+<lit>\s+` up to the next non-space. */
  lemma SpacedLiteralAt(s: string, i: nat, lit: string)
    requires |lit| >= 1 && !IsSpace(lit[0])
    requires i + |lit| + 2 < |s| && s[i] == ' ' && LiteralAt(s, i + 1, lit) && s[i + 1 + |lit|] == ' '
    requires !IsSpace(s[i + |lit| + 2])
    ensures SpacedLiteral(s, i, lit) == Some(i + |lit| + 2)
  {
    assert s[i + 1] == s[i + 1..i + 1 + |lit|][0];
    SpacesEndAt(s, i, 1);
    SpacesEndAt(s, i + 1 + |lit|, 1);
  }

  /** " de " followed by something other than white space matches `\s+de\s+`. */
  lemma SpacedDeAt(s: string, i: nat)
    requires LiteralAt(s, i, " de ") && i + 4 < |s| && !IsSpace(s[i + 4])
    ensures SpacedLiteral(s, i, "de") == Some(i + 4)
  {
    assert s[i..i + 4] == " de ";
    assert s[i] == ' ' && s[i + 3] == ' ';
    assert s[i + 1..i + 3] == s[i..i + 4][1..3];
    SpacedLiteralAt(s, i, "de");
  }

  // ---------------------------------------------------------------------------------------
  // Date patterns: `re.match` at a position and `re.search`
  // ---------------------------------------------------------------------------------------

  /** The date patterns the sites look for, each with three groups. */
  datatype DatePattern =
    | DayFirst(sep: char)   // (\d{1,2})<sep>(\d{1,2})<sep>(\d{4})
    | YearFirst             // (\d{4})-(\d{1,2})-(\d{1,2})
    | SpelledOut            // (\d+)\s+de\s+(\w+)\s+de\s+(\d{4})

  /** A day-first pattern's separator is not a digit. */
  predicate WellFormed(p: DatePattern)
  {
    p.DayFirst? ==> !IsAsciiDigit(p.sep)
  }

  /** The groups of pattern `p` matched at position `i`, if it matches there. */
  function MatchAt(t: string, i: nat, p: DatePattern): (r: Option<(string, string, string)>)
    requires i <= |t| && WellFormed(p)
  {
    match p
    case DayFirst(sep) => DayFirstAt(t, i, sep)
    case YearFirst => YearFirstAt(t, i)
    case SpelledOut => SpelledOutAt(t, i)
  }

  function DayFirstAt(t: string, i: nat, sep: char): (r: Option<(string, string, string)>)
    requires i <= |t| && !IsAsciiDigit(sep)
    ensures r.Some? ==> sep in t
  {
    var a := ShortNumberThen(t, i, sep);
    if a.None? then None
    else
      var b := ShortNumberThen(t, a.value, sep);
      if b.None? || !DigitsAt(t, b.value, 4) then None
      else Some((t[i..a.value - 1], t[a.value..b.value - 1], t[b.value..b.value + 4]))
  }

  function YearFirstAt(t: string, i: nat): (r: Option<(string, string, string)>)
    requires i <= |t|
  {
    if !DigitsAt(t, i, 4) || !LiteralAt(t, i + 4, "-") then None
    else
      var b := ShortNumberThen(t, i + 5, '-');
      if b.None? || !DigitsAt(t, b.value, 1) then None
      else
        var k := if DigitsAt(t, b.value, 2) then 2 else 1;
        Some((t[i..i + 4], t[i + 5..b.value - 1], t[b.value..b.value + k]))
  }

  function SpelledOutAt(t: string, i: nat): (r: Option<(string, string, string)>)
    requires i <= |t|
  {
    var d := DigitsEnd(t, i);
    var b := SpacedLiteral(t, d, "de");
    if d == i || b.None? then None
    else
      var w := WordEnd(t, b.value);
      var e := SpacedLiteral(t, w, "de");
      if w == b.value || e.None? || !DigitsAt(t, e.value, 4) then None
      else Some((t[i..d], t[b.value..w], t[e.value..e.value + 4]))
  }

  /** `SpelledOutAt` once each of its pieces is known. */
  lemma SpelledOutIs(t: string, i: nat, d: nat, b: nat, w: nat, e: nat)
    requires i < d <= |t| && DigitsEnd(t, i) == d && SpacedLiteral(t, d, "de") == Some(b)
    requires b < w && WordEnd(t, b) == w && SpacedLiteral(t, w, "de") == Some(e) && DigitsAt(t, e, 4)
    ensures SpelledOutAt(t, i) == Some((t[i..d], t[b..w], t[e..e + 4]))
  {
  }

  /**
   * The spelled pattern's pieces at known positions: digits up to `n`, " de ", word
   * characters up to `we`, " de ", and four digits.
   */
  lemma SpelledOutFrom(t: string, n: nat, we: nat)
    requires 1 <= n && n + 4 < we && we + 8 <= |t|
    requires DigitsAt(t, 0, n) && LiteralAt(t, n, " de ") && LiteralAt(t, we, " de ")
    requires forall k | n + 4 <= k < we :: IsWordChar(t[k])
    requires DigitsAt(t, we + 4, 4) && !IsSpace(t[n + 4])
    ensures SpelledOutAt(t, 0) == Some((t[..n], t[n + 4..we], t[we + 4..we + 8]))
  {
    DigitsEndAt(t, 0, n);
    SpacedDeAt(t, n);
    SpelledTailAt(t, n + 4, we);
    SpelledOutIs(t, 0, n, n + 4, we, we + 4);
  }

  /** A run of word characters, " de " and four digits: where the word run and the literal end. */
  lemma SpelledTailAt(t: string, b: nat, we: nat)
    requires b < we && we + 8 <= |t| && LiteralAt(t, we, " de ") && DigitsAt(t, we + 4, 4)
    requires forall k | b <= k < we :: IsWordChar(t[k])
    ensures WordEnd(t, b) == we && SpacedLiteral(t, we, "de") == Some(we + 4)
  {
    assert IsAsciiDigit(t[we + 4]) by { assert t[we + 4] == t[we + 4..we + 8][0]; }
    assert t[we] == ' ' by { assert t[we] == t[we..we + 4][0]; }
    WordEndAt(t, b, we - b);
    SpacedDeAt(t, we);
  }

  /** "<digits> de <word> de <year>", whatever follows, matches with those three groups. */
  lemma SpelledOutOf(ds: string, w: string, yy: string, tail: string)
    requires |ds| >= 1 && AllDigits(ds) && |yy| == 4 && AllDigits(yy)
    requires w != "" && forall k | 0 <= k < |w| :: IsWordChar(w[k])
    ensures SpelledOutAt(ds + " de " + w + " de " + yy + tail, 0) == Some((ds, w, yy))
  {
    var t := ds + " de " + w + " de " + yy + tail;
    var n := |ds|;
    var we := n + 4 + |w|;
    assert t[..n] == ds && t[n + 4..we] == w && t[we + 4..we + 8] == yy;
    assert t[n..n + 4] == " de " && t[we..we + 4] == " de ";
    assert t[n + 4] == w[0] && IsWordChar(w[0]);
    forall k | n + 4 <= k < we
      ensures IsWordChar(t[k])
    {
      assert t[k] == w[k - n - 4];
    }
    SpelledOutFrom(t, n, we);
  }

  /** The leftmost position at or after `i` where `p` matches. */
  function FirstMatch(t: string, p: DatePattern, i: nat): (r: Option<nat>)
    requires i <= |t| && WellFormed(p)
    ensures r.Some? ==> i <= r.value <= |t|
    decreases |t| - i
  {
    if MatchAt(t, i, p).Some? then Some(i)
    else if i == |t| then None
    else FirstMatch(t, p, i + 1)
  }

  /** `FirstMatch` finds a match with none before it, or there is none from `i` on. */
  lemma {:induction false} FirstMatchIsFirst(t: string, p: DatePattern, i: nat)
    requires i <= |t| && WellFormed(p)
    ensures var r := FirstMatch(t, p, i);
      && (r.Some? ==> MatchAt(t, r.value, p).Some? && forall j | i <= j < r.value :: MatchAt(t, j, p).None?)
      && (r.None? ==> forall j | i <= j <= |t| :: MatchAt(t, j, p).None?)
    decreases |t| - i
  {
    if MatchAt(t, i, p).None? && i < |t| {
      FirstMatchIsFirst(t, p, i + 1);
    }
  }

  /** `re.search(p, t)`: the groups of the leftmost match. */
  function Search(t: string, p: DatePattern): (r: Option<(string, string, string)>)
    requires WellFormed(p)
  {
    var k := FirstMatch(t, p, 0);
    if k.None? then None else MatchAt(t, k.value, p)
  }

  /** `re.search` finds nothing exactly when the pattern matches nowhere, and otherwise a match. */
  lemma SearchSpec(t: string, p: DatePattern)
    requires WellFormed(p)
    ensures Search(t, p).None? <==> forall j | 0 <= j <= |t| :: MatchAt(t, j, p).None?
    ensures Search(t, p).Some? ==> exists j | 0 <= j <= |t| :: MatchAt(t, j, p) == Search(t, p)
  {
    FirstMatchIsFirst(t, p, 0);
  }

  /** A match with no match before it is the one `re.search` finds. */
  lemma SearchFindsFirst(t: string, p: DatePattern, i: nat)
    requires WellFormed(p) && i <= |t| && MatchAt(t, i, p).Some?
    requires forall j | 0 <= j < i :: MatchAt(t, j, p).None?
    ensures Search(t, p) == MatchAt(t, i, p)
  {
    FirstMatchFrom(t, p, 0, i);
  }

  /** Scanning from `k`, the first match is at `i` when nothing matches between them. */
  lemma {:induction false} FirstMatchFrom(t: string, p: DatePattern, k: nat, i: nat)
    requires WellFormed(p) && k <= i <= |t| && MatchAt(t, i, p).Some?
    requires forall j | k <= j < i :: MatchAt(t, j, p).None?
    ensures FirstMatch(t, p, k) == Some(i)
    decreases i - k
  {
    if k < i {
      FirstMatchFrom(t, p, k + 1, i);
    }
  }

  /** Text that starts with a spelled-out date and ends in no blank: `re.search` on the stripped text finds that date. */
  lemma SpelledSearchOf(ds: string, w: string, yy: string, tail: string)
    requires |ds| >= 1 && AllDigits(ds) && |yy| == 4 && AllDigits(yy)
    requires w != "" && forall k | 0 <= k < |w| :: IsWordChar(w[k])
    requires |tail| > 0 ==> !IsSpace(tail[|tail| - 1])
    ensures Search(Strip(ds + " de " + w + " de " + yy + tail), SpelledOut) == Some((ds, w, yy))
  {
    var t := ds + " de " + w + " de " + yy + tail;
    assert Search(t, SpelledOut) == Some((ds, w, yy)) by {
      SpelledOutOf(ds, w, yy, tail);
      SearchFindsFirst(t, SpelledOut, 0);
    }
    SpelledStripped(ds, w, yy, tail);
  }

  lemma SpelledStripped(ds: string, w: string, yy: string, tail: string)
    requires |ds| >= 1 && AllDigits(ds) && |yy| == 4 && AllDigits(yy)
    requires |tail| > 0 ==> !IsSpace(tail[|tail| - 1])
    ensures Strip(ds + " de " + w + " de " + yy + tail) == ds + " de " + w + " de " + yy + tail
  {
    var t := ds + " de " + w + " de " + yy + tail;
    assert t[0] == ds[0];
    assert |tail| == 0 ==> t[|t| - 1] == yy[3];
    StripNoSpace(t);
  }

  /** "D<sep>M<sep>YYYY" with one- or two-digit day and month is matched at its start with those three groups. */
  lemma DayFirstOf(dd: string, mm: string, yy: string, sep: char)
    requires !IsAsciiDigit(sep) && 1 <= |dd| <= 2 && 1 <= |mm| <= 2 && |yy| == 4
    requires AllDigits(dd) && AllDigits(mm) && AllDigits(yy)
    ensures Search(dd + [sep] + mm + [sep] + yy, DayFirst(sep)) == Some((dd, mm, yy))
  {
    var t := dd + [sep] + mm + [sep] + yy;
    var a, b := |dd| + 1, |dd| + |mm| + 2;
    assert t[0..|dd|] == dd && t[a..a + |mm|] == mm && t[b..b + 4] == yy;
    ShortNumberOf(t, 0, dd, sep);
    ShortNumberOf(t, a, mm, sep);
    assert DigitsAt(t, b, 4);
    assert DayFirstAt(t, 0, sep) == Some((dd, mm, yy));
    SearchFindsFirst(t, DayFirst(sep), 0);
  }

  /** A day-first pattern never matches text without its separator. */
  lemma DayFirstNeedsSeparator(t: string, sep: char)
    requires !IsAsciiDigit(sep) && sep !in t
    ensures Search(t, DayFirst(sep)).None?
  {
    SearchSpec(t, DayFirst(sep));
  }
}
