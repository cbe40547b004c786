/**
 * The JavaScript string built-ins that the taint-flow parser relies on, stated over
 * `seq<char>`: the character classes of `\s`, `.` and `String.prototype.trim`,
 * `indexOf`, `split`, `startsWith`/`endsWith`, `parseInt` on a run of decimal digits
 * and the decimal text a template literal gives a non-negative integer.
 */
module JsString {

  /** LineTerminator of ECMAScript: the characters `.` does not match. */
  predicate IsLineTerminator(c: char) {
    c == '\n' || c == '\r' || c == '\U{2028}' || c == '\U{2029}'
  }

  /**
   * The WhiteSpace and LineTerminator code points of ECMAScript, which the
   * regular-expression class `\s` matches and `trim` strips: tab, vertical tab, form
   * feed, space, no-break space, byte-order mark, the space separators of Unicode
   * category Zs (U+1680, U+2000 to U+200A, U+202F, U+205F, U+3000), and the line
   * terminators.
   */
  const WhiteSpaceChars: string :=
    "\t\U{000B}\U{000C} \U{00A0}\U{FEFF}\U{1680}"
    + "\U{2000}\U{2001}\U{2002}\U{2003}\U{2004}\U{2005}\U{2006}\U{2007}\U{2008}\U{2009}\U{200A}"
    + "\U{202F}\U{205F}\U{3000}"
    + "\n\r\U{2028}\U{2029}"

  /** `c` is one of `chars`. */
  predicate Listed(c: char, chars: string)
    decreases |chars|
  {
    |chars| > 0 && (chars[0] == c || Listed(c, chars[1..]))
  }

  predicate IsWhiteSpace(c: char) {
    Listed(c, WhiteSpaceChars)
  }

  lemma {:induction false} ListedOutsidePrintable(c: char, chars: string)
    requires Listed(c, chars)
    requires forall i :: 0 <= i < |chars| ==> chars[i] <= ' ' || chars[i] >= '\U{00A0}'
    ensures c <= ' ' || c >= '\U{00A0}'
    decreases |chars|
  {
    if chars[0] != c {
      assert forall i :: 0 <= i < |chars| - 1 ==> chars[1..][i] == chars[i + 1];
      ListedOutsidePrintable(c, chars[1..]);
    }
  }

  /** No white-space character is a printable ASCII character (digits, letters, braces). */
  lemma WhiteSpaceIsNotPrintable(c: char)
    requires IsWhiteSpace(c)
    ensures c <= ' ' || c >= '\U{00A0}'
  {
    ListedOutsidePrintable(c, WhiteSpaceChars);
  }

  lemma PrintableIsNotWhiteSpace(c: char)
    requires ' ' < c < '\U{00A0}'
    ensures !IsWhiteSpace(c)
  {
    if IsWhiteSpace(c) {
      WhiteSpaceIsNotPrintable(c);
    }
  }

  /** The class `.` of a regular expression without the `s` flag. */
  predicate IsRegexDot(c: char) {
    !IsLineTerminator(c)
  }

  /** The class `\d`. */
  predicate IsDigit(c: char) {
    '0' <= c <= '9'
  }

  /** Every character of `s` satisfies `pr`. */
  predicate All(s: string, pr: char -> bool) {
    forall k :: 0 <= k < |s| ==> pr(s[k])
  }

  predicate StartsWith(s: string, prefix: string) {
    |prefix| <= |s| && s[..|prefix|] == prefix
  }

  predicate EndsWith(s: string, suffix: string) {
    |suffix| <= |s| && s[|s| - |suffix|..] == suffix
  }

  /** `pat` occurs in `s` starting at index `k`. */
  predicate OccursAt(s: string, pat: string, k: nat) {
    k + |pat| <= |s| && forall j :: 0 <= j < |pat| ==> s[k + j] == pat[j]
  }

  /** The same, read as a slice: `s.substring(k, k + pat.length) === pat`. */
  lemma OccursAtSlice(s: string, pat: string, k: nat)
    ensures OccursAt(s, pat, k) <==> k + |pat| <= |s| && s[k..k + |pat|] == pat
  {
    if k + |pat| <= |s| && s[k..k + |pat|] == pat {
      forall j | 0 <= j < |pat| ensures s[k + j] == pat[j] {
        assert s[k..k + |pat|][j] == s[k + j];
      }
    }
  }

  // ---------------------------------------------------------------------------
  // runs of characters and trim

  /** The end of the run of characters satisfying `pr` that starts at `k`. */
  function RunEnd(s: string, k: nat, pr: char -> bool): (e: nat)
    requires k <= |s|
    ensures k <= e <= |s|
    decreases |s| - k
  {
    if k < |s| && pr(s[k]) then RunEnd(s, k + 1, pr) else k
  }

  /** Every character of the run satisfies `pr`, and the one that stops it does not. */
  lemma {:induction false} RunEndSpec(s: string, k: nat, pr: char -> bool)
    requires k <= |s|
    ensures forall j :: k <= j < RunEnd(s, k, pr) ==> pr(s[j])
    ensures RunEnd(s, k, pr) < |s| ==> !pr(s[RunEnd(s, k, pr)])
    decreases |s| - k
  {
    if k < |s| && pr(s[k]) {
      RunEndSpec(s, k + 1, pr);
    }
  }

  /** The start of the run of characters satisfying `pr` that ends just before `k`. */
  function RunStart(s: string, k: nat, pr: char -> bool): (b: nat)
    requires k <= |s|
    ensures b <= k
    decreases k
  {
    if k > 0 && pr(s[k - 1]) then RunStart(s, k - 1, pr) else k
  }

  lemma {:induction false} RunStartSpec(s: string, k: nat, pr: char -> bool)
    requires k <= |s|
    ensures forall j :: RunStart(s, k, pr) <= j < k ==> pr(s[j])
    ensures RunStart(s, k, pr) > 0 ==> !pr(s[RunStart(s, k, pr) - 1])
    decreases k
  {
    if k > 0 && pr(s[k - 1]) {
      RunStartSpec(s, k - 1, pr);
    }
  }

  /** A run is determined by where it stops. */
  lemma RunEndIs(s: string, k: nat, e: nat, pr: char -> bool)
    requires k <= e <= |s|
    requires forall j :: k <= j < e ==> pr(s[j])
    requires e < |s| ==> !pr(s[e])
    ensures RunEnd(s, k, pr) == e
  {
    RunEndSpec(s, k, pr);
  }

  /** A run extends at least over any stretch of characters satisfying `pr`. */
  lemma RunEndAtLeast(s: string, k: nat, e: nat, pr: char -> bool)
    requires k <= e <= |s|
    requires forall j :: k <= j < e ==> pr(s[j])
    ensures RunEnd(s, k, pr) >= e
  {
    RunEndSpec(s, k, pr);
  }

  lemma RunStartIs(s: string, k: nat, b: nat, pr: char -> bool)
    requires b <= k <= |s|
    requires forall j :: b <= j < k ==> pr(s[j])
    requires b > 0 ==> !pr(s[b - 1])
    ensures RunStart(s, k, pr) == b
  {
    RunStartSpec(s, k, pr);
  }

  /** `trimStart`: drops the leading white space. */
  function TrimStart(s: string): (r: string)
    ensures |r| <= |s| && r == s[|s| - |r|..]
    ensures All(s[..|s| - |r|], IsWhiteSpace)
    ensures r == [] || !IsWhiteSpace(r[0])
  {
    RunEndSpec(s, 0, IsWhiteSpace);
    s[RunEnd(s, 0, IsWhiteSpace)..]
  }

  /** `trimEnd`: drops the trailing white space. */
  function TrimEnd(s: string): (r: string)
    ensures |r| <= |s| && r == s[..|r|]
    ensures All(s[|r|..], IsWhiteSpace)
    ensures r == [] || !IsWhiteSpace(r[|r| - 1])
  {
    RunStartSpec(s, |s|, IsWhiteSpace);
    s[..RunStart(s, |s|, IsWhiteSpace)]
  }

  /** `String.prototype.trim`. */
  function Trim(s: string): (r: string)
    ensures r == [] || (!IsWhiteSpace(r[0]) && !IsWhiteSpace(r[|r| - 1]))
  {
    TrimEnd(TrimStart(s))
  }

  lemma TrimStartPadded(lead: string, rest: string)
    requires All(lead, IsWhiteSpace)
    requires rest == [] || !IsWhiteSpace(rest[0])
    ensures TrimStart(lead + rest) == rest
  {
    var s := lead + rest;
    assert forall j :: 0 <= j < |lead| ==> s[j] == lead[j];
    RunEndIs(s, 0, |lead|, IsWhiteSpace);
    assert s[|lead|..] == rest;
  }

  lemma TrimEndPadded(rest: string, trail: string)
    requires All(trail, IsWhiteSpace)
    requires rest == [] || !IsWhiteSpace(rest[|rest| - 1])
    ensures TrimEnd(rest + trail) == rest
  {
    var s := rest + trail;
    assert forall j :: |rest| <= j < |s| ==> s[j] == trail[j - |rest|];
    RunStartIs(s, |s|, |rest|, IsWhiteSpace);
    assert s[..|rest|] == rest;
  }

  /**
   * `trim` undoes any white-space padding of a string that neither starts nor ends with
   * white space; every string is such a padding, so this characterises `Trim` completely.
   */
  lemma TrimPadded(lead: string, core: string, trail: string)
    requires All(lead, IsWhiteSpace) && All(trail, IsWhiteSpace)
    requires core == [] || (!IsWhiteSpace(core[0]) && !IsWhiteSpace(core[|core| - 1]))
    ensures Trim(lead + core + trail) == core
  {
    if core == [] {
      assert lead + core + trail == (lead + trail) + [];
      assert All(lead + trail, IsWhiteSpace);
      TrimStartPadded(lead + trail, []);
    } else {
      assert lead + core + trail == lead + (core + trail);
      TrimStartPadded(lead, core + trail);
      TrimEndPadded(core, trail);
    }
  }

  // ---------------------------------------------------------------------------
  // indexOf and split

  /** `s.indexOf(pat, from)`: the first index at or after `from` where `pat` occurs, or -1. */
  function IndexOf(s: string, pat: string, from: nat): (r: int)
    requires from <= |s|
    ensures r == -1 <==> forall k :: from <= k <= |s| ==> !OccursAt(s, pat, k)
    ensures r != -1 ==> from <= r && OccursAt(s, pat, r)
    ensures r != -1 ==> forall k :: from <= k < r ==> !OccursAt(s, pat, k)
    decreases |s| - from
  {
    if OccursAt(s, pat, from) then from
    else if from == |s| then -1
    else IndexOf(s, pat, from + 1)
  }

  ghost predicate Free(s: string, pat: string) {
    forall k :: !OccursAt(s, pat, k)
  }

  /** `s.split(sep)` for a non-empty separator string: the pieces between leftmost occurrences. */
  function Split(s: string, sep: string): (pieces: seq<string>)
    requires |sep| > 0
    ensures |pieces| >= 1
    ensures forall i :: 0 <= i < |pieces| ==> Free(pieces[i], sep)
    decreases |s|
  {
    var k := IndexOf(s, sep, 0);
    if k == -1 then [s]
    else
      assert Free(s[..k], sep) by {
        forall j: nat | OccursAt(s[..k], sep, j) ensures false {
          forall t | 0 <= t < |sep| ensures s[j + t] == sep[t] {
            assert s[..k][j + t] == s[j + t];
          }
          assert OccursAt(s, sep, j);
        }
      }
      [s[..k]] + Split(s[k + |sep|..], sep)
  }

  /** `pieces.join(sep)`. */
  function Join(pieces: seq<string>, sep: string): string
    requires |pieces| >= 1
  {
    if |pieces| == 1 then pieces[0] else pieces[0] + sep + Join(pieces[1..], sep)
  }

  /** Splitting loses nothing: joining the pieces with the separator gives the text back. */
  lemma {:induction false} SplitJoin(s: string, sep: string)
    requires |sep| > 0
    ensures Join(Split(s, sep), sep) == s
    decreases |s|
  {
    var k := IndexOf(s, sep, 0);
    if k != -1 {
      var rest := s[k + |sep|..];
      SplitJoin(rest, sep);
      JoinCons(s[..k], Split(rest, sep), sep);
      OccursAtSlice(s, sep, k);
      SliceConcat(s, k, k + |sep|);
    }
  }

  lemma JoinCons(x: string, pieces: seq<string>, sep: string)
    requires |pieces| >= 1
    ensures Join([x] + pieces, sep) == x + sep + Join(pieces, sep)
  {
    assert ([x] + pieces)[1..] == pieces;
  }

  lemma SliceConcat(s: string, i: nat, j: nat)
    requires i <= j <= |s|
    ensures s == s[..i] + s[i..j] + s[j..]
  {
  }

  // ---------------------------------------------------------------------------
  // parseInt and decimal text

  function DigitValue(c: char): (d: nat)
    requires IsDigit(c)
    ensures d < 10
  {
    (c as int) - ('0' as int)
  }

  function DigitChar(d: nat): (c: char)
    requires d < 10
    ensures IsDigit(c) && DigitValue(c) == d
  {
    (('0' as int) + d) as char
  }

  /** `parseInt(s)` for a non-empty run of decimal digits (leading zeros are allowed). */
  function ParseInt(s: string): (r: nat)
    requires |s| > 0 && All(s, IsDigit)
    ensures r == 0 <==> forall k :: 0 <= k < |s| ==> s[k] == '0'
  {
    if |s| == 1 then DigitValue(s[0])
    else 10 * ParseInt(s[..|s| - 1]) + DigitValue(s[|s| - 1])
  }

  /** The text `${n}` of a template literal for a non-negative integer `n`. */
  function NumberToString(n: nat): (s: string)
    ensures |s| > 0 && All(s, IsDigit)
    decreases n
  {
    if n < 10 then [DigitChar(n)] else NumberToString(n / 10) + [DigitChar(n % 10)]
  }

  /** Decimal digits without a redundant leading zero, as `NumberToString` writes them. */
  predicate IsCanonicalDecimal(s: string) {
    |s| > 0 && All(s, IsDigit) && (|s| == 1 || s[0] != '0')
  }

  lemma {:induction false} NumberToStringIsCanonical(n: nat)
    ensures IsCanonicalDecimal(NumberToString(n))
    decreases n
  {
    if n >= 10 {
      NumberToStringIsCanonical(n / 10);
    }
  }

  /** `parseInt` reads back the number a template literal printed. */
  lemma {:induction false} ParseIntOfNumberToString(n: nat)
    ensures ParseInt(NumberToString(n)) == n
    decreases n
  {
    if n >= 10 {
      var s := NumberToString(n);
      ParseIntOfNumberToString(n / 10);
      assert s[..|s| - 1] == NumberToString(n / 10);
    }
  }

  lemma {:induction false} ParseIntLeadingNonZero(s: string)
    requires IsCanonicalDecimal(s) && s[0] != '0'
    ensures ParseInt(s) >= 1
    decreases |s|
  {
    if |s| > 1 {
      ParseIntLeadingNonZero(s[..|s| - 1]);
    }
  }

  /** A leading zero adds nothing: `parseInt("0" + s)` is `parseInt(s)`. */
  lemma {:induction false} ParseIntLeadingZero(s: string)
    requires |s| > 0 && All(s, IsDigit)
    ensures ParseInt("0" + s) == ParseInt(s)
    decreases |s|
  {
    var z := "0" + s;
    if |s| == 1 {
      assert z[..|z| - 1] == "0";
    } else {
      var p := s[..|s| - 1];
      ParseIntLeadingZero(p);
      assert z[..|z| - 1] == "0" + p;
      assert z[|z| - 1] == s[|s| - 1];
    }
  }

  /** Printing a parsed canonical decimal gives back the same digits. */
  lemma {:induction false} NumberToStringOfParseInt(s: string)
    requires IsCanonicalDecimal(s)
    ensures NumberToString(ParseInt(s)) == s
    decreases |s|
  {
    if |s| > 1 {
      var p := s[..|s| - 1];
      NumberToStringOfParseInt(p);
      ParseIntLeadingNonZero(p);
      var n := ParseInt(s);
      assert n / 10 == ParseInt(p) && n % 10 == DigitValue(s[|s| - 1]);
      assert s == p + [s[|s| - 1]];
    }
  }
}
