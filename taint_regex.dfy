/**
 * `convertTextToJson`: the regular expression `/{ ln:\s+(\d+)\s+cl: (\d+)\s+fl: (.+) }/`
 * run once with `exec` on one trimmed trace segment.
 *
 * What the pattern asks for, literally: `{ ln:` with exactly one space after the brace,
 * one or more white-space characters, the line digits, white space, `cl: ` with exactly
 * one space, the column digits, white space, `fl: ` with exactly one space, a label of
 * one or more characters that are not line terminators, and ` }`. The search is not
 * anchored, so the match may start anywhere; `exec` reports the match that starts
 * leftmost and, the label being greedy, the one whose label runs to the last ` }` of
 * its line.
 *
 * The pattern is written as a value of a small pattern language (literal text, runs of
 * one character class, a closing greedy label), with a matcher that does what the
 * backtracking engine does on patterns of that language, and a declarative reading of
 * a match to hold the matcher against.
 */
module TaintRegex {
  import opened Wrappers
  import opened JsString

  /** The record `{ln, cl, fl}` that `convertTextToJson` builds from the three groups. */
  datatype TraceAnchor = TraceAnchor(ln: nat, cl: nat, fl: string)

  // ---------------------------------------------------------------------------
  // Patterns, and what it means for one to match

  /**
   * A pattern read left to right: literal text; a run `c+` of one character class; and,
   * to finish, a greedy label closed by ` }`, that is `(.+) }`. A match records every
   * run and the label, in order (the white-space runs as well as the digit groups).
   */
  datatype Pattern =
    | Lit(text: string, rest: Pattern)
    | Run(cls: char -> bool, rest: Pattern)
    | LabelClose

  /** `/{ ln:\s+(\d+)\s+cl: (\d+)\s+fl: (.+) }/` */
  const TaintPattern: Pattern :=
    Lit("{ ln:", Run(IsWhiteSpace, Run(IsDigit, Run(IsWhiteSpace,
      Lit("cl: ", Run(IsDigit, Run(IsWhiteSpace,
        Lit("fl: ", LabelClose))))))))

  /** How many strings a match of `pat` records: one per run and one for the label. */
  function Arity(pat: Pattern): nat
    decreases pat
  {
    match pat
    case Lit(_, rest) => Arity(rest)
    case Run(_, rest) => 1 + Arity(rest)
    case LabelClose => 1
  }

  /** `.+` */
  predicate IsDotRun(x: string) {
    |x| > 0 && All(x, IsRegexDot)
  }

  /**
   * `pat` lies in `s` from index `k`, with `caps` as its runs and label: each literal
   * occurs where it is due, each run is a non-empty string of its class, the label is a
   * non-empty string without line terminators, and ` }` follows the label.
   */
  predicate Fits(s: string, k: nat, pat: Pattern, caps: seq<string>)
    decreases pat
  {
    match pat
    case Lit(x, rest) => OccursAt(s, x, k) && Fits(s, k + |x|, rest, caps)
    case Run(cls, rest) =>
      && |caps| > 0 && |caps[0]| > 0 && All(caps[0], cls) && OccursAt(s, caps[0], k)
      && Fits(s, k + |caps[0]|, rest, caps[1..])
    case LabelClose =>
      |caps| == 1 && IsDotRun(caps[0]) && OccursAt(s, caps[0], k) && OccursAt(s, " }", k + |caps[0]|)
  }

  /** `got` records the same strings as `caps`, except that its last one may be longer. */
  predicate AtLeastAsGreedy(got: seq<string>, caps: seq<string>) {
    && |got| == |caps| > 0
    && (forall i :: 0 <= i < |caps| - 1 ==> got[i] == caps[i])
    && |caps[|caps| - 1]| <= |got[|got| - 1]|
  }

  /**
   * Where a run of `cls` ends and `next` begins, the first character of `next` cannot
   * belong to `cls`, so the greedy run cannot eat into it.
   */
  ghost predicate StopsRun(cls: char -> bool, next: Pattern) {
    match next
    case Lit(x, _) => |x| > 0 && !cls(x[0])
    case Run(cls2, _) => forall c :: cls2(c) ==> !cls(c)
    case LabelClose => forall c :: IsRegexDot(c) ==> !cls(c)
  }

  /** Every run of `pat` is stopped by what follows it. */
  ghost predicate Separated(pat: Pattern)
    decreases pat
  {
    match pat
    case Lit(_, rest) => Separated(rest)
    case Run(cls, rest) => StopsRun(cls, rest) && Separated(rest)
    case LabelClose => true
  }

  // ---------------------------------------------------------------------------
  // The matcher

  /** The last index `p` with `lo <= p` and `p + 2 <= hi` where ` }` occurs. */
  function LastClose(s: string, lo: nat, hi: nat): (r: Option<nat>)
    requires hi <= |s|
    ensures r.Some? ==> lo <= r.value && r.value + 2 <= hi
    decreases hi
  {
    if hi < lo + 2 then None
    else if s[hi - 2] == ' ' && s[hi - 1] == '}' then Some(hi - 2)
    else LastClose(s, lo, hi - 1)
  }

  /** `LastClose` finds an occurrence of ` }`, and no occurrence in range lies further right. */
  lemma {:induction false} LastCloseSpec(s: string, lo: nat, hi: nat)
    requires hi <= |s|
    ensures LastClose(s, lo, hi).Some? ==> OccursAt(s, " }", LastClose(s, lo, hi).value)
    ensures forall p: nat :: lo <= p && p + 2 <= hi && OccursAt(s, " }", p) ==>
      LastClose(s, lo, hi).Some? && p <= LastClose(s, lo, hi).value
    decreases hi
  {
    if hi < lo + 2 {
    } else if s[hi - 2] == ' ' && s[hi - 1] == '}' {
    } else {
      LastCloseSpec(s, lo, hi - 1);
      forall p: nat | lo <= p && p + 2 <= hi && OccursAt(s, " }", p) ensures p + 2 <= hi - 1 {
        assert s[p + 0] == " }"[0] && s[p + 1] == " }"[1];
      }
    }
  }

  /**
   * What the backtracking engine does with `pat` at index `k`. A literal must occur
   * there. A run takes every character of its class (when what follows a run cannot
   * start with a character of its class, giving some back never helps). The label takes
   * the longest stretch without a line terminator that is followed by ` }`: the engine
   * first takes every such character, then gives them back one at a time until ` }`
   * follows.
   */
  function Match(s: string, k: nat, pat: Pattern): (r: Option<seq<string>>)
    requires k <= |s|
    ensures r.Some? ==> |r.value| == Arity(pat)
    decreases pat
  {
    match pat
    case Lit(x, rest) =>
      if OccursAt(s, x, k) then Match(s, k + |x|, rest) else None
    case Run(cls, rest) =>
      var e := RunEnd(s, k, cls);
      if e == k then None
      else
        (match Match(s, e, rest)
         case None => None
         case Some(caps) => Some([s[k..e]] + caps))
    case LabelClose =>
      match LastClose(s, k + 1, RunEnd(s, k, IsRegexDot))
      case None => None
      case Some(z) => Some([s[k..z]])
  }

  /** What `Match` returns is a match of the pattern. */
  lemma {:induction false} MatchSound(s: string, k: nat, pat: Pattern)
    requires k <= |s|
    ensures Match(s, k, pat).Some? ==> Fits(s, k, pat, Match(s, k, pat).value)
    decreases pat
  {
    match pat
    case Lit(x, rest) =>
      if OccursAt(s, x, k) {
        MatchSound(s, k + |x|, rest);
      }
    case Run(cls, rest) =>
      var e := RunEnd(s, k, cls);
      if e != k && Match(s, e, rest).Some? {
        var caps := Match(s, e, rest).value;
        MatchSound(s, e, rest);
        RunSlice(s, k, cls);
        OccursAtSlice(s, s[k..e], k);
        assert ([s[k..e]] + caps)[1..] == caps;
      }
    case LabelClose =>
      LabelSound(s, k);
  }

  /** The label the matcher takes is a label followed by ` }`. */
  lemma LabelSound(s: string, k: nat)
    requires k <= |s|
    ensures Match(s, k, LabelClose).Some? ==> Fits(s, k, LabelClose, Match(s, k, LabelClose).value)
  {
    var t := RunEnd(s, k, IsRegexDot);
    LastCloseSpec(s, k + 1, t);
    if LastClose(s, k + 1, t).Some? {
      var z := LastClose(s, k + 1, t).value;
      RunEndSpec(s, k, IsRegexDot);
      forall j | 0 <= j < z - k ensures IsRegexDot(s[k..z][j]) {
        assert s[k..z][j] == s[k + j];
      }
      OccursAtSlice(s, s[k..z], k);
    }
  }

  /** The run the matcher takes at `k` holds only characters of its class. */
  lemma RunSlice(s: string, k: nat, pr: char -> bool)
    requires k <= |s|
    ensures All(s[k..RunEnd(s, k, pr)], pr)
  {
    var e := RunEnd(s, k, pr);
    RunEndSpec(s, k, pr);
    assert forall j :: 0 <= j < e - k ==> s[k..e][j] == s[k + j];
  }

  /**
   * Wherever the pattern matches, the matcher finds a match at the same index that
   * records the same runs and a label at least as long, provided every run of the
   * pattern is stopped by what follows it.
   */
  lemma {:induction false} MatchComplete(s: string, k: nat, pat: Pattern, caps: seq<string>)
    requires Separated(pat) && Fits(s, k, pat, caps)
    ensures k <= |s| && Match(s, k, pat).Some? && AtLeastAsGreedy(Match(s, k, pat).value, caps)
    decreases pat
  {
    match pat
    case Lit(x, rest) =>
      MatchComplete(s, k + |x|, rest, caps);
    case Run(cls, rest) =>
      var x := caps[0];
      var e := k + |x|;
      RunStops(s, e, cls, rest, caps[1..]);
      forall j | k <= j < e ensures cls(s[j]) {
        assert s[k + (j - k)] == x[j - k];
      }
      RunEndIs(s, k, e, cls);
      MatchComplete(s, e, rest, caps[1..]);
      OccursAtSlice(s, x, k);
      GreedyCons(x, Match(s, e, rest).value, caps);
    case LabelClose =>
      LabelComplete(s, k, caps[0]);
  }

  /** What follows a run of `cls` in a match starts with a character outside `cls`. */
  lemma RunStops(s: string, e: nat, cls: char -> bool, next: Pattern, caps: seq<string>)
    requires StopsRun(cls, next) && Fits(s, e, next, caps)
    ensures e < |s| && !cls(s[e])
  {
    match next
    case Lit(x, _) =>
      assert s[e + 0] == x[0];
    case Run(_, _) =>
      assert s[e + 0] == caps[0][0];
    case LabelClose =>
      assert s[e + 0] == caps[0][0];
  }

  lemma GreedyCons(x: string, got: seq<string>, caps: seq<string>)
    requires |caps| > 0 && caps[0] == x && AtLeastAsGreedy(got, caps[1..])
    ensures AtLeastAsGreedy([x] + got, caps)
  {
    forall i | 0 <= i < |caps| - 1 ensures ([x] + got)[i] == caps[i] {
      if i > 0 {
        assert ([x] + got)[i] == got[i - 1] && caps[1..][i - 1] == caps[i];
      }
    }
    assert ([x] + got)[|got|] == got[|got| - 1] && caps[1..][|got| - 1] == caps[|caps| - 1];
  }

  /** Where a label followed by ` }` lies at `h`, the matcher takes a label at least as long. */
  lemma LabelComplete(s: string, h: nat, fileLabel: string)
    requires IsDotRun(fileLabel) && OccursAt(s, fileLabel, h) && OccursAt(s, " }", h + |fileLabel|)
    ensures h <= |s| && Match(s, h, LabelClose).Some?
    ensures AtLeastAsGreedy(Match(s, h, LabelClose).value, [fileLabel])
  {
    var z0 := h + |fileLabel|;
    assert s[z0 + 0] == " }"[0] && s[z0 + 1] == " }"[1];
    forall j | h <= j < z0 + 2 ensures IsRegexDot(s[j]) {
      if j < z0 {
        assert s[h + (j - h)] == fileLabel[j - h];
      }
    }
    RunEndAtLeast(s, h, z0 + 2, IsRegexDot);
    LastCloseSpec(s, h + 1, RunEnd(s, h, IsRegexDot));
  }

  /**
   * A pattern fits at most one way once the length of every recorded string is fixed:
   * two matches at one index with equally long runs and labels are the same match.
   */
  lemma {:induction false} FitsUnique(s: string, k: nat, pat: Pattern, c1: seq<string>, c2: seq<string>)
    requires Fits(s, k, pat, c1) && Fits(s, k, pat, c2)
    requires |c1| == |c2| && forall i :: 0 <= i < |c1| ==> |c1[i]| == |c2[i]|
    ensures c1 == c2
    decreases pat
  {
    match pat
    case Lit(x, rest) =>
      FitsUnique(s, k + |x|, rest, c1, c2);
    case Run(_, rest) =>
      OccursAtSlice(s, c1[0], k);
      OccursAtSlice(s, c2[0], k);
      forall i | 0 <= i < |c1| - 1 ensures |c1[1..][i]| == |c2[1..][i]| {
        assert c1[1..][i] == c1[i + 1] && c2[1..][i] == c2[i + 1];
      }
      FitsUnique(s, k + |c1[0]|, rest, c1[1..], c2[1..]);
      assert c1 == [c1[0]] + c1[1..] && c2 == [c2[0]] + c2[1..];
    case LabelClose =>
      OccursAtSlice(s, c1[0], k);
      OccursAtSlice(s, c2[0], k);
  }

  // ---------------------------------------------------------------------------
  // The pattern of the trace format

  /**
   * A match of `TaintPattern` cut at its quantifiers: the three white-space runs, the
   * two digit groups and the label group.
   */
  datatype Parts = Parts(ws1: string, lnDigits: string, ws2: string, clDigits: string, ws3: string, fileLabel: string)

  /** The strings a match with these parts records, in pattern order. */
  function Captures(p: Parts): (caps: seq<string>)
    ensures |caps| == 6 && caps[1] == p.lnDigits && caps[3] == p.clDigits && caps[5] == p.fileLabel
  {
    [p.ws1, p.lnDigits, p.ws2, p.clDigits, p.ws3, p.fileLabel]
  }

  /** The parts of a match recording `caps`. */
  function PartsOf(caps: seq<string>): (p: Parts)
    requires |caps| == 6
    ensures Captures(p) == caps
  {
    Parts(caps[0], caps[1], caps[2], caps[3], caps[4], caps[5])
  }

  /** `\s+` */
  predicate IsSpaceRun(x: string) {
    |x| > 0 && All(x, IsWhiteSpace)
  }

  /** `\d+` */
  predicate IsDigitRun(x: string) {
    |x| > 0 && All(x, IsDigit)
  }

  /** Each quantified part holds what its sub-pattern accepts. */
  predicate Shaped(p: Parts) {
    && IsSpaceRun(p.ws1) && IsDigitRun(p.lnDigits) && IsSpaceRun(p.ws2)
    && IsDigitRun(p.clDigits) && IsSpaceRun(p.ws3) && IsDotRun(p.fileLabel)
  }

  /**
   * The text a match with these parts covers:
   * `"{ ln:" + ws1 + lnDigits + ws2 + "cl: " + clDigits + ws3 + "fl: " + fileLabel + " }"`.
   */
  function Covered(p: Parts): string {
    "{ ln:" + (p.ws1 + (p.lnDigits + (p.ws2 + ("cl: " + (p.clDigits + (p.ws3 + ("fl: " + (p.fileLabel + " }"))))))))
  }

  /**
   * The pattern matches `s` at index `i`, with these parts: each part holds what its
   * sub-pattern accepts, and the text they spell out together occurs at `i`.
   */
  predicate MatchesAt(s: string, i: nat, p: Parts) {
    Shaped(p) && OccursAt(s, Covered(p), i)
  }

  /**
   * The match `exec` reports: no match starts further left, and no match starting at
   * the same index has a longer label.
   */
  ghost predicate IsExecMatch(s: string, i: nat, p: Parts) {
    && MatchesAt(s, i, p)
    && forall j: nat, q: Parts :: MatchesAt(s, j, q) ==> i < j || (i == j && |q.fileLabel| <= |p.fileLabel|)
  }

  /**
   * The record built from a match: both digit groups through `parseInt`, the label
   * verbatim. Digits without a redundant leading zero print back as themselves.
   */
  function AnchorOf(p: Parts): (a: TraceAnchor)
    requires Shaped(p)
    ensures a.fl == p.fileLabel
    ensures IsCanonicalDecimal(p.lnDigits) ==> NumberToString(a.ln) == p.lnDigits
    ensures IsCanonicalDecimal(p.clDigits) ==> NumberToString(a.cl) == p.clDigits
  {
    DigitsPrintBack(p.lnDigits);
    DigitsPrintBack(p.clDigits);
    TraceAnchor(ParseInt(p.lnDigits), ParseInt(p.clDigits), p.fileLabel)
  }

  lemma DigitsPrintBack(x: string)
    requires IsDigitRun(x)
    ensures IsCanonicalDecimal(x) ==> NumberToString(ParseInt(x)) == x
  {
    if IsCanonicalDecimal(x) {
      NumberToStringOfParseInt(x);
    }
  }

  /** `TaintPattern` records six strings. */
  lemma TaintArity()
    ensures Arity(TaintPattern) == 6
  {
    var p6 := Run(IsDigit, Run(IsWhiteSpace, Lit("fl: ", LabelClose)));
    assert Arity(Run(IsWhiteSpace, Lit("fl: ", LabelClose))) == 2;
    assert Arity(p6) == 3;
    var p2 := Run(IsWhiteSpace, Run(IsDigit, Run(IsWhiteSpace, Lit("cl: ", p6))));
    assert Arity(Run(IsWhiteSpace, Lit("cl: ", p6))) == 4;
    assert Arity(p2) == 6;
    assert TaintPattern == Lit("{ ln:", p2);
  }

  /** In `TaintPattern`, every run is stopped by what follows it. */
  lemma TaintSeparated()
    ensures Separated(TaintPattern)
  {
    forall c | IsDigit(c) ensures !IsWhiteSpace(c) {
      PrintableIsNotWhiteSpace(c);
    }
    forall c | IsWhiteSpace(c) ensures !IsDigit(c) {
      WhiteSpaceIsNotPrintable(c);
    }
    PrintableIsNotWhiteSpace('c');
    PrintableIsNotWhiteSpace('f');
    var p8 := Lit("fl: ", LabelClose);
    var p6 := Run(IsDigit, Run(IsWhiteSpace, p8));
    assert Separated(Run(IsWhiteSpace, p8));
    assert Separated(p6);
    var p4 := Run(IsWhiteSpace, Lit("cl: ", p6));
    assert Separated(p4);
    var p2 := Run(IsWhiteSpace, Run(IsDigit, p4));
    assert Separated(Run(IsDigit, p4));
    assert Separated(p2);
    assert TaintPattern == Lit("{ ln:", p2);
  }

  // ---------------------------------------------------------------------------
  // A fitting pattern spells out a text

  /** The text a match of `pat` recording `caps` covers. */
  function Spelled(pat: Pattern, caps: seq<string>): string
    requires |caps| == Arity(pat)
    decreases pat
  {
    match pat
    case Lit(x, rest) => x + Spelled(rest, caps)
    case Run(_, rest) => caps[0] + Spelled(rest, caps[1..])
    case LabelClose => caps[0] + " }"
  }

  /** Each recorded string holds what its run or label accepts. */
  predicate Accepts(pat: Pattern, caps: seq<string>)
    requires |caps| == Arity(pat)
    decreases pat
  {
    match pat
    case Lit(_, rest) => Accepts(rest, caps)
    case Run(cls, rest) => |caps[0]| > 0 && All(caps[0], cls) && Accepts(rest, caps[1..])
    case LabelClose => IsDotRun(caps[0])
  }

  lemma OccursSplit(s: string, i: nat, x: string, y: string)
    requires OccursAt(s, x + y, i)
    ensures OccursAt(s, x, i) && OccursAt(s, y, i + |x|)
  {
    forall j | 0 <= j < |x| ensures s[i + j] == x[j] {
      assert (x + y)[j] == x[j];
    }
    forall j | 0 <= j < |y| ensures s[i + |x| + j] == y[j] {
      assert (x + y)[|x| + j] == y[j];
    }
  }

  lemma OccursJoin(s: string, i: nat, x: string, y: string)
    requires OccursAt(s, x, i) && OccursAt(s, y, i + |x|)
    ensures OccursAt(s, x + y, i)
  {
    forall j | 0 <= j < |x + y| ensures s[i + j] == (x + y)[j] {
      if j >= |x| {
        assert s[i + |x| + (j - |x|)] == y[j - |x|];
      }
    }
  }

  /**
   * A pattern fits at `k` exactly when the recorded strings are of the right kinds and
   * the text they spell out with the literals occurs at `k`.
   */
  lemma {:induction false} FitsSpelled(s: string, k: nat, pat: Pattern, caps: seq<string>)
    ensures Fits(s, k, pat, caps) <==>
      |caps| == Arity(pat) && Accepts(pat, caps) && OccursAt(s, Spelled(pat, caps), k)
    decreases pat
  {
    match pat
    case Lit(x, rest) =>
      FitsSpelled(s, k + |x|, rest, caps);
      if |caps| == Arity(pat) && OccursAt(s, Spelled(pat, caps), k) {
        OccursSplit(s, k, x, Spelled(rest, caps));
      }
      if Fits(s, k, pat, caps) {
        OccursJoin(s, k, x, Spelled(rest, caps));
      }
    case Run(cls, rest) =>
      if |caps| > 0 {
        var x := caps[0];
        FitsSpelled(s, k + |x|, rest, caps[1..]);
        if |caps| == Arity(pat) && OccursAt(s, Spelled(pat, caps), k) {
          OccursSplit(s, k, x, Spelled(rest, caps[1..]));
        }
        if Fits(s, k, pat, caps) {
          OccursJoin(s, k, x, Spelled(rest, caps[1..]));
        }
      }
    case LabelClose =>
      if |caps| == 1 {
        if OccursAt(s, Spelled(pat, caps), k) {
          OccursSplit(s, k, caps[0], " }");
        }
        if Fits(s, k, pat, caps) {
          OccursJoin(s, k, caps[0], " }");
        }
      }
  }

  /** The tail of `TaintPattern` from `cl: ` on. */
  function ColumnPattern(): (pat: Pattern)
    ensures Arity(pat) == 3
    ensures TaintPattern == Lit("{ ln:", Run(IsWhiteSpace, Run(IsDigit, Run(IsWhiteSpace, pat))))
  {
    var p7 := Run(IsWhiteSpace, Lit("fl: ", LabelClose));
    assert Arity(p7) == 2;
    Lit("cl: ", Run(IsDigit, p7))
  }

  /** For `TaintPattern`, being of the right kinds is `Shaped`. */
  lemma TaintAccepts(p: Parts)
    ensures Arity(TaintPattern) == 6
    ensures Accepts(TaintPattern, Captures(p)) <==> Shaped(p)
  {
    TaintArity();
    var p8 := Lit("fl: ", LabelClose);
    var p7 := Run(IsWhiteSpace, p8);
    var p5 := ColumnPattern();
    var p3 := Run(IsDigit, Run(IsWhiteSpace, p5));
    var c := Captures(p);
    var c3 := [p.clDigits, p.ws3, p.fileLabel];
    assert c[1..][1..][1..] == c3;
    assert c3[1..][1..] == [p.fileLabel];
    assert Accepts(p7, c3[1..]) <==> IsSpaceRun(p.ws3) && IsDotRun(p.fileLabel);
    assert Accepts(p5, c3) <==> IsDigitRun(p.clDigits) && IsSpaceRun(p.ws3) && IsDotRun(p.fileLabel);
    assert Accepts(p3, c[1..]) <==> IsDigitRun(p.lnDigits) && IsSpaceRun(p.ws2) && Accepts(p5, c3);
  }

  /** What the tail of `TaintPattern` spells out. */
  lemma ColumnSpelled(clDigits: string, ws3: string, fileLabel: string)
    ensures Spelled(ColumnPattern(), [clDigits, ws3, fileLabel])
         == "cl: " + (clDigits + (ws3 + ("fl: " + (fileLabel + " }"))))
  {
    var c3 := [clDigits, ws3, fileLabel];
    assert c3[1..][1..] == [fileLabel];
    var p7 := Run(IsWhiteSpace, Lit("fl: ", LabelClose));
    assert Spelled(p7, c3[1..]) == ws3 + ("fl: " + (fileLabel + " }"));
  }

  /** For `TaintPattern`, the text spelled out is `Covered`. */
  lemma TaintSpelled(p: Parts)
    ensures Arity(TaintPattern) == 6
    ensures Spelled(TaintPattern, Captures(p)) == Covered(p)
  {
    TaintArity();
    var p5 := ColumnPattern();
    var p3 := Run(IsDigit, Run(IsWhiteSpace, p5));
    var c := Captures(p);
    var c3 := [p.clDigits, p.ws3, p.fileLabel];
    var t3 := p.lnDigits + (p.ws2 + Spelled(p5, c3));
    assert Spelled(p3, c[1..]) == t3 by {
      assert c[1..][1..][1..] == c3;
    }
    assert Spelled(p5, c3) == "cl: " + (p.clDigits + (p.ws3 + ("fl: " + (p.fileLabel + " }")))) by {
      ColumnSpelled(p.clDigits, p.ws3, p.fileLabel);
    }
    assert Spelled(TaintPattern, c) == "{ ln:" + (p.ws1 + t3);
  }

  /** The declarative reading of a match and the pattern value agree. */
  lemma MatchesAtFits(s: string, i: nat, p: Parts)
    ensures MatchesAt(s, i, p) <==> Fits(s, i, TaintPattern, Captures(p))
  {
    TaintAccepts(p);
    TaintSpelled(p);
    FitsSpelled(s, i, TaintPattern, Captures(p));
  }

  // ---------------------------------------------------------------------------
  // exec

  /**
   * `exec` trying the pattern at index `i`: the match the engine finds there, if any,
   * which is a match of the pattern at `i`.
   */
  function MatchAt(s: string, i: nat): (r: Option<Parts>)
    ensures r.Some? ==> MatchesAt(s, i, r.value)
  {
    if i > |s| then None
    else
      TaintArity();
      match Match(s, i, TaintPattern)
      case None => None
      case Some(caps) =>
        MatchSound(s, i, TaintPattern);
        MatchesAtFits(s, i, PartsOf(caps));
        Some(PartsOf(caps))
  }

  /**
   * Wherever the pattern matches, the engine finds a match at the same index with the
   * same white space and digits and a label at least as long.
   */
  lemma MatchAtComplete(s: string, i: nat, p: Parts)
    requires MatchesAt(s, i, p)
    ensures i <= |s| && MatchAt(s, i).Some? && AtLeastAsGreedy(Captures(MatchAt(s, i).value), Captures(p))
  {
    MatchesAtFits(s, i, p);
    TaintSeparated();
    MatchComplete(s, i, TaintPattern, Captures(p));
  }

  /** Two matches at one index with runs and labels of equal lengths are one match. */
  lemma SameMatch(s: string, i: nat, p: Parts, q: Parts)
    requires MatchesAt(s, i, p) && MatchesAt(s, i, q)
    requires AtLeastAsGreedy(Captures(q), Captures(p)) && |p.fileLabel| == |q.fileLabel|
    ensures p == q
  {
    MatchesAtFits(s, i, p);
    MatchesAtFits(s, i, q);
    FitsUnique(s, i, TaintPattern, Captures(p), Captures(q));
  }

  /** `MatchAt` on `s`, as a function of the index. */
  function TryAt(s: string): nat -> Option<Parts> {
    (k: nat) => MatchAt(s, k)
  }

  /** The engine's scan: the first index from which the pattern matches, with its match. */
  function FirstMatch(s: string): (r: Option<(nat, Parts)>)
    ensures r.Some? ==> MatchesAt(s, r.value.0, r.value.1)
  {
    FirstSome(TryAt(s), 0, |s|)
  }

  /** The scan tries every index in order and stops at the first that matches. */
  lemma FirstMatchIsLeftmost(s: string)
    ensures FirstMatch(s).Some? ==> MatchAt(s, FirstMatch(s).value.0) == Some(FirstMatch(s).value.1)
    ensures FirstMatch(s).Some? ==> forall k: nat :: k < FirstMatch(s).value.0 ==> MatchAt(s, k).None?
    ensures FirstMatch(s).None? ==> forall k: nat :: MatchAt(s, k).None?
  {
    var r := FirstSome(TryAt(s), 0, |s|);
    FirstSomeIsFirst(TryAt(s), 0, |s|);
    if r.Some? {
      forall k: nat | k < r.value.0 ensures MatchAt(s, k).None? {
        assert TryAt(s)(k).None?;
      }
    } else {
      forall k: nat ensures MatchAt(s, k).None? {
        if k <= |s| {
          assert TryAt(s)(k).None?;
        }
      }
    }
  }

  /**
   * `convertTextToJson(text)`: `exec` the pattern on the text; `null` when it does not
   * match, otherwise the record built from the three groups.
   */
  function ConvertTextToJson(text: string): (r: Option<TraceAnchor>)
    ensures r.Some? ==> exists i: nat, p: Parts :: MatchesAt(text, i, p) && r.value == AnchorOf(p)
  {
    match FirstMatch(text)
    case None => None
    case Some((_, p)) => Some(AnchorOf(p))
  }

  // ---------------------------------------------------------------------------
  // convertTextToJson against the pattern

  /** `convertTextToJson` returns a record exactly when the pattern matches somewhere in the text. */
  lemma ConvertTextToJsonFinds(text: string)
    ensures ConvertTextToJson(text).Some? <==> exists i: nat, p: Parts :: MatchesAt(text, i, p)
  {
    FirstMatchIsLeftmost(text);
    if ConvertTextToJson(text).None? {
      forall i: nat, p: Parts | MatchesAt(text, i, p) ensures false {
        MatchAtComplete(text, i, p);
      }
    }
  }

  /**
   * The record `convertTextToJson` returns is the one built from the match `exec`
   * reports (leftmost start, longest label), and from no other.
   */
  lemma ConvertTextToJsonIsExecMatch(text: string, anchor: TraceAnchor)
    ensures ConvertTextToJson(text) == Some(anchor)
        <==> exists i: nat, p: Parts :: IsExecMatch(text, i, p) && anchor == AnchorOf(p)
  {
    FirstMatchIsLeftmost(text);
    match FirstMatch(text)
    case None =>
      forall i: nat, p: Parts | MatchesAt(text, i, p) ensures false {
        MatchAtComplete(text, i, p);
      }
    case Some((i, q)) =>
      forall j: nat, r: Parts | MatchesAt(text, j, r)
        ensures i < j || (i == j && |r.fileLabel| <= |q.fileLabel|)
      {
        MatchAtComplete(text, j, r);
      }
      assert IsExecMatch(text, i, q);
      forall j: nat, p: Parts | IsExecMatch(text, j, p) ensures p == q {
        MatchAtComplete(text, j, p);
        assert j == i;
        SameMatch(text, i, p, q);
      }
  }
}
