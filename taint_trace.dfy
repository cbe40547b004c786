/**
 * The front half of `parseTaintFlowFile`, identical in `out/extension.js` and
 * `src/extension.ts`: the trace text is split on `-->`, each piece is trimmed, a piece
 * that starts with `{` and ends with `}` goes through `convertTextToJson`, and a `null`
 * result makes the destructuring throw, so the `catch` skips that piece. What reaches
 * the end-column computation is, in segment order, the records of the pieces that parse.
 * The two end-column policies live in `OutExtension` and `SrcExtension`.
 */
module TaintTrace {
  import opened Wrappers
  import opened JsString
  import opened TaintRegex

  /** The four numbers given to `new vscode.Range(startLine, startCharacter, endLine, endCharacter)`. */
  datatype Range = Range(startLine: int, startCharacter: int, endLine: int, endCharacter: int)

  /** One `vscode.DecorationOptions` pushed onto `taintPaths`. */
  datatype Decoration = Decoration(range: Range, hoverMessage: string)

  /** The separator between the steps of a taint path. */
  const Arrow: string := "-->"

  /** The opening of every hover text. */
  const HoverPrefix: string := "Tainted Path Segment: "

  /** `taintFlowData.split('-->')`: the pieces between arrows, which put back together give the text. */
  function Segments(taintFlowData: string): (segs: seq<string>)
    ensures |segs| >= 1 && Join(segs, Arrow) == taintFlowData
    ensures forall i :: 0 <= i < |segs| ==> Free(segs[i], Arrow)
  {
    SplitJoin(taintFlowData, Arrow);
    Split(taintFlowData, Arrow)
  }

  /** `fileContent.split('\n')`: the lines of the source file, none holding a newline. */
  function Lines(fileContent: string): (lines: seq<string>)
    ensures |lines| >= 1 && Join(lines, "\n") == fileContent
    ensures forall i :: 0 <= i < |lines| ==> Free(lines[i], "\n")
  {
    SplitJoin(fileContent, "\n");
    Split(fileContent, "\n")
  }

  /** `segment.startsWith('{') && segment.endsWith('}')` */
  predicate IsBraced(segment: string): (b: bool)
    ensures b <==> |segment| > 0 && segment[0] == '{' && segment[|segment| - 1] == '}'
  {
    StartsWith(segment, "{") && EndsWith(segment, "}")
  }

  /**
   * One piece through the loop's filter and parse: `None` when the trimmed piece is not
   * brace-delimited or when `convertTextToJson` returns `null` (the `catch` path).
   */
  function ParseSegment(piece: string): (r: Option<TraceAnchor>)
    ensures r.Some? ==> IsBraced(Trim(piece)) && ConvertTextToJson(Trim(piece)) == r
  {
    var segment := Trim(piece);
    if IsBraced(segment) then ConvertTextToJson(segment) else None
  }

  /**
   * A piece yields a record exactly when, once trimmed, it is brace-delimited and the
   * pattern matches in it, and the record is the one of the match `exec` reports.
   */
  lemma ParseSegmentSpec(piece: string, anchor: TraceAnchor)
    ensures ParseSegment(piece).Some?
        <==> IsBraced(Trim(piece)) && exists i: nat, p: Parts :: MatchesAt(Trim(piece), i, p)
    ensures ParseSegment(piece) == Some(anchor)
        <==> && IsBraced(Trim(piece))
             && exists i: nat, p: Parts :: IsExecMatch(Trim(piece), i, p) && anchor == AnchorOf(p)
  {
    ConvertTextToJsonFinds(Trim(piece));
    ConvertTextToJsonIsExecMatch(Trim(piece), anchor);
  }

  // ---------------------------------------------------------------------------
  // The hover text

  /** `Tainted Path Segment: ${fl}:${ln}:${cl}` */
  function HoverMessage(a: TraceAnchor): (h: string)
    ensures StartsWith(h, HoverPrefix)
  {
    HoverPrefix + a.fl + ":" + NumberToString(a.ln) + ":" + NumberToString(a.cl)
  }

  /**
   * Cuts `rest:digits` at the colon before its trailing digits, giving `rest` and the
   * value of the digits.
   */
  function NumberSuffix(s: string): (r: Option<(string, nat)>)
    ensures r.Some? ==> |r.value.0| < |s|
  {
    var b := RunStart(s, |s|, IsDigit);
    if b == |s| || b == 0 || s[b - 1] != ':' then None
    else
      RunStartSpec(s, |s|, IsDigit);
      assert All(s[b..], IsDigit) by {
        forall k | 0 <= k < |s[b..]| ensures IsDigit(s[b..][k]) {
          assert s[b..][k] == s[b + k];
        }
      }
      Some((s[..b - 1], ParseInt(s[b..])))
  }

  lemma NumberSuffixOf(rest: string, n: nat)
    ensures NumberSuffix(rest + ":" + NumberToString(n)) == Some((rest, n))
  {
    var d := NumberToString(n);
    var s := rest + ":" + d;
    var b := |rest| + 1;
    assert forall j :: b <= j < |s| ==> s[j] == d[j - b];
    RunStartIs(s, |s|, b, IsDigit);
    assert s[..b - 1] == rest && s[b..] == d;
    ParseIntOfNumberToString(n);
  }

  /** Reads a hover text back: the label is everything up to the colon before the line number. */
  function DecodeHover(h: string): (r: Option<TraceAnchor>)
    ensures r.Some? ==> StartsWith(h, HoverPrefix)
  {
    if !StartsWith(h, HoverPrefix) then None
    else
      match NumberSuffix(h[|HoverPrefix|..])
      case None => None
      case Some((front, cl)) =>
        match NumberSuffix(front)
        case None => None
        case Some((fl, ln)) => Some(TraceAnchor(ln, cl, fl))
  }

  /**
   * The hover text loses nothing: the label, which may itself hold colons and digits,
   * and both numbers come back from it.
   */
  lemma HoverMessageRoundTrip(a: TraceAnchor)
    ensures DecodeHover(HoverMessage(a)) == Some(a)
  {
    var h := HoverMessage(a);
    var ln := NumberToString(a.ln);
    assert h[|HoverPrefix|..] == a.fl + ":" + ln + ":" + NumberToString(a.cl);
    NumberSuffixOf(a.fl + ":" + ln, a.cl);
    NumberSuffixOf(a.fl, a.ln);
  }

  /** Two segments with the same hover text have the same record. */
  lemma HoverMessageInjective(a: TraceAnchor, b: TraceAnchor)
    ensures HoverMessage(a) == HoverMessage(b) <==> a == b
  {
    if HoverMessage(a) == HoverMessage(b) {
      HoverMessageRoundTrip(a);
      HoverMessageRoundTrip(b);
    }
  }

  // ---------------------------------------------------------------------------
  // The records that reach the end-column computation

  /**
   * The loop's skip rule over any parse step: the values `parse` gives the pieces it
   * accepts, in piece order.
   */
  function Kept<T>(segs: seq<string>, parse: string -> Option<T>): (kept: seq<T>)
    ensures |kept| <= |segs|
  {
    if |segs| == 0 then []
    else Kept(segs[..|segs| - 1], parse) + ToSeq(parse(segs[|segs| - 1]))
  }

  /** The records of the pieces that parse, in piece order. */
  function Anchors(segs: seq<string>): (anchors: seq<TraceAnchor>)
    ensures |anchors| <= |segs|
  {
    Kept(segs, ParseSegment)
  }

  /** Taking one more piece adds what is kept from it. */
  lemma KeptStep<T>(segs: seq<string>, i: nat, parse: string -> Option<T>)
    requires i < |segs|
    ensures Kept(segs[..i + 1], parse) == Kept(segs[..i], parse) + ToSeq(parse(segs[i]))
  {
    assert segs[..i + 1][..i] == segs[..i];
  }

  /** The positions of the pieces `parse` accepts, in increasing order. */
  function KeptIndices<T>(segs: seq<string>, parse: string -> Option<T>): (idx: seq<nat>)
    ensures forall k :: 0 <= k < |idx| ==> idx[k] < |segs| && parse(segs[idx[k]]).Some?
    ensures forall k, m :: 0 <= k < m < |idx| ==> idx[k] < idx[m]
    ensures forall j :: 0 <= j < |segs| && parse(segs[j]).Some? ==> j in idx
  {
    if |segs| == 0 then []
    else
      var n := |segs| - 1;
      var front := segs[..n];
      var rest := KeptIndices(front, parse);
      assert forall j :: 0 <= j < n ==> front[j] == segs[j];
      if parse(segs[n]).Some? then rest + [n] else rest
  }

  /** The k-th kept value is the value of the k-th accepted piece. */
  lemma {:induction false} KeptFollowsSegments<T>(segs: seq<string>, parse: string -> Option<T>)
    ensures |Kept(segs, parse)| == |KeptIndices(segs, parse)|
    ensures forall k :: 0 <= k < |Kept(segs, parse)| ==>
      Some(Kept(segs, parse)[k]) == parse(segs[KeptIndices(segs, parse)[k]])
  {
    if |segs| > 0 {
      var n := |segs| - 1;
      var front := segs[..n];
      KeptFollowsSegments(front, parse);
      var kept, idx := Kept(front, parse), KeptIndices(front, parse);
      assert Kept(segs, parse) == kept + ToSeq(parse(segs[n]));
      assert KeptIndices(segs, parse) == if parse(segs[n]).Some? then idx + [n] else idx;
      forall k | 0 <= k < |kept|
        ensures Some(Kept(segs, parse)[k]) == parse(segs[KeptIndices(segs, parse)[k]])
      {
        assert Kept(segs, parse)[k] == kept[k];
        assert KeptIndices(segs, parse)[k] == idx[k];
        assert segs[idx[k]] == front[idx[k]];
      }
    }
  }

  /** What is kept from a concatenation of piece lists is the concatenation of what is kept from each. */
  lemma {:induction false} KeptAppend<T>(xs: seq<string>, ys: seq<string>, parse: string -> Option<T>)
    ensures Kept(xs + ys, parse) == Kept(xs, parse) + Kept(ys, parse)
    decreases |ys|
  {
    if ys == [] {
      assert xs + ys == xs;
    } else {
      var n := |ys| - 1;
      KeptAppend(xs, ys[..n], parse);
      assert (xs + ys)[..|xs + ys| - 1] == xs + ys[..n];
      assert (xs + ys)[|xs + ys| - 1] == ys[n];
      calc {
        Kept(xs + ys, parse);
        Kept(xs + ys[..n], parse) + ToSeq(parse(ys[n]));
        Kept(xs, parse) + Kept(ys[..n], parse) + ToSeq(parse(ys[n]));
        Kept(xs, parse) + (Kept(ys[..n], parse) + ToSeq(parse(ys[n])));
        Kept(xs, parse) + Kept(ys, parse);
      }
    }
  }

  /** A piece that is not accepted leaves no trace and does not disturb the others. */
  lemma SkippedSegmentIsInvisible<T>(xs: seq<string>, piece: string, ys: seq<string>, parse: string -> Option<T>)
    requires parse(piece).None?
    ensures Kept(xs + [piece] + ys, parse) == Kept(xs + ys, parse)
  {
    KeptAppend(xs + [piece], ys, parse);
    KeptAppend(xs, [piece], parse);
    KeptAppend(xs, ys, parse);
    KeptSingle(piece, parse);
  }

  /** An accepted piece contributes its value between those of the pieces around it. */
  lemma ParsedSegmentIsKept<T>(xs: seq<string>, piece: string, ys: seq<string>, parse: string -> Option<T>, v: T)
    requires parse(piece) == Some(v)
    ensures Kept(xs + [piece] + ys, parse) == Kept(xs, parse) + [v] + Kept(ys, parse)
  {
    KeptAppend(xs + [piece], ys, parse);
    KeptAppend(xs, [piece], parse);
    KeptSingle(piece, parse);
  }

  lemma KeptSingle<T>(piece: string, parse: string -> Option<T>)
    ensures Kept([piece], parse) == ToSeq(parse(piece))
  {
    assert [piece][..0] == [];
  }

  /** Nothing is kept exactly when no piece is accepted. */
  lemma NothingKeptIffNothingParses<T>(segs: seq<string>, parse: string -> Option<T>)
    ensures Kept(segs, parse) == [] <==> forall j :: 0 <= j < |segs| ==> parse(segs[j]).None?
  {
    KeptFollowsSegments(segs, parse);
    if exists j :: 0 <= j < |segs| && parse(segs[j]).Some? {
      var j :| 0 <= j < |segs| && parse(segs[j]).Some?;
      assert j in KeptIndices(segs, parse);
    }
  }

  /** An empty trace file yields no record. */
  lemma EmptyTraceHasNoAnchors()
    ensures Anchors(Segments("")) == []
  {
    EmptyTraceIsOneSegment();
    EmptySegmentIsSkipped();
    assert Anchors([""]) == Kept([], ParseSegment) + ToSeq(ParseSegment(""));
  }

  lemma EmptyTraceIsOneSegment()
    ensures Segments("") == [""]
  {
    assert IndexOf("", Arrow, 0) == -1;
  }

  lemma EmptySegmentIsSkipped()
    ensures ParseSegment("").None?
  {
    assert Trim("") == "";
    assert !StartsWith("", "{");
  }

  // ---------------------------------------------------------------------------
  // The list the loop pushes onto

  /**
   * The decorations of a list of records, one each, in the same order; `decorate` is the
   * end-column policy of one build.
   */
  function Decorations(anchors: seq<TraceAnchor>, decorate: TraceAnchor -> Decoration): (ds: seq<Decoration>)
    ensures |ds| == |anchors|
    ensures forall k :: 0 <= k < |ds| ==> ds[k] == decorate(anchors[k])
  {
    if |anchors| == 0 then []
    else Decorations(anchors[..|anchors| - 1], decorate) + [decorate(anchors[|anchors| - 1])]
  }

  /** Pushing the decorations of zero or one more record appends them after the earlier ones. */
  lemma DecorationsStep(anchors: seq<TraceAnchor>, extra: seq<TraceAnchor>, decorate: TraceAnchor -> Decoration)
    requires |extra| <= 1
    ensures Decorations(anchors + extra, decorate) == Decorations(anchors, decorate) + Decorations(extra, decorate)
  {
    if |extra| == 1 {
      assert (anchors + extra)[..|anchors + extra| - 1] == anchors;
    } else {
      assert anchors + extra == anchors;
    }
  }

  /** One turn of the loop pushes the decoration of the piece's record, or nothing. */
  lemma DecorationsOfOne(o: Option<TraceAnchor>, pushed: seq<Decoration>, decorate: TraceAnchor -> Decoration)
    requires o.None? ==> pushed == []
    requires o.Some? ==> |pushed| == 1 && pushed[0] == decorate(o.value)
    ensures pushed == Decorations(ToSeq(o), decorate)
  {
  }
}
