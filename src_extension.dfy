/**
 * The end-column policy and trace walker of `src/extension.ts`: `getLineLength` ignores
 * the column and returns the whole length of the anchor's line, and the region ends at
 * `cl + lineLength`. An anchor whose line is not in the file gets length 0, so its
 * region ends at `cl`, and it is still pushed.
 */
module SrcExtension {
  import opened Wrappers
  import opened JsString
  import opened TaintRegex
  import opened TaintTrace

  /**
   * `getLineLength(filePath, lineNumber)` over the file's text: the length of line
   * `lineNumber` (1-based), or 0 when there is no such line (`lines[lineNumber - 1]` is
   * `undefined`, reading its `length` throws and the `catch` returns 0). Never -1.
   */
  function GetLineLength(fileContent: string, lineNumber: nat): (r: int)
    ensures 0 <= r <= |fileContent|
    ensures 1 <= lineNumber <= |Lines(fileContent)| ==> r == |Lines(fileContent)[lineNumber - 1]|
    ensures !(1 <= lineNumber <= |Lines(fileContent)|) ==> r == 0
  {
    var lines := Lines(fileContent);
    if 1 <= lineNumber <= |lines| then
      LineFitsInText(lines, lineNumber - 1, "\n");
      |lines[lineNumber - 1]|
    else 0
  }

  /** No piece is longer than the text the pieces were joined into. */
  lemma {:induction false} LineFitsInText(pieces: seq<string>, i: nat, sep: string)
    requires i < |pieces|
    ensures |pieces[i]| <= |Join(pieces, sep)|
    decreases |pieces|
  {
    if i > 0 {
      LineFitsInText(pieces[1..], i - 1, sep);
    }
  }

  /** The decoration the loop pushes for a record. */
  function DecorationOf(fileContent: string, a: TraceAnchor): (d: Decoration)
    ensures d.range.startLine == d.range.endLine == a.ln - 1
    ensures d.range.startCharacter == a.cl - 1
    ensures d.range.endCharacter - d.range.startCharacter == GetLineLength(fileContent, a.ln) + 1
    ensures d.hoverMessage == HoverMessage(a)
  {
    Decoration(Range(a.ln - 1, a.cl - 1, a.ln - 1, a.cl + GetLineLength(fileContent, a.ln)), HoverMessage(a))
  }

  /** `DecorationOf` as the end-column policy handed to `Decorations`. */
  function Decorate(fileContent: string): TraceAnchor -> Decoration {
    (a: TraceAnchor) => DecorationOf(fileContent, a)
  }

  /**
   * `parseTaintFlowFile(taintFile, cFile)` with both files' contents passed in: one
   * decoration per piece that parses, in piece order.
   */
  method ParseTaintFlowFile(taintFlowData: string, fileContent: string) returns (taintPaths: seq<Decoration>)
    ensures taintPaths == Decorations(Anchors(Segments(taintFlowData)), Decorate(fileContent))
  {
    taintPaths := [];
    var pathSegments := Segments(taintFlowData);
    for i := 0 to |pathSegments|
      invariant taintPaths == Decorations(Anchors(pathSegments[..i]), Decorate(fileContent))
    {
      KeptStep(pathSegments, i, ParseSegment);
      DecorationsStep(Anchors(pathSegments[..i]), ToSeq(ParseSegment(pathSegments[i])), Decorate(fileContent));
      var pushed := DecorateSegment(pathSegments[i], fileContent);
      DecorationsOfOne(ParseSegment(pathSegments[i]), pushed, Decorate(fileContent));
      taintPaths := taintPaths + pushed;
    }
    assert pathSegments[..|pathSegments|] == pathSegments;
  }

  /**
   * One turn of the loop: the decoration pushed for a piece, if any. A piece that is not
   * brace-delimited after trimming is passed over, and one that does not match makes the
   * destructuring of `null` throw, which the `catch` swallows.
   */
  method DecorateSegment(piece: string, fileContent: string) returns (pushed: seq<Decoration>)
    ensures ParseSegment(piece).None? ==> pushed == []
    ensures ParseSegment(piece).Some? ==> |pushed| == 1 && pushed[0] == DecorationOf(fileContent, ParseSegment(piece).value)
  {
    pushed := [];
    var segment := Trim(piece);
    if IsBraced(segment) {
      var newsegment := ConvertTextToJson(segment);
      if newsegment.Some? {
        var TraceAnchor(ln, cl, fl) := newsegment.value;
        var linelen := GetLineLength(fileContent, ln);
        // The `linelen === -1` branch cannot be taken.
        assert linelen != -1;
        var decoration := Decoration(
          Range(ln - 1, cl - 1, ln - 1, cl + linelen),
          "Tainted Path Segment: " + fl + ":" + NumberToString(ln) + ":" + NumberToString(cl));
        pushed := pushed + [decoration];
      }
    }
  }

  /** Every region is at least one character wide: it spans the line's length plus one. */
  lemma RegionWidth(fileContent: string, a: TraceAnchor)
    ensures var r := DecorationOf(fileContent, a).range;
      r.endCharacter - r.startCharacter >= 1
  {
  }

  /** A record whose line is not in the file still gets a region, ending at its own column. */
  lemma MissingLineEndsAtColumn(fileContent: string, a: TraceAnchor)
    requires !(1 <= a.ln <= |Lines(fileContent)|)
    ensures DecorationOf(fileContent, a).range == Range(a.ln - 1, a.cl - 1, a.ln - 1, a.cl)
  {
  }

  /**
   * The column only shifts a region: on the same line, two regions' ends lie exactly as
   * far apart as their columns.
   */
  lemma EndShiftsWithColumn(fileContent: string, a: TraceAnchor, b: TraceAnchor)
    requires a.ln == b.ln
    ensures DecorationOf(fileContent, a).range.endCharacter - DecorationOf(fileContent, b).range.endCharacter
         == a.cl - b.cl
  {
  }

  /** On a line of the file, a region whose column is at least 1 ends past the end of the line. */
  lemma RegionOvershootsLine(fileContent: string, a: TraceAnchor)
    requires 1 <= a.ln <= |Lines(fileContent)| && a.cl >= 1
    ensures DecorationOf(fileContent, a).range.endCharacter > |Lines(fileContent)[a.ln - 1]|
  {
  }
}
