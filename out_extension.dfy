/**
 * The end-column policy and trace walker of `out/extension.js`: a region runs from the
 * anchor's column to the first space or newline found at or after 0-based offset `cl`
 * (the 1-based column used as an offset), or to the end of the line when there is none.
 * An anchor whose line is not in the file gets end column 0, and its region is still
 * pushed.
 */
module OutExtension {
  import opened Wrappers
  import opened JsString
  import opened TaintRegex
  import opened TaintTrace

  /** The characters the word-end search stops at. */
  predicate IsBreak(c: char) {
    c == ' ' || c == '\n'
  }

  /** `s.indexOf(c)` for a one-character pattern: the first index holding `c`, or -1. */
  lemma IndexOfChar(s: string, c: char)
    ensures var r := IndexOf(s, [c], 0);
      && (r == -1 <==> forall j :: 0 <= j < |s| ==> s[j] != c)
      && (r != -1 ==> r < |s| && s[r] == c && forall j :: 0 <= j < r ==> s[j] != c)
  {
    var r := IndexOf(s, [c], 0);
    forall j | 0 <= j < |s| ensures OccursAt(s, [c], j) <==> s[j] == c {
      assert [c][0] == c;
    }
  }

  /**
   * `getPreviousSpaceOrNewlinePosition(text, startPosition)`: despite its name, the first
   * index at or after `startPosition` holding a space or a newline, or -1 when there is
   * none (also when `startPosition` is past the end, since `substring` clamps it).
   */
  function GetPreviousSpaceOrNewlinePosition(text: string, startPosition: nat): (r: int)
    ensures r == -1 <==> forall j :: startPosition <= j < |text| ==> !IsBreak(text[j])
    ensures r != -1 ==> startPosition <= r < |text| && IsBreak(text[r])
    ensures r != -1 ==> forall j :: startPosition <= j < r ==> !IsBreak(text[j])
  {
    var from := if startPosition <= |text| then startPosition else |text|;
    var substring := text[from..];
    var spaceIndex := IndexOf(substring, " ", 0);
    var newlineIndex := IndexOf(substring, "\n", 0);
    IndexOfChar(substring, ' ');
    IndexOfChar(substring, '\n');
    assert forall j :: 0 <= j < |substring| ==> substring[j] == text[from + j];
    if spaceIndex == -1 && newlineIndex == -1 then
      assert forall j :: startPosition <= j < |text| ==> substring[j - from] == text[j];
      -1
    else if spaceIndex == -1 then startPosition + newlineIndex
    else if newlineIndex == -1 then startPosition + spaceIndex
    else startPosition + if spaceIndex <= newlineIndex then spaceIndex else newlineIndex
  }

  /**
   * `e` is where the word search from offset `from` ends on `line`: the first space at or
   * after `from`, or the end of the line when no space follows.
   */
  predicate IsWordEnd(line: string, from: nat, e: int) {
    || (from <= e < |line| && line[e] == ' ' && forall j :: from <= j < e ==> line[j] != ' ')
    || (e == |line| && forall j :: from <= j < |line| ==> line[j] != ' ')
  }

  /** A line of `fileContent.split('\n')` holds no newline. */
  lemma LineHasNoNewline(fileContent: string, i: nat)
    requires i < |Lines(fileContent)|
    ensures forall j :: 0 <= j < |Lines(fileContent)[i]| ==> Lines(fileContent)[i][j] != '\n'
  {
    var line := Lines(fileContent)[i];
    forall j | 0 <= j < |line| ensures line[j] != '\n' {
      assert !OccursAt(line, "\n", j);
      assert line[j..j + 1] == [line[j]];
    }
  }

  /**
   * `getLineLength(filePath, lineNumber, columnNumber)` over the file's text: on line
   * `lineNumber` (1-based), where the word search from offset `columnNumber` ends; 0 when
   * there is no such line (`lines[lineNumber - 1]` is `undefined`, the access throws and
   * the `catch` returns 0). Never -1.
   */
  function GetLineLength(fileContent: string, lineNumber: nat, columnNumber: nat): (r: int)
    ensures r >= 0
    ensures 1 <= lineNumber <= |Lines(fileContent)| ==>
      IsWordEnd(Lines(fileContent)[lineNumber - 1], columnNumber, r)
    ensures !(1 <= lineNumber <= |Lines(fileContent)|) ==> r == 0
  {
    var lines := Lines(fileContent);
    if 1 <= lineNumber <= |lines| then
      var line := lines[lineNumber - 1];
      LineHasNoNewline(fileContent, lineNumber - 1);
      var posi := GetPreviousSpaceOrNewlinePosition(line, columnNumber);
      if posi != -1 then posi else |line|
    else 0
  }

  /** The decoration the loop pushes for a record. */
  function DecorationOf(fileContent: string, a: TraceAnchor): (d: Decoration)
    ensures d.range.startLine == d.range.endLine == a.ln - 1
    ensures d.range.startCharacter == a.cl - 1 && d.range.endCharacter >= 0
    ensures 1 <= a.ln <= |Lines(fileContent)| ==>
      IsWordEnd(Lines(fileContent)[a.ln - 1], a.cl, d.range.endCharacter)
    ensures !(1 <= a.ln <= |Lines(fileContent)|) ==> d.range.endCharacter == 0
    ensures d.hoverMessage == HoverMessage(a)
  {
    Decoration(Range(a.ln - 1, a.cl - 1, a.ln - 1, GetLineLength(fileContent, a.ln, a.cl)), HoverMessage(a))
  }

  /** `DecorationOf` as the end-column policy handed to `Decorations`. */
  function Decorate(fileContent: string): TraceAnchor -> Decoration {
    (a: TraceAnchor) => DecorationOf(fileContent, a)
  }

  /**
   * `parseTaintFlowFile(taintFile, cFile)` with both files' contents passed in: one
   * decoration per piece that parses, in piece order.
   */
  method ParseTaintFlowFile(taintFlowData: string, fileContent: string) returns (taintPaths: seq<Decoration>)
    ensures taintPaths == Decorations(Anchors(Segments(taintFlowData)), Decorate(fileContent))
  {
    taintPaths := [];
    var pathSegments := Segments(taintFlowData);
    for i := 0 to |pathSegments|
      invariant taintPaths == Decorations(Anchors(pathSegments[..i]), Decorate(fileContent))
    {
      KeptStep(pathSegments, i, ParseSegment);
      DecorationsStep(Anchors(pathSegments[..i]), ToSeq(ParseSegment(pathSegments[i])), Decorate(fileContent));
      var pushed := DecorateSegment(pathSegments[i], fileContent);
      DecorationsOfOne(ParseSegment(pathSegments[i]), pushed, Decorate(fileContent));
      taintPaths := taintPaths + pushed;
    }
    assert pathSegments[..|pathSegments|] == pathSegments;
  }

  /**
   * One turn of the loop: the decoration pushed for a piece, if any. A piece that is not
   * brace-delimited after trimming is passed over, and one that does not match makes the
   * destructuring of `null` throw, which the `catch` swallows.
   */
  method DecorateSegment(piece: string, fileContent: string) returns (pushed: seq<Decoration>)
    ensures ParseSegment(piece).None? ==> pushed == []
    ensures ParseSegment(piece).Some? ==> |pushed| == 1 && pushed[0] == DecorationOf(fileContent, ParseSegment(piece).value)
  {
    pushed := [];
    var segment := Trim(piece);
    if IsBraced(segment) {
      var newsegment := ConvertTextToJson(segment);
      if newsegment.Some? {
        var TraceAnchor(ln, cl, fl) := newsegment.value;
        var linelen := GetLineLength(fileContent, ln, cl);
        // The `linelen === -1` branch cannot be taken.
        assert linelen != -1;
        var decoration := Decoration(
          Range(ln - 1, cl - 1, ln - 1, linelen),
          "Tainted Path Segment: " + fl + ":" + NumberToString(ln) + ":" + NumberToString(cl));
        pushed := pushed + [decoration];
      }
    }
  }

  /**
   * On a line of the file, the region is non-empty exactly when the column lies on the
   * line, empty when it is one past the end, and reversed (end before start) beyond that.
   */
  lemma RegionDirection(fileContent: string, a: TraceAnchor)
    requires 1 <= a.ln <= |Lines(fileContent)|
    ensures var line := Lines(fileContent)[a.ln - 1]; var r := DecorationOf(fileContent, a).range;
      && (r.endCharacter > r.startCharacter <==> a.cl <= |line|)
      && (r.endCharacter == r.startCharacter <==> a.cl == |line| + 1)
      && (r.endCharacter < r.startCharacter <==> a.cl > |line| + 1)
  {
  }

  /** A record whose line is not in the file still gets a region, ending at column 0. */
  lemma MissingLineEndsAtZero(fileContent: string, a: TraceAnchor)
    requires !(1 <= a.ln <= |Lines(fileContent)|)
    ensures DecorationOf(fileContent, a).range == Range(a.ln - 1, a.cl - 1, a.ln - 1, 0)
  {
  }

  /** The region never runs past the end of its line. */
  lemma RegionStaysOnLine(fileContent: string, a: TraceAnchor)
    requires 1 <= a.ln <= |Lines(fileContent)|
    ensures DecorationOf(fileContent, a).range.endCharacter <= |Lines(fileContent)[a.ln - 1]|
  {
  }
}
