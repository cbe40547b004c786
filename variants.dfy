/**
 * The two builds of the extension side by side: they keep the same pieces, in the same
 * order, with the same start positions and hover texts, and differ only in where a
 * region ends.
 */
module Variants {
  import opened TaintRegex
  import opened TaintTrace
  import Out = OutExtension
  import Src = SrcExtension

  /**
   * For one record: the same line, start column and hover text in both builds. On a line
   * of the file, the `out/extension.js` region ends before the `src/extension.ts` one
   * (the first never passes the end of the line, the second always does once the column
   * is at least 1); on a missing line they end at 0 and at the column.
   */
  lemma EndsCompared(fileContent: string, a: TraceAnchor)
    ensures var o := Out.DecorationOf(fileContent, a); var s := Src.DecorationOf(fileContent, a);
      && o.hoverMessage == s.hoverMessage
      && o.range.startLine == s.range.startLine && o.range.endLine == s.range.endLine
      && o.range.startCharacter == s.range.startCharacter
    ensures 1 <= a.ln <= |Lines(fileContent)| && a.cl >= 1 ==>
      Out.DecorationOf(fileContent, a).range.endCharacter < Src.DecorationOf(fileContent, a).range.endCharacter
    ensures !(1 <= a.ln <= |Lines(fileContent)|) ==>
      Out.DecorationOf(fileContent, a).range.endCharacter == 0
      && Src.DecorationOf(fileContent, a).range.endCharacter == a.cl
  {
    if 1 <= a.ln <= |Lines(fileContent)| && a.cl >= 1 {
      Out.RegionStaysOnLine(fileContent, a);
      Src.RegionOvershootsLine(fileContent, a);
    }
  }

  /**
   * For a whole trace: both walkers emit the same number of regions, and the k-th
   * regions of the two agree on everything but the end column.
   */
  lemma WalkersAgreeExceptEnd(taintFlowData: string, fileContent: string)
    ensures var anchors := Anchors(Segments(taintFlowData));
      |Decorations(anchors, Out.Decorate(fileContent))| == |Decorations(anchors, Src.Decorate(fileContent))|
    ensures var anchors := Anchors(Segments(taintFlowData));
      forall k :: 0 <= k < |anchors| ==>
        var o := Decorations(anchors, Out.Decorate(fileContent))[k]; var s := Decorations(anchors, Src.Decorate(fileContent))[k];
        o.hoverMessage == s.hoverMessage && o.range.startLine == s.range.startLine
        && o.range.startCharacter == s.range.startCharacter && o.range.endLine == s.range.endLine
  {
  }
}
