/** The about section, `draw_about_section`
    (assets/media_kits/generate_media_kits.py, lines 65-93): the paragraph is
    split into words, wrapped greedily into lines for a column 1.5 inches
    narrower than the page, and at most six lines are drawn. */
module About {
  import opened Text
  import opened Wrap
  import opened Canvas
  import opened AboutWrap

  /** The about section draws at most this many wrapped lines. */
  const MaxAboutLines: nat := 6

  /** At most one sequence of lines is the wrap of a paragraph for a given
      measure and width. */
  lemma {:induction false} WrappedTextUnique(text: string, lines1: seq<string>, lines2: seq<string>, measure: Measure, maxWidth: real)
    requires IsWrappedText(text, lines1, measure, maxWidth)
    requires IsWrappedText(text, lines2, measure, maxWidth)
    ensures lines1 == lines2
  {
    var g1 :| IsGreedyWrap(Split(text), g1, measure, maxWidth) && lines1 == JoinLines(g1);
    var g2 :| IsGreedyWrap(Split(text), g2, measure, maxWidth) && lines2 == JoinLines(g2);
    GreedyWrapUnique(Split(text), g1, g2, measure, maxWidth);
  }

  /** Nothing is dropped, duplicated or reordered: the words of the lines, in
      order, are the words of the paragraph. A paragraph without words gives
      no lines, and every line after the first holds a word. */
  lemma {:induction false} WrapKeepsWords(text: string, lines: seq<string>, measure: Measure, maxWidth: real)
    requires IsWrappedText(text, lines, measure, maxWidth)
    ensures Concat(WordsOf(lines)) == Split(text)
    ensures lines == [] <==> Split(text) == []
    ensures forall k :: 0 < k < |lines| ==> |Split(lines[k])| > 0
  {
    var groups :| IsGreedyWrap(Split(text), groups, measure, maxWidth) && lines == JoinLines(groups);
    WordsOfJoinLines(Split(text), groups);
    NoWordsNoLines(Split(text), groups, measure, maxWidth);
    assert |lines| == |groups|;
    forall k | 0 < k < |lines|
      ensures |Split(lines[k])| > 0
    {
      LineWords(Split(text), groups, k);
    }
  }

  /** The first line is empty exactly when the first word alone fails the
      width test; otherwise it fits. */
  lemma {:induction false} WrapFirstLine(text: string, lines: seq<string>, measure: Measure, maxWidth: real)
    requires IsWrappedText(text, lines, measure, maxWidth)
    requires |lines| > 0
    ensures |Split(text)| > 0
    ensures lines[0] == "" <==> measure(Split(text)[0]) >= maxWidth
    ensures lines[0] != "" ==> measure(lines[0]) < maxWidth
  {
    var groups :| IsGreedyWrap(Split(text), groups, measure, maxWidth) && lines == JoinLines(groups);
    FirstGroup(Split(text), groups, measure, maxWidth);
    LineEmptyIff(Split(text), groups, 0);
  }

  /** A line of two or more words fits the column. */
  lemma {:induction false} WrapWidthBound(text: string, lines: seq<string>, measure: Measure, maxWidth: real, k: nat)
    requires IsWrappedText(text, lines, measure, maxWidth)
    requires k < |lines| && |Split(lines[k])| >= 2
    ensures measure(lines[k]) < maxWidth
  {
    var groups :| IsGreedyWrap(Split(text), groups, measure, maxWidth) && lines == JoinLines(groups);
    LineWords(Split(text), groups, k);
    GroupFits(Split(text), groups, measure, maxWidth, k);
  }

  /** Greedy maximality: a non-empty line followed by the first word of the
      next line does not fit the column. */
  lemma {:induction false} WrapMaximal(text: string, lines: seq<string>, measure: Measure, maxWidth: real, k: nat)
    requires IsWrappedText(text, lines, measure, maxWidth)
    requires k + 1 < |lines| && lines[k] != ""
    ensures |Split(lines[k + 1])| > 0
    ensures measure(lines[k] + " " + Split(lines[k + 1])[0]) >= maxWidth
  {
    var groups :| IsGreedyWrap(Split(text), groups, measure, maxWidth) && lines == JoinLines(groups);
    LineWords(Split(text), groups, k);
    LineWords(Split(text), groups, k + 1);
    LineEmptyIff(Split(text), groups, k);
    GroupMaximal(Split(text), groups, measure, maxWidth, k);
  }

  /** The line-drawing loop of the about section, after its title: at most
      six lines, each 0.2 inch below the previous, starting 0.4 inch below
      the title; the cursor returned is one further step below the last line
      drawn, so it depends only on how many lines were drawn. */
  method PlaceAboutLines(lines: seq<string>, yPos: real) returns (calls: seq<DrawCall>, nextY: real)
    ensures |calls| == 2 + Min(|lines|, MaxAboutLines)
    ensures calls[..2] == SectionTitle("ABOUT", yPos)
    ensures forall k :: 0 <= k < Min(|lines|, MaxAboutLines) ==>
      calls[2 + k] == DrawString(TextLeft, yPos - 0.4 * Inch - (k as real) * (0.2 * Inch), lines[k])
    ensures nextY == yPos - 0.4 * Inch - (Min(|lines|, MaxAboutLines) as real) * (0.2 * Inch) - 0.2 * Inch
  {
    var shown := lines[..Min(|lines|, MaxAboutLines)];
    var textY := yPos - 0.4 * Inch;
    calls := SectionTitle("ABOUT", yPos);
    var k := 0;
    while k < |shown|
      invariant 0 <= k <= |shown|
      invariant |calls| == 2 + k
      invariant calls[..2] == SectionTitle("ABOUT", yPos)
      invariant textY == yPos - 0.4 * Inch - (k as real) * (0.2 * Inch)
      invariant forall j :: 0 <= j < k ==>
        calls[2 + j] == DrawString(TextLeft, yPos - 0.4 * Inch - (j as real) * (0.2 * Inch), lines[j])
    {
      calls := calls + [DrawString(TextLeft, textY, shown[k])];
      textY := textY - 0.2 * Inch;
      k := k + 1;
    }
    nextY := textY - 0.2 * Inch;
  }

  /** `draw_about_section`: the title, then the first six lines of the greedy
      wrap of the paragraph into the column between 0.75-inch margins. All the
      wrapped lines are returned, drawn or not. */
  method DrawAbout(width: real, aboutText: string, yPos: real, measure: Measure)
    returns (lines: seq<string>, calls: seq<DrawCall>, nextY: real)
    ensures IsWrappedText(aboutText, lines, measure, width - 1.5 * Inch)
    ensures |calls| == 2 + Min(|lines|, MaxAboutLines)
    ensures calls[..2] == SectionTitle("ABOUT", yPos)
    ensures forall k :: 0 <= k < Min(|lines|, MaxAboutLines) ==>
      calls[2 + k] == DrawString(TextLeft, yPos - 0.4 * Inch - (k as real) * (0.2 * Inch), lines[k])
    ensures nextY == yPos - 0.4 * Inch - (Min(|lines|, MaxAboutLines) as real) * (0.2 * Inch) - 0.2 * Inch
  {
    lines := WrapAbout(aboutText, measure, width - 1.5 * Inch);
    calls, nextY := PlaceAboutLines(lines, yPos);
  }
}
