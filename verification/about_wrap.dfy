/** The wrapping of the about paragraph in `draw_about_section`
    (assets/media_kits/generate_media_kits.py, lines 73-86), at the level of
    strings: the paragraph is split into words as `str.split()` does, the
    words are wrapped greedily and each line is joined with single spaces. */
module AboutWrap {
  import opened Text
  import opened Wrap

  /** The words of each line, as `str.split()` finds them. */
  function WordsOf(lines: seq<string>): seq<seq<string>>
  {
    seq(|lines|, k requires 0 <= k < |lines| => Split(lines[k]))
  }

  /** Each group of words joined by single spaces, as `' '.join` does. */
  function JoinLines(groups: seq<seq<string>>): seq<string>
  {
    seq(|groups|, k requires 0 <= k < |groups| => Join(groups[k], " "))
  }

  /** `lines` are the greedy wrap of the words of `text`: some grouping of the
      words meets the greedy description and each line is its group joined by
      single spaces. */
  ghost predicate IsWrappedText(text: string, lines: seq<string>, measure: Measure, maxWidth: real)
  {
    exists groups :: IsGreedyWrap(Split(text), groups, measure, maxWidth) && lines == JoinLines(groups)
  }

  /** The words of a wrapped line are the words of its group. */
  lemma WordsOfJoinLines(words: seq<string>, groups: seq<seq<string>>)
    requires AllWords(words) && Concat(groups) == words
    ensures WordsOf(JoinLines(groups)) == groups
  {
    var lines := JoinLines(groups);
    AllWordsConcat(groups);
    forall k | 0 <= k < |groups|
      ensures WordsOf(lines)[k] == groups[k]
    {
      SplitJoin(groups[k]);
    }
  }

  /** The words of one wrapped line are the words of its group. */
  lemma LineWords(words: seq<string>, groups: seq<seq<string>>, k: nat)
    requires AllWords(words) && Concat(groups) == words
    requires k < |groups|
    ensures Split(JoinLines(groups)[k]) == groups[k]
  {
    WordsOfJoinLines(words, groups);
    assert WordsOf(JoinLines(groups))[k] == Split(JoinLines(groups)[k]);
  }

  /** A wrapped line is the empty string exactly when its group has no words. */
  lemma LineEmptyIff(words: seq<string>, groups: seq<seq<string>>, k: nat)
    requires AllWords(words) && Concat(groups) == words
    requires k < |groups|
    ensures JoinLines(groups)[k] == Join(groups[k], " ")
    ensures JoinLines(groups)[k] == "" <==> groups[k] == []
  {
    AllWordsConcat(groups);
    JoinWordsEmpty(groups[k]);
  }

  /** The wrapping of the about paragraph (lines 73-86): its words, as
      `str.split()` finds them, filled greedily into lines. */
  method WrapAbout(aboutText: string, measure: Measure, maxWidth: real) returns (lines: seq<string>)
    ensures IsWrappedText(aboutText, lines, measure, maxWidth)
  {
    var words := Split(aboutText);
    var groups := WrapWords(words, measure, maxWidth);
    lines := JoinLines(groups);
  }
}
