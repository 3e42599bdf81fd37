/** The greedy word wrapper of `draw_about_section`
    (assets/media_kits/generate_media_kits.py, lines 73-86).

    The width of a candidate line is measured by `measure`, which stands for
    the canvas's `stringWidth` at Helvetica 10 pt. Nothing is assumed about it:
    it need not be monotone in the length of the line. */
module Wrap {
  import opened Text

  /** A width measure for strings. */
  type Measure = string -> real

  /** The width test of the wrapping loop: a candidate line, a sequence of words
      joined by single spaces, is accepted when it measures strictly less than
      the limit. */
  predicate Fits(measure: Measure, maxWidth: real, line: seq<string>)
  {
    measure(Join(line, " ")) < maxWidth
  }

  /** The shortest prefix of line `k` whose width the loop tested. Line 0 grows
      from the empty line, so even its first word was tested; every later line
      starts with a word placed without a test. */
  function FirstTested(k: nat): nat
  {
    if k == 0 then 1 else 2
  }

  /** The word that opened line `k + 1` was rejected by line `k`. */
  predicate RejectedNext(measure: Measure, maxWidth: real, groups: seq<seq<string>>, k: nat)
    requires k + 1 < |groups| && groups[k + 1] != []
  {
    !Fits(measure, maxWidth, groups[k] + [groups[k + 1][0]])
  }

  /** A declarative description of the greedy wrap of `words` into `groups`
      (the words of each line):
      - the lines hold the words, in order;
      - only line 0 may be empty, and the last line is not;
      - every append the loop made was accepted by the width test;
      - the first word of each following line was rejected by the line before. */
  ghost predicate IsGreedyWrap(words: seq<string>, groups: seq<seq<string>>, measure: Measure, maxWidth: real)
  {
    && Concat(groups) == words
    && (forall k :: 0 < k < |groups| ==> groups[k] != [])
    && (|groups| > 0 ==> groups[|groups| - 1] != [])
    && (forall k, j :: 0 <= k < |groups| && FirstTested(k) <= j <= |groups[k]| ==> Fits(measure, maxWidth, groups[k][..j]))
    && (forall k :: 0 <= k < |groups| - 1 ==> RejectedNext(measure, maxWidth, groups, k))
  }

  /** The lines produced so far: the closed ones and, when it holds a word, the
      line being filled. */
  function Lines(closed: seq<seq<string>>, current: seq<string>): seq<seq<string>>
  {
    if current == [] then closed else closed + [current]
  }

  /** The wrapping loop: each word is appended to the current line when the
      extended line fits, and otherwise closes the current line (possibly the
      empty line 0) and starts a new one. */
  method WrapWords(words: seq<string>, measure: Measure, maxWidth: real) returns (groups: seq<seq<string>>)
    ensures IsGreedyWrap(words, groups, measure, maxWidth)
  {
    var closed: seq<seq<string>> := [];
    var current: seq<string> := [];
    var i := 0;
    while i < |words|
      invariant 0 <= i <= |words|
      invariant current == [] <==> i == 0
      invariant i == 0 ==> closed == []
      invariant IsGreedyWrap(words[..i], Lines(closed, current), measure, maxWidth)
    {
      var word := words[i];
      ConcatAppend(closed, current);
      if Fits(measure, maxWidth, current + [word]) {
        ConcatAppend(closed, current + [word]);
        ExtendLastLine(words[..i], closed, current, word, measure, maxWidth);
        current := current + [word];
      } else {
        ConcatAppend(closed + [current], [word]);
        StartNewLine(words[..i], closed, current, word, measure, maxWidth);
        closed := closed + [current];
        current := [word];
      }
      assert words[..i + 1] == words[..i] + [word];
      i := i + 1;
    }
    groups := Lines(closed, current);
    assert words[..|words|] == words;
  }

  /** The loop step that accepts a word. */
  lemma ExtendLastLine(done: seq<string>, closed: seq<seq<string>>, current: seq<string>, word: string,
                       measure: Measure, maxWidth: real)
    requires current == [] ==> closed == []
    requires IsGreedyWrap(done, Lines(closed, current), measure, maxWidth)
    requires Fits(measure, maxWidth, current + [word])
    requires Concat(closed + [current + [word]]) == Concat(closed + [current]) + [word]
    requires Concat(closed + [current]) == Concat(Lines(closed, current))
    ensures IsGreedyWrap(done + [word], Lines(closed, current + [word]), measure, maxWidth)
  {
    var g := Lines(closed, current);
    var g' := closed + [current + [word]];
    assert Lines(closed, current + [word]) == g';
    forall k, j | 0 <= k < |g'| && FirstTested(k) <= j <= |g'[k]|
      ensures Fits(measure, maxWidth, g'[k][..j])
    {
      if k == |closed| {
        if j == |current| + 1 {
          assert g'[k][..j] == current + [word];
        } else {
          assert g[k] == current;
          assert g'[k][..j] == g[k][..j];
        }
      } else {
        assert g'[k] == g[k];
      }
    }
    forall k | 0 < k < |g'|
      ensures g'[k] != []
    {
      if k < |closed| {
        assert g'[k] == g[k];
      }
    }
    forall k | 0 <= k < |g'| - 1
      ensures RejectedNext(measure, maxWidth, g', k)
    {
      assert RejectedNext(measure, maxWidth, g, k);
      assert g'[k] == g[k];
      assert g'[k + 1][0] == g[k + 1][0];
    }
  }

  /** The loop step that rejects a word and starts a new line with it. */
  lemma StartNewLine(done: seq<string>, closed: seq<seq<string>>, current: seq<string>, word: string,
                     measure: Measure, maxWidth: real)
    requires current == [] ==> closed == []
    requires IsGreedyWrap(done, Lines(closed, current), measure, maxWidth)
    requires !Fits(measure, maxWidth, current + [word])
    requires Concat(closed + [current] + [[word]]) == Concat(closed + [current]) + [word]
    requires Concat(closed + [current]) == Concat(Lines(closed, current))
    ensures IsGreedyWrap(done + [word], Lines(closed + [current], [word]), measure, maxWidth)
  {
    var g := Lines(closed, current);
    var g' := closed + [current] + [[word]];
    assert Lines(closed + [current], [word]) == g';
    forall k, j | 0 <= k < |g'| && FirstTested(k) <= j <= |g'[k]|
      ensures Fits(measure, maxWidth, g'[k][..j])
    {
      if k < |closed| {
        assert g'[k] == g[k];
      } else if k == |closed| {
        assert g'[k] == current && g[k] == current;
      }
    }
    forall k | 0 <= k < |g'| - 1
      ensures RejectedNext(measure, maxWidth, g', k)
    {
      if k < |closed| {
        assert RejectedNext(measure, maxWidth, g, k);
        assert g'[k] == g[k];
        assert g'[k + 1][0] == g[k + 1][0];
      } else {
        assert g'[k] == current && g'[k + 1] == [word];
      }
    }
  }

  /** The greedy wrap is determined by the words, the measure and the limit:
      two groupings that both meet the description are the same. */
  lemma GreedyWrapUnique(words: seq<string>, g1: seq<seq<string>>, g2: seq<seq<string>>, measure: Measure, maxWidth: real)
    requires IsGreedyWrap(words, g1, measure, maxWidth)
    requires IsGreedyWrap(words, g2, measure, maxWidth)
    ensures g1 == g2
  {
    var k := 0;
    while k < |g1| && k < |g2|
      invariant 0 <= k <= |g1| && 0 <= k <= |g2|
      invariant g1[..k] == g2[..k]
    {
      LineNotShorter(words, g1, g2, k, measure, maxWidth);
      LineNotShorter(words, g2, g1, k, measure, maxWidth);
      LineAt(words, g1, k);
      LineAt(words, g2, k);
      assert g1[..k + 1] == g1[..k] + [g1[k]];
      assert g2[..k + 1] == g2[..k] + [g2[k]];
      k := k + 1;
    }
    if k == |g1| {
      NoExtraLines(words, g1, g2, k, measure, maxWidth);
    } else {
      NoExtraLines(words, g2, g1, k, measure, maxWidth);
    }
    assert g1 == g1[..k] && g2 == g2[..k];
  }

  /** A greedy wrap whose lines are all lines of another greedy wrap of the
      same words has no further lines than it. */
  lemma NoExtraLines(words: seq<string>, g1: seq<seq<string>>, g2: seq<seq<string>>, k: nat, measure: Measure, maxWidth: real)
    requires IsGreedyWrap(words, g1, measure, maxWidth)
    requires IsGreedyWrap(words, g2, measure, maxWidth)
    requires k == |g1| && k <= |g2| && g1 == g2[..k]
    ensures |g2| == k
  {
    if k < |g2| {
      ConcatSplitAt(g2, k);
      var last := |g2| - 1;
      assert g2[k..][last - k] == g2[last];
      ConcatHasLine(g2[k..], last - k);
      assert false;
    }
  }

  /** Where line `k` of a wrap sits in the word sequence. */
  lemma LineAt(words: seq<string>, g: seq<seq<string>>, k: nat)
    requires Concat(g) == words && k < |g|
    ensures |Concat(g[..k])| + |g[k]| <= |words|
    ensures words[..|Concat(g[..k])|] == Concat(g[..k])
    ensures words[|Concat(g[..k])|..|Concat(g[..k])| + |g[k]|] == g[k]
    ensures Concat(g[..k + 1]) == Concat(g[..k]) + g[k]
    ensures k + 1 < |g| && g[k + 1] != [] ==> |Concat(g[..k])| + |g[k]| < |words|
    ensures k + 1 < |g| && g[k + 1] != [] ==> words[|Concat(g[..k])| + |g[k]|] == g[k + 1][0]
    ensures k + 1 == |g| ==> |Concat(g[..k])| + |g[k]| == |words|
  {
    ConcatSplitAt(g, k);
    var rest := g[k..];
    assert Concat(rest) == g[k] + Concat(rest[1..]);
    assert rest[1..] == g[k + 1..];
    assert g[..k + 1] == g[..k] + [g[k]];
    ConcatAppend(g[..k], g[k]);
    if k + 1 < |g| {
      assert Concat(g[k + 1..]) == g[k + 1] + Concat(g[k + 1..][1..]);
    } else {
      assert g[k + 1..] == [];
    }
  }

  /** When two greedy wraps agree on their first `k` lines, line `k` of the
      first is at least as long as line `k` of the second: were it shorter, the
      word the second keeps beyond it would have been both accepted and
      rejected by the same width test. */
  lemma LineNotShorter(words: seq<string>, g1: seq<seq<string>>, g2: seq<seq<string>>, k: nat, measure: Measure, maxWidth: real)
    requires IsGreedyWrap(words, g1, measure, maxWidth)
    requires IsGreedyWrap(words, g2, measure, maxWidth)
    requires k < |g1| && k < |g2| && g1[..k] == g2[..k]
    ensures |g1[k]| >= |g2[k]|
  {
    LineAt(words, g1, k);
    LineAt(words, g2, k);
    if |g1[k]| < |g2[k]| {
      var p := |Concat(g1[..k])|;
      var a, b := g1[k], g2[k];
      var n := |a|;
      assert b[..n + 1] == a + [words[p + n]];
      assert FirstTested(k) <= n + 1 by {
        assert k == 0 || a != [];
      }
      assert Fits(measure, maxWidth, b[..n + 1]);
      if k + 1 < |g1| {
        ghost var rejected := RejectedNext(measure, maxWidth, g1, k);
      }
      assert false;
    }
  }

  /** A line the loop grew by at least one tested append fits the width. */
  lemma GroupFits(words: seq<string>, groups: seq<seq<string>>, measure: Measure, maxWidth: real, k: nat)
    requires IsGreedyWrap(words, groups, measure, maxWidth)
    requires k < |groups| && (|groups[k]| >= 2 || (k == 0 && |groups[k]| == 1))
    ensures Fits(measure, maxWidth, groups[k])
  {
    assert groups[k][..|groups[k]|] == groups[k];
  }

  /** Greedy maximality on groups: a non-empty line, a space and the first
      word of the next line together fail the width test. */
  lemma GroupMaximal(words: seq<string>, groups: seq<seq<string>>, measure: Measure, maxWidth: real, k: nat)
    requires IsGreedyWrap(words, groups, measure, maxWidth)
    requires k + 1 < |groups| && groups[k] != []
    ensures groups[k + 1] != []
    ensures measure(Join(groups[k], " ") + " " + groups[k + 1][0]) >= maxWidth
  {
    assert RejectedNext(measure, maxWidth, groups, k);
    JoinAppend(groups[k], " ", groups[k + 1][0]);
  }

  /** The wrap has no lines exactly when there are no words. */
  lemma NoWordsNoLines(words: seq<string>, groups: seq<seq<string>>, measure: Measure, maxWidth: real)
    requires IsGreedyWrap(words, groups, measure, maxWidth)
    ensures groups == [] <==> words == []
  {
    if groups != [] {
      ConcatHasLine(groups, |groups| - 1);
    }
  }

  /** Line 0 is empty exactly when the first word alone is too wide; when it
      is not empty it fits. */
  lemma FirstGroup(words: seq<string>, groups: seq<seq<string>>, measure: Measure, maxWidth: real)
    requires IsGreedyWrap(words, groups, measure, maxWidth)
    requires groups != []
    ensures words != []
    ensures groups[0] == [] <==> !Fits(measure, maxWidth, [words[0]])
    ensures groups[0] != [] ==> Fits(measure, maxWidth, groups[0])
  {
    NoWordsNoLines(words, groups, measure, maxWidth);
    LineAt(words, groups, 0);
    assert Concat(groups[..0]) == [];
    if groups[0] == [] {
      assert RejectedNext(measure, maxWidth, groups, 0);
      assert [] + [groups[1][0]] == [words[0]];
    } else {
      assert groups[0][..1] == [words[0]];
      assert Fits(measure, maxWidth, groups[0][..1]);
      assert groups[0][..|groups[0]|] == groups[0];
    }
  }
}
