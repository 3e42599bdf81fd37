/** String primitives the two programs rely on: Python's `str.split()` with no
    argument and `str.join`, JavaScript's `String.prototype.trim` and
    `String.prototype.includes`. Strings are sequences of characters; no
    encoding or normalisation is modelled. */
module Text {

  /** Concatenation of a sequence of sequences, in order. */
  function Concat<T>(ss: seq<seq<T>>): seq<T>
  {
    if |ss| == 0 then [] else ss[0] + Concat(ss[1..])
  }

  lemma {:induction false} ConcatAppend<T>(ss: seq<seq<T>>, s: seq<T>)
    ensures Concat(ss + [s]) == Concat(ss) + s
  {
    if |ss| == 0 {
      assert ss + [s] == [s];
    } else {
      assert (ss + [s])[1..] == ss[1..] + [s];
      ConcatAppend(ss[1..], s);
    }
  }

  /** Concatenating a prefix and the matching suffix of `ss` gives `Concat(ss)`. */
  lemma {:induction false} ConcatSplitAt<T>(ss: seq<seq<T>>, k: nat)
    requires k <= |ss|
    ensures Concat(ss) == Concat(ss[..k]) + Concat(ss[k..])
  {
    if k == 0 {
      assert ss[k..] == ss;
    } else {
      assert ss[..k][1..] == ss[1..][..k - 1];
      assert ss[k..] == ss[1..][k - 1..];
      ConcatSplitAt(ss[1..], k - 1);
    }
  }

  /** Every part contributes its elements to the concatenation. */
  lemma {:induction false} ConcatHasLine<T>(ss: seq<seq<T>>, i: nat)
    requires i < |ss|
    ensures |Concat(ss)| >= |ss[i]|
  {
    if i > 0 {
      ConcatHasLine(ss[1..], i - 1);
    }
  }

  /** When the concatenation is all words, so is every part of it. */
  lemma {:induction false} AllWordsConcat(ss: seq<seq<string>>)
    requires AllWords(Concat(ss))
    ensures forall k :: 0 <= k < |ss| ==> AllWords(ss[k])
  {
    if |ss| > 0 {
      var c := Concat(ss);
      assert c == ss[0] + Concat(ss[1..]);
      assert forall i :: 0 <= i < |ss[0]| ==> ss[0][i] == c[i];
      assert forall i :: 0 <= i < |Concat(ss[1..])| ==> Concat(ss[1..])[i] == c[|ss[0]| + i];
      AllWordsConcat(ss[1..]);
      assert forall k :: 1 <= k < |ss| ==> ss[k] == ss[1..][k - 1];
    }
  }

  /** `parts` joined with `sep` between neighbours, as `sep.join(parts)` does
      in Python. */
  function Join(parts: seq<string>, sep: string): (r: string)
    ensures |parts| == 0 ==> r == ""
    ensures |parts| > 0 ==> parts[0] <= r
  {
    if |parts| == 0 then ""
    else if |parts| == 1 then parts[0]
    else parts[0] + sep + Join(parts[1..], sep)
  }

  /** Extending a non-empty list by one part adds one separator and the part. */
  lemma {:induction false} JoinAppend(parts: seq<string>, sep: string, p: string)
    requires |parts| > 0
    ensures Join(parts + [p], sep) == Join(parts, sep) + sep + p
  {
    if |parts| == 1 {
      assert (parts + [p])[1..] == [p];
    } else {
      assert (parts + [p])[1..] == parts[1..] + [p];
      JoinAppend(parts[1..], sep, p);
    }
  }

  /** Every part occurs in the join of the parts. */
  lemma {:induction false} JoinHoldsPart(parts: seq<string>, sep: string, k: nat)
    requires k < |parts|
    ensures Contains(Join(parts, sep), parts[k])
  {
    if k == 0 {
      assert OccursAt(Join(parts, sep), parts[0], 0);
    } else {
      JoinHoldsPart(parts[1..], sep, k - 1);
      var i :| OccursAt(Join(parts[1..], sep), parts[1..][k - 1], i);
      assert parts[1..][k - 1] == parts[k];
      OccursAfter(parts[0] + sep, Join(parts[1..], sep), parts[k], i);
      assert OccursAt(Join(parts, sep), parts[k], |parts[0] + sep| + i);
    }
  }

  lemma JoinHoldsEveryPart(parts: seq<string>, sep: string)
    ensures forall k :: 0 <= k < |parts| ==> Contains(Join(parts, sep), parts[k])
  {
    forall k | 0 <= k < |parts|
      ensures Contains(Join(parts, sep), parts[k])
    {
      JoinHoldsPart(parts, sep, k);
    }
  }

  /** An occurrence in `t` is an occurrence in `a + t`, shifted by `|a|`. */
  lemma OccursAfter(a: string, t: string, sub: string, i: int)
    requires OccursAt(t, sub, i)
    ensures OccursAt(a + t, sub, |a| + i)
  {
    assert (a + t)[|a| + i..|a| + i + |sub|] == t[i..i + |sub|];
  }

  /** Sum of the lengths of `parts`. */
  function TotalLength(parts: seq<string>): nat
  {
    if |parts| == 0 then 0 else |parts[0]| + TotalLength(parts[1..])
  }

  /** A join of n parts holds the parts' characters and n - 1 separators. */
  lemma {:induction false} JoinLength(parts: seq<string>, sep: string)
    requires |parts| > 0
    ensures |Join(parts, sep)| == TotalLength(parts) + (|parts| - 1) * |sep|
  {
    if |parts| > 1 {
      JoinLength(parts[1..], sep);
    }
  }

  // ---------------------------------------------------------------------------
  // Python: str.split() with no argument

  /** Python's `str.isspace()` for one character: the Unicode white-space
      characters plus the ASCII separators U+001C to U+001F. */
  predicate IsPySpace(c: char)
  {
    || c == ' '
    || ('\t' <= c <= '\r')
    || ('\U{1C}' <= c <= '\U{1F}')
    || c == '\U{85}'
    || c == '\U{A0}'
    || c == '\U{1680}'
    || ('\U{2000}' <= c <= '\U{200A}')
    || c == '\U{2028}'
    || c == '\U{2029}'
    || c == '\U{202F}'
    || c == '\U{205F}'
    || c == '\U{3000}'
  }

  /** A word as `str.split()` returns it: non-empty and free of white space. */
  predicate IsWord(w: string)
  {
    |w| > 0 && forall i :: 0 <= i < |w| ==> !IsPySpace(w[i])
  }

  predicate AllWords(ws: seq<string>)
  {
    forall i :: 0 <= i < |ws| ==> IsWord(ws[i])
  }

  predicate AllPySpace(s: string)
  {
    forall i :: 0 <= i < |s| ==> IsPySpace(s[i])
  }

  /** `s` without its leading white space. */
  function SkipSpace(s: string): (r: string)
    ensures |r| <= |s| && r == s[|s| - |r|..]
    ensures AllPySpace(s[..|s| - |r|])
    ensures r == [] || !IsPySpace(r[0])
  {
    if |s| > 0 && IsPySpace(s[0]) then SkipSpace(s[1..]) else s
  }

  /** The longest prefix of `s` that contains no white space. */
  function WordPrefix(s: string): (w: string)
    ensures w <= s
    ensures forall i :: 0 <= i < |w| ==> !IsPySpace(w[i])
    ensures |w| < |s| ==> IsPySpace(s[|w|])
  {
    if |s| > 0 && !IsPySpace(s[0]) then [s[0]] + WordPrefix(s[1..]) else []
  }

  /** Python's `s.split()`: the maximal runs of non-white-space characters, in
      order; leading and trailing white space produce no empty words. */
  function Split(s: string): (ws: seq<string>)
    ensures AllWords(ws)
    decreases |s|
  {
    var t := SkipSpace(s);
    if t == [] then []
    else
      var w := WordPrefix(t);
      var rest := Split(t[|w|..]);
      assert |w| > 0;
      AllWordsCons(w, rest);
      [w] + rest
  }

  lemma AllWordsCons(w: string, rest: seq<string>)
    requires |w| > 0 && (forall i :: 0 <= i < |w| ==> !IsPySpace(w[i]))
    requires AllWords(rest)
    ensures AllWords([w] + rest)
  {
    assert IsWord(w);
    assert forall i :: 0 < i <= |rest| ==> ([w] + rest)[i] == rest[i - 1];
  }

  /** A string splits into no words exactly when it is all white space. */
  lemma {:induction false} SplitEmptyIffBlank(s: string)
    ensures Split(s) == [] <==> AllPySpace(s)
  {
    var t := SkipSpace(s);
    if t == [] {
      assert s[..|s|] == s;
    } else {
      assert t[0] == s[|s| - |t|];
    }
  }

  lemma SkipSpaceOfWordStart(s: string)
    requires |s| > 0 && !IsPySpace(s[0])
    ensures SkipSpace(s) == s
  {
  }

  /** The longest white-space-free prefix of `w + rest` is `w` when `w` is a
      word and `rest` is empty or starts with white space. */
  lemma {:induction false} WordPrefixOfWord(w: string, rest: string)
    requires forall i :: 0 <= i < |w| ==> !IsPySpace(w[i])
    requires rest == [] || IsPySpace(rest[0])
    ensures WordPrefix(w + rest) == w
  {
    if |w| == 0 {
      assert w + rest == rest;
    } else {
      assert (w + rest)[1..] == w[1..] + rest;
      WordPrefixOfWord(w[1..], rest);
    }
  }

  /** A word followed by nothing or by white space splits off as the first
      word. */
  lemma SplitWordThen(w: string, rest: string)
    requires IsWord(w)
    requires rest == [] || IsPySpace(rest[0])
    ensures Split(w + rest) == [w] + Split(rest)
  {
    SkipSpaceOfWordStart(w + rest);
    WordPrefixOfWord(w, rest);
    assert (w + rest)[|w|..] == rest;
  }

  /** A single word splits into itself. */
  lemma SplitWord(w: string)
    requires IsWord(w)
    ensures Split(w) == [w]
  {
    SkipSpaceOfWordStart(w);
    WordPrefixOfWholeWord(w);
    assert w[|w|..] == [];
  }

  /** The longest white-space-free prefix of a word is the whole word. */
  lemma {:induction false} WordPrefixOfWholeWord(w: string)
    requires forall i :: 0 <= i < |w| ==> !IsPySpace(w[i])
    ensures WordPrefix(w) == w
  {
    if |w| > 0 {
      WordPrefixOfWholeWord(w[1..]);
    }
  }

  /** A leading white-space character does not change the split. */
  lemma SplitLeadingSpace(s: string)
    requires |s| > 0 && IsPySpace(s[0])
    ensures Split(s) == Split(s[1..])
  {
  }

  /** White space separates words: cutting a string at any white-space
      character cuts its word list there. With `Split("") == []` and
      `SplitWord`, this fixes `Split` on every string. */
  lemma SplitAtSpace(a: string, c: char, b: string)
    requires IsPySpace(c)
    ensures Split(a + [c] + b) == Split(a) + Split(b)
  {
    AppendAssoc(a, [c], b);
    SplitBeforeSpace(a, [c] + b);
    DropFirst(c, b);
  }

  /** `SplitAtSpace` with the white space and what follows it as one string
      `r`. */
  lemma {:induction false} SplitBeforeSpace(a: string, r: string)
    requires |r| > 0 && IsPySpace(r[0])
    ensures Split(a + r) == Split(a) + Split(r[1..])
    decreases |a|
  {
    if a == [] {
      assert a + r == r;
      SplitLeadingSpace(r);
    } else if IsPySpace(a[0]) {
      SplitBeforeSpace(a[1..], r);
      DropFirstOfConcat(a, r);
      SplitLeadingSpace(a + r);
      SplitLeadingSpace(a);
    } else {
      var w := WordPrefix(a);
      WordPrefixOfWordStart(a);
      SplitBeforeSpace(a[|w|..], r);
      SplitBeforeSpaceWord(w, a[|w|..], r);
    }
  }

  /** A string starting with a non-space character starts with a word, which
      is followed by nothing or by white space. */
  lemma WordPrefixOfWordStart(a: string)
    requires |a| > 0 && !IsPySpace(a[0])
    ensures IsWord(WordPrefix(a))
    ensures a == WordPrefix(a) + a[|WordPrefix(a)|..]
    ensures a[|WordPrefix(a)|..] == [] || IsPySpace(a[|WordPrefix(a)|..][0])
  {
  }

  /** The word step of `SplitBeforeSpace`: the leading word splits off both
      with and without `r`. */
  lemma SplitBeforeSpaceWord(w: string, rest: string, r: string)
    requires IsWord(w) && (rest == [] || IsPySpace(rest[0]))
    requires |r| > 0 && IsPySpace(r[0])
    requires Split(rest + r) == Split(rest) + Split(r[1..])
    ensures Split(w + rest + r) == Split(w + rest) + Split(r[1..])
  {
    AppendAssoc(w, rest, r);
    SpaceStart(rest, r);
    SplitWordThen(w, rest + r);
    SplitWordThen(w, rest);
    AppendAssoc([w], Split(rest), Split(r[1..]));
  }

  lemma SpaceStart(rest: string, r: string)
    requires rest == [] || IsPySpace(rest[0])
    requires |r| > 0 && IsPySpace(r[0])
    ensures IsPySpace((rest + r)[0])
  {
  }

  /** Splitting words joined by single spaces gives back the words. */
  lemma {:induction false} SplitJoin(ws: seq<string>)
    requires AllWords(ws)
    ensures Split(Join(ws, " ")) == ws
  {
    if |ws| == 1 {
      SplitWord(ws[0]);
    } else if |ws| > 1 {
      SplitJoin(ws[1..]);
      SplitJoinStep(ws);
    }
  }

  /** The inductive step of `SplitJoin`: the first word splits off, and the
      separator before the rest is skipped. */
  lemma SplitJoinStep(ws: seq<string>)
    requires |ws| > 1 && IsWord(ws[0])
    requires Split(Join(ws[1..], " ")) == ws[1..]
    ensures Split(Join(ws, " ")) == ws
  {
    var tail := Join(ws[1..], " ");
    JoinCons(ws, " ");
    SplitWordThen(ws[0], " " + tail);
    SplitLeadingSpace(" " + tail);
    DropFirst(' ', tail);
    HeadTail(ws);
  }

  /** A join of two or more parts starts with the first part and a separator. */
  lemma JoinCons(parts: seq<string>, sep: string)
    requires |parts| > 1
    ensures Join(parts, sep) == parts[0] + (sep + Join(parts[1..], sep))
  {
  }

  lemma DropFirst<T>(x: T, s: seq<T>)
    ensures ([x] + s)[1..] == s
  {
  }

  lemma DropFirstOfConcat<T>(a: seq<T>, b: seq<T>)
    requires |a| > 0
    ensures (a + b)[1..] == a[1..] + b
  {
  }

  lemma AppendAssoc<T>(a: seq<T>, b: seq<T>, c: seq<T>)
    ensures a + b + c == a + (b + c)
  {
  }

  lemma HeadTail<T>(s: seq<T>)
    requires |s| > 0
    ensures [s[0]] + s[1..] == s
  {
  }

  /** Joining words with single spaces gives the empty string only for no
      words. */
  lemma JoinWordsEmpty(ws: seq<string>)
    requires AllWords(ws)
    ensures Join(ws, " ") == "" <==> ws == []
  {
    if Join(ws, " ") == "" {
      SplitJoin(ws);
    }
  }

  // ---------------------------------------------------------------------------
  // JavaScript: String.prototype.trim and String.prototype.includes

  /** JavaScript white space and line terminators, the characters `trim`
      removes. */
  predicate IsJsSpace(c: char)
  {
    || c == ' '
    || ('\t' <= c <= '\r')
    || c == '\U{A0}'
    || c == '\U{1680}'
    || ('\U{2000}' <= c <= '\U{200A}')
    || c == '\U{2028}'
    || c == '\U{2029}'
    || c == '\U{202F}'
    || c == '\U{205F}'
    || c == '\U{3000}'
    || c == '\U{FEFF}'
  }

  predicate AllJsSpace(s: string)
  {
    forall i :: 0 <= i < |s| ==> IsJsSpace(s[i])
  }

  /** `s` without leading white space. */
  function TrimStart(s: string): (r: string)
    ensures |r| <= |s| && r == s[|s| - |r|..]
    ensures AllJsSpace(s[..|s| - |r|])
    ensures r == [] || !IsJsSpace(r[0])
  {
    if |s| > 0 && IsJsSpace(s[0]) then
      var r := TrimStart(s[1..]);
      TrimStartStep(s, r);
      r
    else s
  }

  /** The recursive step of `TrimStart`: a leading space joins the removed
      prefix. */
  lemma TrimStartStep(s: string, r: string)
    requires |s| > 0 && IsJsSpace(s[0])
    requires |r| <= |s| - 1 && r == s[1..][|s| - 1 - |r|..]
    requires AllJsSpace(s[1..][..|s| - 1 - |r|])
    ensures r == s[|s| - |r|..]
    ensures AllJsSpace(s[..|s| - |r|])
  {
    forall i | 1 <= i < |s| - |r|
      ensures IsJsSpace(s[i])
    {
      assert s[i] == s[1..][..|s| - 1 - |r|][i - 1];
    }
  }

  /** `s` without trailing white space. */
  function TrimEnd(s: string): (r: string)
    ensures r <= s
    ensures AllJsSpace(s[|r|..])
    ensures r == [] || !IsJsSpace(r[|r| - 1])
  {
    if |s| > 0 && IsJsSpace(s[|s| - 1]) then TrimEnd(s[..|s| - 1]) else s
  }

  /** JavaScript's `s.trim()`: the slice of `s` left after removing white
      space from both ends. */
  function Trim(s: string): (r: string)
    ensures exists i :: FlankedAt(s, r, i)
    ensures NoSpaceAtEnds(r)
  {
    TrimSlice(s);
    TrimEnds(s);
    TrimEnd(TrimStart(s))
  }

  /** Neither end of `r` is white space (vacuous for ""). */
  predicate NoSpaceAtEnds(r: string)
  {
    r != "" ==> !IsJsSpace(r[0]) && !IsJsSpace(r[|r| - 1])
  }

  lemma TrimEnds(s: string)
    ensures NoSpaceAtEnds(TrimEnd(TrimStart(s)))
  {
    var t := TrimStart(s);
    var r := TrimEnd(t);
    if r != "" {
      assert r[0] == t[0];
    }
  }

  /** `r` occurs in `s` at offset `i` with only white space before and
      after it. */
  predicate FlankedAt(s: string, r: string, i: int)
  {
    OccursAt(s, r, i) && AllJsSpace(s[..i]) && AllJsSpace(s[i + |r|..])
  }

  /** Removing a white-space prefix and then a white-space suffix leaves a
      slice of `s` flanked by white space. */
  lemma TrimSlice(s: string)
    ensures exists i :: FlankedAt(s, TrimEnd(TrimStart(s)), i)
  {
    var t := TrimStart(s);
    var r := TrimEnd(t);
    var i := |s| - |t|;
    assert s[i + |r|..] == t[|r|..];
    assert FlankedAt(s, r, i);
  }

  /** Trimming leaves nothing exactly when the string is all white space, and
      otherwise leaves a slice of `s` with non-space characters at both ends. */
  lemma TrimCharacterization(s: string)
    ensures Trim(s) == "" <==> AllJsSpace(s)
    ensures Trim(s) != "" ==> !IsJsSpace(Trim(s)[0]) && !IsJsSpace(Trim(s)[|Trim(s)| - 1])
  {
    var t := TrimStart(s);
    assert s == s[..|s| - |t|] + t;
    if Trim(s) == "" {
      assert AllJsSpace(t) by {
        assert t[|Trim(s)|..] == t;
      }
    } else {
      assert Trim(s)[0] == t[0];
    }
  }

  /** JavaScript's `!s.trim()`: the trimmed string is empty, which happens
      exactly when `s` is all white space. */
  function IsBlank(s: string): (b: bool)
    ensures b <==> AllJsSpace(s)
  {
    TrimCharacterization(s);
    Trim(s) == ""
  }

  /** Whether `s` begins with `p`. */
  predicate StartsWith(s: string, p: string)
  {
    |p| <= |s| && s[..|p|] == p
  }

  /** `sub` occurs in `s` starting at offset `i`. */
  predicate OccursAt(s: string, sub: string, i: int)
  {
    0 <= i && i + |sub| <= |s| && s[i..i + |sub|] == sub
  }

  /** JavaScript's `s.includes(sub)`: `sub` occurs in `s` at some offset. */
  function Contains(s: string, sub: string): (b: bool)
    ensures b <==> exists i :: OccursAt(s, sub, i)
    decreases |s|
  {
    if StartsWith(s, sub) then
      assert OccursAt(s, sub, 0);
      true
    else if |s| == 0 then
      false
    else
      var r := Contains(s[1..], sub);
      assert r ==> exists i :: OccursAt(s, sub, i) by {
        if r {
          var i :| OccursAt(s[1..], sub, i);
          assert s[1..][i..i + |sub|] == s[i + 1..i + 1 + |sub|];
          assert OccursAt(s, sub, i + 1);
        }
      }
      assert (exists i :: OccursAt(s, sub, i)) ==> r by {
        if exists i :: OccursAt(s, sub, i) {
          var i :| OccursAt(s, sub, i);
          assert i != 0;
          assert s[1..][i - 1..i - 1 + |sub|] == s[i..i + |sub|];
          assert OccursAt(s[1..], sub, i - 1);
        }
      }
      r
  }
}
