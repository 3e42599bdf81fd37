/** The stats grid, the specialisation list and the brand strip
    (assets/media_kits/generate_media_kits.py, lines 38-53 and 95-122). */
module Sections {
  import opened Text
  import opened Canvas

  /** One stat of the stats grid: a value such as "438K" above a caption. */
  datatype Stat = Stat(value: string, caption: string)

  /** One entry of the specialisation list. */
  datatype Specialization = Specialization(title: string, description: string)

  /** The calls a renderer made and the cursor it returns. */
  datatype Section = Section(calls: seq<DrawCall>, nextY: real)

  /** The delimiter between brand names. */
  const BrandSeparator: string := "  •  "

  /** Python's `str.upper()` restricted to ASCII letters: every lower-case
      letter becomes its capital and every other character is kept. */
  function Upper(s: string): (r: string)
    ensures |r| == |s|
    ensures forall i :: 0 <= i < |s| ==> !('a' <= r[i] <= 'z')
    ensures forall i :: 0 <= i < |s| && !('a' <= s[i] <= 'z') ==> r[i] == s[i]
    ensures forall i :: 0 <= i < |s| && 'a' <= s[i] <= 'z' ==> r[i] as int == s[i] as int - 32
  {
    if |s| == 0 then ""
    else [if 'a' <= s[0] <= 'z' then (s[0] as int - 32) as char else s[0]] + Upper(s[1..])
  }

  /** The x position of the centre of column `i` of an `n`-column grid that
      spans the page between half-inch margins. */
  function ColumnCentre(width: real, n: nat, i: nat): (x: real)
    requires n > 0
    ensures width > Inch && i < n ==> 0.5 * Inch < x < width - 0.5 * Inch
  {
    var statWidth := (width - 1.0 * Inch) / (n as real);
    CentreBetweenMargins(width, n, i);
    0.5 * Inch + (i as real) * statWidth + statWidth / 2.0
  }

  /** Column `i` is centred half a column past `i` columns: the grid divides
      the width between the margins into `n` equal columns. */
  lemma ColumnCentreFormula(width: real, n: nat, i: nat)
    requires n > 0
    ensures ColumnCentre(width, n, i) == 0.5 * Inch + ((i as real) + 0.5) * (width - Inch) / (n as real)
    ensures ColumnCentre(width, n, i + 1) - ColumnCentre(width, n, i) == (width - Inch) / (n as real)
  {
  }

  /** On a page wider than the two margins, column centres strictly increase
      from left to right. */
  lemma {:induction false} ColumnCentresIncrease(width: real, n: nat, i: nat, j: nat)
    requires width > Inch && i < j < n
    ensures ColumnCentre(width, n, i) < ColumnCentre(width, n, j)
  {
    var w := (width - 1.0 * Inch) / (n as real);
    assert w > 0.0;
    assert ColumnCentre(width, n, j) - ColumnCentre(width, n, i) == ((j - i) as real) * w;
    assert ((j - i) as real) * w >= w by {
      assert (j - i) as real >= 1.0;
    }
  }

  /** On a page wider than the two margins, the centre of any of the `n`
      columns lies strictly between the margins. */
  lemma {:induction false} CentreBetweenMargins(width: real, n: nat, i: nat)
    requires n > 0
    ensures var w := (width - 1.0 * Inch) / (n as real);
      width > Inch && i < n ==> 0.5 * Inch < 0.5 * Inch + (i as real) * w + w / 2.0 < width - 0.5 * Inch
  {
    if width > Inch && i < n {
      var w := (width - 1.0 * Inch) / (n as real);
      assert w > 0.0;
      assert (n as real) * w == width - 1.0 * Inch;
      assert (i as real) * w >= 0.0;
      assert (i as real) * w <= ((n - 1) as real) * w by {
        assert (n - 1 - i) as real >= 0.0;
        assert ((n - 1) as real) * w - (i as real) * w == ((n - 1 - i) as real) * w;
      }
      assert ((n - 1) as real) * w == (n as real) * w - w;
    }
  }

  /** `draw_stats_section`: the background band, then each stat's value and
      upper-cased caption centred in its column. With no stats the column width
      divides by zero: the band has been drawn when the error is raised. */
  method DrawStats(width: real, stats: seq<Stat>, yPos: real) returns (calls: seq<DrawCall>, raised: bool)
    ensures raised <==> |stats| == 0
    ensures |calls| >= 1 && calls[0] == Rect(0.5 * Inch, yPos - 1.25 * Inch, width - 1.0 * Inch, 1.25 * Inch)
    ensures raised ==> |calls| == 1
    ensures !raised ==> |calls| == 1 + 2 * |stats|
    ensures !raised ==> forall i :: 0 <= i < |stats| ==>
      && calls[1 + 2 * i] == DrawCentredString(ColumnCentre(width, |stats|, i), yPos - 0.5 * Inch, stats[i].value)
      && calls[2 + 2 * i] == DrawCentredString(ColumnCentre(width, |stats|, i), yPos - 0.85 * Inch, Upper(stats[i].caption))
  {
    calls := [Rect(0.5 * Inch, yPos - 1.25 * Inch, width - 1.0 * Inch, 1.25 * Inch)];
    if |stats| == 0 {
      raised := true;
      return;
    }
    raised := false;
    var statWidth := (width - 1.0 * Inch) / (|stats| as real);
    var i := 0;
    while i < |stats|
      invariant 0 <= i <= |stats|
      invariant |calls| == 1 + 2 * i
      invariant calls[0] == Rect(0.5 * Inch, yPos - 1.25 * Inch, width - 1.0 * Inch, 1.25 * Inch)
      invariant forall k :: 0 <= k < i ==>
        && calls[1 + 2 * k] == DrawCentredString(ColumnCentre(width, |stats|, k), yPos - 0.5 * Inch, stats[k].value)
        && calls[2 + 2 * k] == DrawCentredString(ColumnCentre(width, |stats|, k), yPos - 0.85 * Inch, Upper(stats[k].caption))
    {
      var x := 0.5 * Inch + (i as real) * statWidth + statWidth / 2.0;
      calls := calls + [DrawCentredString(x, yPos - 0.5 * Inch, stats[i].value),
                        DrawCentredString(x, yPos - 0.85 * Inch, Upper(stats[i].caption))];
      i := i + 1;
    }
  }

  // ---------------------------------------------------------------------------
  // Specialisations and brands

  /** `draw_specializations`: each entry takes a fixed 0.55-inch slot, its
      title on the slot's line and its description 0.2 inch lower, whatever
      the length of either. */
  method DrawSpecializations(specs: seq<Specialization>, yPos: real) returns (calls: seq<DrawCall>, nextY: real)
    ensures |calls| == 2 + 2 * |specs|
    ensures calls[..2] == SectionTitle("CONTENT SPECIALISATION", yPos)
    ensures forall i :: 0 <= i < |specs| ==>
      && calls[2 + 2 * i] == DrawString(TextLeft, yPos - 0.5 * Inch - (i as real) * (0.55 * Inch), specs[i].title)
      && calls[3 + 2 * i] == DrawString(TextLeft, yPos - 0.5 * Inch - (i as real) * (0.55 * Inch) - 0.2 * Inch, specs[i].description)
    ensures nextY == yPos - 0.5 * Inch - (|specs| as real) * (0.55 * Inch)
  {
    calls := SectionTitle("CONTENT SPECIALISATION", yPos);
    var specY := yPos - 0.5 * Inch;
    var i := 0;
    while i < |specs|
      invariant 0 <= i <= |specs|
      invariant |calls| == 2 + 2 * i
      invariant calls[..2] == SectionTitle("CONTENT SPECIALISATION", yPos)
      invariant specY == yPos - 0.5 * Inch - (i as real) * (0.55 * Inch)
      invariant forall k :: 0 <= k < i ==>
        && calls[2 + 2 * k] == DrawString(TextLeft, yPos - 0.5 * Inch - (k as real) * (0.55 * Inch), specs[k].title)
        && calls[3 + 2 * k] == DrawString(TextLeft, yPos - 0.5 * Inch - (k as real) * (0.55 * Inch) - 0.2 * Inch, specs[k].description)
    {
      calls := calls + [DrawString(TextLeft, specY, specs[i].title),
                        DrawString(TextLeft, specY - 0.2 * Inch, specs[i].description)];
      specY := specY - 0.55 * Inch;
      i := i + 1;
    }
    nextY := specY;
  }

  /** `draw_brands`: the title, then all brand names on one line, separated
      by the bullet delimiter; the cursor moves down a fixed 0.8 inch. */
  function DrawBrands(brands: seq<string>, yPos: real): (r: Section)
    ensures |r.calls| == 3 && r.calls[..2] == SectionTitle("BRAND PARTNERS", yPos)
    ensures r.calls[2] == DrawString(TextLeft, yPos - 0.4 * Inch, Join(brands, BrandSeparator))
    ensures r.calls[2].x == r.calls[0].x
    ensures forall k :: 0 <= k < |brands| ==> Contains(r.calls[2].text, brands[k])
    ensures r.nextY < yPos
  {
    JoinHoldsEveryPart(brands, BrandSeparator);
    Section(SectionTitle("BRAND PARTNERS", yPos) + [DrawString(TextLeft, yPos - 0.4 * Inch, Join(brands, BrandSeparator))],
            yPos - 0.8 * Inch)
  }

  /** The brand line holds the names and one delimiter between each pair of
      neighbours (none for no brands), 0.4 inch below the title; the cursor
      advance does not depend on the brands. */
  lemma BrandLine(brands: seq<string>, yPos: real)
    ensures |DrawBrands(brands, yPos).calls| == 3
    ensures DrawBrands(brands, yPos).calls[2].y == yPos - 0.4 * Inch
    ensures DrawBrands(brands, yPos).calls[2].text == Join(brands, BrandSeparator)
    ensures |brands| == 0 ==> DrawBrands(brands, yPos).calls[2].text == ""
    ensures |brands| > 0 ==>
      |DrawBrands(brands, yPos).calls[2].text| == TotalLength(brands) + (|brands| - 1) * |BrandSeparator|
    ensures DrawBrands(brands, yPos).nextY == yPos - 0.8 * Inch
  {
    if |brands| > 0 {
      JoinLength(brands, BrandSeparator);
    }
  }
}
