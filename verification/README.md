# NUBEAUX media kits and site script, modelled in Dafny

This project models two small pieces of the NUBEAUX Collective site.

**The media-kit PDF generator** (`assets/media_kits/generate_media_kits.py`)
lays out a creator's one-page kit. The model covers:

- the greedy word wrapper of the about paragraph and the placement of its
  (at most six) lines;
- the stats grid with its column centres;
- the specialisation list and the brand strip;
- the vertical cursor each renderer returns.

A renderer is modelled by the canvas calls it issues, in order (`DrawString`,
`DrawCentredString`, `Line`, `Rect`), and by the cursor it returns.
Coordinates are exact reals in points, with one inch = 72. The text-width
function (`stringWidth` at Helvetica 10 pt) is an uninterpreted parameter
`measure`, and nothing is assumed about it.

**The site script** (`js/main.js`) drives the gallery lightbox and a few
page behaviours. The model covers:

- the lightbox as an immutable state record (`active`, the current image
  list, the index, what was last displayed, and whether page scrolling is
  locked), with one function per handler: open, close, next, prev, keydown;
- the header's scrolled threshold;
- the one-way scroll reveal;
- the work-page category filter;
- the contact-form check.

Browser-supplied numbers such as the scroll offset, the window height and an
element's top are plain inputs.

Modules:

- `Text`: Python `str.split()` and `str.join`, and JavaScript `trim` and
  `includes`;
- `Wrap`: the greedy wrap loop on words, and a declarative description of
  its result;
- `AboutWrap` and `About`: the about section at the level of strings and
  canvas calls;
- `Canvas`: the page unit, the canvas calls and the section title;
- `Sections`: stats, specialisations and brands;
- `Lightbox`;
- `PageRules`;
- `Options`.

The wrap loop is specified by `IsGreedyWrap`. Its conjuncts are:

- the lines hold the words, in order;
- only line 0 may be empty, and the last line is not;
- every append the loop made passed the width test;
- the word that opens each following line failed it on the line before.

`WrapWords` is proved to meet this description, and `GreedyWrapUnique`
proves that no other grouping meets it. The string-level lemmas in `About`
are therefore facts about exactly what the loop computes.

The lightbox handlers do not assume a well-behaved page. Each handler that
can fail returns an `Outcome` that says whether reading the current image
threw. Assignments made before the throw are kept, as in the browser. The
invariant `Consistent` says that an open lightbox shows the current image of
a non-empty gallery, and that page scrolling is locked exactly while it is
open. It is proved to hold after every run of events the page can produce.

Notes on the generator's code, which the model follows:

- the stats grid draws no separating rules between columns;
- `draw_brands` draws the brand names as one line of text;
- with an empty stats list the background band is drawn, and then the
  column width divides by zero (`DrawStats` reports this as
  `raised`);
- when the first word alone is at least as wide as the column, the loop first emits
  an empty line 0 and then starts line 1 with that word
  (`About.WrapFirstLine`). A later over-long word simply starts a line of
  its own.

## Model

| member | source | states |
|---|---|---|
| `Wrap.WrapWords` | assets/media_kits/generate_media_kits.py:74-86 | The groups the loop builds are a greedy wrap of the words: they hold the words in order, only the first may be empty, the last is not, every word appended to a line was accepted by the strict width test `measure(line) < max_width`, and the first word of every following line was rejected by the line before |
| `Wrap.GreedyWrapUnique` | assets/media_kits/generate_media_kits.py:78-86 | The greedy description admits only one grouping of given words, so it pins down what the loop returns for every measure and width, monotone or not |
| `Wrap.GroupFits` | assets/media_kits/generate_media_kits.py:79-81 | A line holding two or more words, or a non-empty first line, passed the width test |
| `Wrap.GroupMaximal` | assets/media_kits/generate_media_kits.py:79-84 | A non-empty line, a space and the next line's first word together measure at least `max_width`: that word was rejected by the line |
| `Wrap.NoWordsNoLines` | assets/media_kits/generate_media_kits.py:73-86 | The wrap has no lines exactly when the text has no words |
| `Wrap.FirstGroup` | assets/media_kits/generate_media_kits.py:78-84 | The first line is empty exactly when the first word alone fails the width test (the loop then closes the empty line), and otherwise fits |
| `Text.Split` | assets/media_kits/generate_media_kits.py:73 | `str.split()` yields non-empty words free of white space |
| `Text.SplitAtSpace` | assets/media_kits/generate_media_kits.py:73 | Cutting the text at any white-space character cuts its word list there: `split(a + c + b) = split(a) + split(b)`. With `split("") = []` and `SplitWord`, this fixes the words of every text |
| `Text.SplitWord` | assets/media_kits/generate_media_kits.py:73 | A text that is one word splits into exactly that word |
| `Text.SplitEmptyIffBlank` | assets/media_kits/generate_media_kits.py:73 | A text splits into no words exactly when it is all white space |
| `Text.SplitJoin` | assets/media_kits/generate_media_kits.py:79-86 | Words joined with single spaces split back into the same words, so no word of the paragraph is altered by wrapping |
| `Text.JoinWordsEmpty` | assets/media_kits/generate_media_kits.py:83 | Joining words gives the empty line only for no words |
| `AboutWrap.WordsOfJoinLines` | assets/media_kits/generate_media_kits.py:83-86 | Re-splitting every joined line gives back its group of words |
| `AboutWrap.LineWords` | assets/media_kits/generate_media_kits.py:83-86 | Re-splitting one joined line gives back its group of words |
| `AboutWrap.LineEmptyIff` | assets/media_kits/generate_media_kits.py:83-86 | A joined line is the empty string exactly when its group is empty |
| `AboutWrap.WrapAbout` | assets/media_kits/generate_media_kits.py:73-86 | The lines returned are the greedy wrap of the paragraph's words, each joined by single spaces |
| `About.WrappedTextUnique` | assets/media_kits/generate_media_kits.py:73-86 | The wrapped lines of a paragraph are determined by the text, measure and width |
| `About.WrapKeepsWords` | assets/media_kits/generate_media_kits.py:73-86 | The words of the lines, in order, are the words of the paragraph; no words gives no lines; every line after the first has a word |
| `About.WrapFirstLine` | assets/media_kits/generate_media_kits.py:78-84 | Line 0 is "" exactly when the first word alone is at least `max_width` wide; a non-empty line 0 fits |
| `About.WrapWidthBound` | assets/media_kits/generate_media_kits.py:79-81 | A line of two or more words is narrower than `max_width` (a single over-long word may not be) |
| `About.WrapMaximal` | assets/media_kits/generate_media_kits.py:79-84 | Greedy maximality: a non-empty line followed by a space and the next line's first word is at least `max_width` wide |
| `About.PlaceAboutLines` | assets/media_kits/generate_media_kits.py:67-93 | The title and its rule, then only the first min(n, 6) lines, line k at `y_pos - 0.4in - k*0.2in`; the cursor returned is `y_pos - 0.4in - 0.2in*min(n, 6) - 0.2in` |
| `About.DrawAbout` | assets/media_kits/generate_media_kits.py:65-93 | The about section wraps into a column 1.5 in narrower than the page and draws and returns as above |
| `Sections.ColumnCentreFormula` | assets/media_kits/generate_media_kits.py:43-45 | Column i is centred at `0.5in + (i + 1/2)(width - 1in)/n`, and neighbouring centres are one column width apart |
| `Sections.ColumnCentresIncrease` | assets/media_kits/generate_media_kits.py:43-45 | On a page wider than the margins, column centres strictly increase |
| `Sections.ColumnCentre` | assets/media_kits/generate_media_kits.py:41-45 | The x of column i's centre (`0.5in + i*w + w/2` with `w = (width - 1in)/n`); on a page wider than the margins it lies strictly inside the background band |
| `Sections.DrawStats` | assets/media_kits/generate_media_kits.py:38-53 | The band is drawn first; with no stats the column width divides by zero right after it; otherwise each stat's value and upper-cased caption are centred in its column at fixed heights |
| `Sections.Upper` | assets/media_kits/generate_media_kits.py:53 | Upper-casing keeps the length, leaves no lower-case ASCII letter, maps each one to its capital and keeps every other character |
| `Sections.DrawSpecializations` | assets/media_kits/generate_media_kits.py:95-111 | Entry i is drawn at `y_pos - 0.5in - i*0.55in`, its description 0.2 in lower; the cursor is `y_pos - 0.5in - 0.55in*n`, whatever the texts |
| `Sections.BrandLine` | assets/media_kits/generate_media_kits.py:113-122 | One line 0.4 in below the title whose text is the names joined by `"  •  "` in order, so it is as long as the names plus n-1 delimiters (empty for no brands); the cursor moves down exactly 0.8 in |
| `Text.JoinLength` | assets/media_kits/generate_media_kits.py:119 | A join of n parts is as long as the parts plus n-1 separators |
| `Text.Join` | assets/media_kits/generate_media_kits.py:79-86 | `sep.join(parts)` is "" for no parts and otherwise begins with the first part |
| `Text.JoinHoldsPart` | assets/media_kits/generate_media_kits.py:119 | Every part occurs as a substring of the join |
| `Canvas.SectionTitle` | assets/media_kits/generate_media_kits.py:55-63 | A title is the title text at the cursor, then a horizontal rule below it that starts at the text's left edge and runs to the right |
| `Sections.DrawBrands` | assets/media_kits/generate_media_kits.py:113-122 | The brands section is the title and one line 0.4 in below it, at the title's left edge, drawing `"  •  ".join(brands)`, which contains every brand name; the cursor moves down |
| `Lightbox.JsRem` | js/main.js:244-249 | JavaScript `%` with a positive divisor: the remainder is smaller than the divisor in size, takes the dividend's sign, and agrees with the mathematical remainder on non-negative dividends |
| `Lightbox.NextIndex` | js/main.js:243-246 | For 0 <= i < n, next stays in range and moves to i+1, wrapping from the last image to 0 |
| `Lightbox.PrevIndex` | js/main.js:248-251 | For 0 <= i < n, prev stays in range and moves to i-1, wrapping from 0 to the last image |
| `Lightbox.NextPrevInverse` | js/main.js:243-251 | prev(next(i)) = i and next(prev(i)) = i |
| `Lightbox.NextTimesAdvances` | js/main.js:243-246 | k <= n presses of next move k places round the gallery, wrapping once |
| `Lightbox.NextTimesReturns` | js/main.js:243-246 | n presses of next return to the starting image |
| `Lightbox.IndexOf` | js/main.js:211 | `indexOf` gives the first position of the image, or -1 exactly when it is absent |
| `Lightbox.Render` | js/main.js:232-241 | The shown image has the current image's src; its alt is the image's alt, or "Gallery image" when that is empty; the counter reads index+1 of n; prev/next are displayed exactly when n > 1 |
| `Lightbox.CounterSteps` | js/main.js:236-251 | On an open lightbox the counter follows the buttons: next takes "k / n" to "k+1 / n" and "n / n" to "1 / n"; prev goes the other way |
| `Lightbox.Update` | js/main.js:232-241 | The update throws exactly when the index names no image; otherwise only the display changes |
| `Lightbox.Open` | js/main.js:202-225 | A click takes the enclosing gallery's images, or the image alone when there is no gallery, and the image's first position in it. The lightbox then shows that image and opens, with scrolling locked. It throws only when the image is missing from its gallery |
| `Lightbox.Close` | js/main.js:227-230 | Closing deactivates and unlocks scrolling; images, index and display are unchanged |
| `Lightbox.Next` | js/main.js:243-246 | With a valid index, next never throws, moves one place with wrap-around and displays the new image; with no images it throws |
| `Lightbox.Prev` | js/main.js:248-251 | With a valid index, prev never throws, moves one place back with wrap-around and displays the new image; with no images it throws |
| `Lightbox.KeyDown` | js/main.js:260-266 | A closed lightbox ignores keys; an open one closes on Escape (index unchanged), steps on ArrowRight/ArrowLeft and ignores other keys |
| `Lightbox.Step` | js/main.js:204-266 | Each listener runs its handler; only a click on an image replaces the image list or opens the lightbox, and the close button and the overlay always close it without throwing |
| `Lightbox.Run` | js/main.js:204-266 | A run of events without an image click keeps the image list and never opens a closed lightbox |
| `Lightbox.StepConsistent` | js/main.js:202-266 | Every handler keeps the lightbox consistent, and none throws while it is open |
| `Lightbox.RunConsistent` | js/main.js:202-266 | Any run of page events from a consistent state ends consistent |
| `Lightbox.ReachableConsistent` | js/main.js:198-266 | Every state reachable from the initial one is consistent |
| `PageRules.HeaderOnScroll` | js/main.js:21-31 | One scroll event marks the header scrolled exactly when the offset is strictly greater than 50, and records the offset |
| `PageRules.HeaderFromLoad` | js/main.js:15-31 | From page load the header is marked scrolled exactly when some scroll event occurred and the latest offset exceeds 50; with no scrolling it is not marked |
| `PageRules.HeaderFollowsLatest` | js/main.js:21-31 | After any scrolling, the header is marked scrolled exactly when the latest offset exceeds 50, independent of earlier offsets |
| `PageRules.RevealPass` | js/main.js:63-73 | After one pass, an element is active exactly when it was before or its top is above `innerHeight - 100` |
| `PageRules.RevealOnceAlways` | js/main.js:63-76 | Reveal is one-way: an element is active exactly when it was at the start or some observation revealed it |
| `PageRules.ItemCategories` | js/main.js:114 | An item's category text is its attribute, or '' when the attribute is missing |
| `PageRules.SearchText` | js/main.js:111-115 | The text searched for is the filter's value, or "undefined" when the filter has none |
| `PageRules.Shown` | js/main.js:111-119 | An item is shown exactly when the filter is 'all' or the filter text occurs as a substring of the item's categories; a missing category counts as '' and a missing filter searches for "undefined" |
| `PageRules.ClickFilter` | js/main.js:105-122 | After a click exactly the clicked filter is active, and each item's visibility is decided as above |
| `PageRules.AllShowsEverything` | js/main.js:115 | The 'all' filter and an empty filter value show every item |
| `PageRules.UncategorisedItem` | js/main.js:114-115 | An item without a category is shown only by 'all' or an empty filter value |
| `Text.Contains` | js/main.js:115 | `includes` holds exactly when the text occurs at some offset |
| `Text.Trim` | js/main.js:141 | `trim()` returns a slice of the value with only white space before and after it, and a non-empty result neither starts nor ends with white space |
| `Text.TrimCharacterization` | js/main.js:141 | Trimming leaves nothing exactly when the value is all white space |
| `Text.IsBlank` | js/main.js:141 | A field counts as empty exactly when its value is all JavaScript white space |
| `PageRules.CheckFields` | js/main.js:138-147 | Each field's border is independently set to the error colour exactly when it is blank, and cleared otherwise; the form is valid exactly when no field is blank |
| `PageRules.Submit` | js/main.js:130-155 | The form is valid exactly when name, email and message are all non-blank; it is reset only when valid, and an invalid form keeps its values |

## Left out

- `draw_header` and `draw_contact` are not modelled. They draw fixed texts at constant positions and hold no logic.
- The hard-coded creator data, the PDF file paths, `c.save()` and the `print` output of the script's main part (generate_media_kits.py lines 136-219) are not modelled. They are data and I/O.
- Colours, fonts and line widths are not modelled, nor are the reportlab canvas's effects beyond the sequence of calls.
- `stringWidth` is an uninterpreted `measure`, because its glyph metrics belong to reportlab.
- Coordinates are exact reals rather than floating point, so rounding in the cursor arithmetic is not modelled.
- `Sections.DrawStats`: the unused `height` parameter is dropped.
- `Sections.Upper`: only ASCII letters are upper-cased, while Python's `str.upper()` also maps non-ASCII letters and may lengthen a string (for example "ß" becomes "SS"). Full Unicode case tables are out of scope.
- `Lightbox.Next`: when there are no images, JavaScript sets the index to NaN before the update throws. The model keeps the old index and records the throw. Every later read of the index throws as well until a click replaces it.
- `Lightbox.Prev`: same as `Lightbox.Next` for an empty image list.
- `Lightbox.Render`: the counter is kept as its two numbers, index+1 and n, not as the formatted text "i / n" built from them.
- The lightbox's DOM construction (js/main.js lines 170-196) is not modelled. Neither is the early exit when the page has no gallery images, nor the CSS that hides the closed lightbox.
- The page-scroll lock is a boolean owned by the lightbox. The mobile menu also writes `document.body.style.overflow`, and that interplay is not modelled.
- The mobile menu (lines 35-55) and smooth scrolling (lines 80-96) are not modelled. They hold no decision logic beyond DOM calls.
- The early exits of `initWorkFilters` and `initContactForm` are not modelled. With no filters, items or form, no handler is installed, so there is nothing to decide.
- `PageRules.Submit`: `form.reset()` restores each field's default value, and the model takes those defaults to be empty. `console.log` and `alert` are not modelled.
- Form fields that `querySelector` might not find (a null field) are not modelled. The contact form always has them.
- The header's `lastScroll` is recorded but never read by the script, so no property depends on it.
- Each `.reveal` element is handled independently, from its own position. Layout, and so how positions change while scrolling, is an input.
