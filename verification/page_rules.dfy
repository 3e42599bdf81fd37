/** The small decision rules of the site script (js/main.js): the header's
    scrolled state, the one-way scroll reveal, the work-page category filter
    and the contact-form check. Browser-supplied numbers (`pageYOffset`,
    `innerHeight`, `getBoundingClientRect().top`) are plain inputs. */
module PageRules {
  import opened Options
  import opened Text

  // ---------------------------------------------------------------------------
  // Header (initHeader, lines 15-32)

  /** The scroll offset past which the header is marked scrolled. */
  const HeaderThreshold: real := 50.0

  /** The header's `scrolled` class and the handler's `lastScroll`. */
  datatype Header = Header(scrolled: bool, lastScroll: real)

  /** The header before any scroll event. */
  const InitialHeader: Header := Header(false, 0.0)

  /** One scroll event at page offset `offset`. */
  function HeaderOnScroll(h: Header, offset: real): (r: Header)
    ensures r.scrolled <==> offset > HeaderThreshold
    ensures r.lastScroll == offset
  {
    Header(offset > HeaderThreshold, offset)
  }

  /** The header after a sequence of scroll events, oldest first. */
  function HeaderAfter(h: Header, offsets: seq<real>): Header
    decreases |offsets|
  {
    if offsets == [] then h else HeaderAfter(HeaderOnScroll(h, offsets[0]), offsets[1..])
  }

  /** The header has no memory: after any scrolling it is marked scrolled
      exactly when the latest offset is past the threshold, whatever came
      before. */
  lemma {:induction false} HeaderFollowsLatest(h: Header, offsets: seq<real>)
    requires offsets != []
    ensures HeaderAfter(h, offsets).scrolled <==> offsets[|offsets| - 1] > HeaderThreshold
    ensures HeaderAfter(h, offsets).lastScroll == offsets[|offsets| - 1]
    decreases |offsets|
  {
    if |offsets| > 1 {
      HeaderFollowsLatest(HeaderOnScroll(h, offsets[0]), offsets[1..]);
    }
  }

  /** From page load, the header is marked scrolled exactly when there has
      been a scroll event and the latest offset is past the threshold; before
      any scrolling it is not marked, whatever the page's position. */
  lemma HeaderFromLoad(offsets: seq<real>)
    ensures HeaderAfter(InitialHeader, offsets).scrolled <==>
      offsets != [] && offsets[|offsets| - 1] > HeaderThreshold
  {
    if offsets != [] {
      HeaderFollowsLatest(InitialHeader, offsets);
    }
  }

  // ---------------------------------------------------------------------------
  // Scroll reveal (initScrollReveal, lines 58-77)

  /** How far above the bottom of the window an element's top must rise. */
  const RevealPoint: real := 100.0

  /** One observation of an element: its top relative to the viewport and
      the window height at that moment. */
  datatype Observation = Observation(top: real, windowHeight: real)

  /** Whether an observation reveals the element. */
  predicate Reveals(o: Observation)
  {
    o.top < o.windowHeight - RevealPoint
  }

  /** One pass of `revealOnScroll` over all the `.reveal` elements: an
      element becomes active when its top is above the reveal line and is
      never deactivated. */
  method RevealPass(revealed: seq<bool>, tops: seq<real>, windowHeight: real) returns (r: seq<bool>)
    requires |tops| == |revealed|
    ensures |r| == |revealed|
    ensures forall k :: 0 <= k < |r| ==>
      (r[k] <==> revealed[k] || Reveals(Observation(tops[k], windowHeight)))
  {
    r := [];
    var k := 0;
    while k < |revealed|
      invariant 0 <= k <= |revealed|
      invariant |r| == k
      invariant forall j :: 0 <= j < k ==>
        (r[j] <==> revealed[j] || Reveals(Observation(tops[j], windowHeight)))
    {
      r := r + [revealed[k] || tops[k] < windowHeight - RevealPoint];
      k := k + 1;
    }
  }

  /** One element's class after a sequence of observations (the check on
      load is the first). */
  function RevealAfter(revealed: bool, obs: seq<Observation>): bool
    decreases |obs|
  {
    if obs == [] then revealed else RevealAfter(revealed || Reveals(obs[0]), obs[1..])
  }

  /** Reveal is one-way: an element is active after a run exactly when it
      was active before or some observation in the run revealed it. */
  lemma {:induction false} RevealOnceAlways(revealed: bool, obs: seq<Observation>)
    ensures RevealAfter(revealed, obs) <==> revealed || exists k :: 0 <= k < |obs| && Reveals(obs[k])
    decreases |obs|
  {
    if obs != [] {
      RevealOnceAlways(revealed || Reveals(obs[0]), obs[1..]);
      if exists k :: 0 <= k < |obs[1..]| && Reveals(obs[1..][k]) {
        var k :| 0 <= k < |obs[1..]| && Reveals(obs[1..][k]);
        assert Reveals(obs[k + 1]);
      }
      if exists k :: 0 <= k < |obs| && Reveals(obs[k]) {
        var k :| 0 <= k < |obs| && Reveals(obs[k]);
        if k > 0 {
          assert Reveals(obs[1..][k - 1]);
        }
      }
    }
  }

  // ---------------------------------------------------------------------------
  // Work filter (initWorkFilters, lines 99-123)

  /** A `.work-item`'s `data-category` attribute, None when absent. */
  datatype Item = Item(category: Option<string>)

  /** `item.dataset.category || ''`. */
  function ItemCategories(item: Item): (c: string)
    ensures item.category.None? ==> c == ""
    ensures item.category.Some? ==> c == item.category.value
  {
    ValueOr(item.category, "")
  }

  /** The text `includes` looks for: a missing `data-filter` is `undefined`,
      which `includes` converts to the string "undefined". */
  function SearchText(filter: Option<string>): (t: string)
    ensures filter.None? ==> t == "undefined"
    ensures filter.Some? ==> t == filter.value
  {
    ValueOr(filter, "undefined")
  }

  /** Whether the filter with `data-filter` value `filter` shows `item`. */
  function Shown(filter: Option<string>, item: Item): (b: bool)
    ensures b <==> filter == Some("all") || exists i :: OccursAt(ItemCategories(item), SearchText(filter), i)
  {
    filter == Some("all") || Contains(ItemCategories(item), SearchText(filter))
  }

  /** The click handler of filter `clicked`: it alone becomes active, and
      each item's display is set from `Shown`. */
  method ClickFilter(filters: seq<Option<string>>, clicked: nat, items: seq<Item>)
    returns (active: seq<bool>, shown: seq<bool>)
    requires clicked < |filters|
    ensures |active| == |filters| && |shown| == |items|
    ensures forall k :: 0 <= k < |filters| ==> (active[k] <==> k == clicked)
    ensures forall j :: 0 <= j < |items| ==>
      (shown[j] <==> filters[clicked] == Some("all") || exists i :: OccursAt(ItemCategories(items[j]), SearchText(filters[clicked]), i))
  {
    active := [];
    var k := 0;
    while k < |filters|
      invariant 0 <= k <= |filters|
      invariant |active| == k
      invariant forall m :: 0 <= m < k ==> (active[m] <==> m == clicked)
    {
      active := active + [k == clicked];
      k := k + 1;
    }
    var category := filters[clicked];
    shown := [];
    var j := 0;
    while j < |items|
      invariant 0 <= j <= |items|
      invariant |shown| == j
      invariant forall m :: 0 <= m < j ==> (shown[m] <==> Shown(category, items[m]))
    {
      shown := shown + [Shown(category, items[j])];
      j := j + 1;
    }
  }

  /** The text "" occurs in every string, and only "" occurs in "". */
  lemma OccursInEmpty(s: string, sub: string)
    ensures sub == "" ==> OccursAt(s, sub, 0)
    ensures (exists i :: OccursAt("", sub, i)) <==> sub == ""
  {
    if sub == "" {
      assert OccursAt("", sub, 0);
    }
  }

  /** The "all" filter and a filter whose value is empty show every item. */
  lemma AllShowsEverything(filter: Option<string>, item: Item)
    requires filter == Some("all") || filter == Some("")
    ensures Shown(filter, item)
  {
    OccursInEmpty(ItemCategories(item), SearchText(filter));
  }

  /** An item without a category is shown only by "all" and by an empty
      filter value. */
  lemma UncategorisedItem(filter: Option<string>)
    ensures Shown(filter, Item(None)) <==> filter == Some("all") || filter == Some("")
  {
    OccursInEmpty("", SearchText(filter));
  }

  // ---------------------------------------------------------------------------
  // Contact form (initContactForm, lines 126-156)

  /** A field's border after validation: the error colour `#c00`, or cleared. */
  datatype Border = ErrorBorder | Cleared

  /** The border a field must end with: the error colour exactly when its
      value is all white space. */
  function BorderOf(value: string): Border
  {
    if AllJsSpace(value) then ErrorBorder else Cleared
  }

  /** The border check over the fields in order (name, email, message): a
      field whose trimmed value is empty gets the error border, any other is
      cleared, and the form is valid when no field was empty. */
  method CheckFields(values: seq<string>) returns (valid: bool, borders: seq<Border>)
    ensures |borders| == |values|
    ensures forall k :: 0 <= k < |values| ==> (borders[k] == ErrorBorder <==> AllJsSpace(values[k]))
    ensures valid <==> forall k :: 0 <= k < |values| ==> !AllJsSpace(values[k])
  {
    ghost var expected := seq(|values|, m requires 0 <= m < |values| => BorderOf(values[m]));
    valid := true;
    borders := [];
    var k := 0;
    while k < |values|
      invariant 0 <= k <= |values|
      invariant borders == expected[..k]
      invariant valid <==> ErrorBorder !in borders
    {
      var b := if IsBlank(values[k]) then ErrorBorder else Cleared;
      PrefixSnoc(expected, k);
      borders := borders + [b];
      if b == ErrorBorder {
        valid := false;
      }
      k := k + 1;
    }
    assert expected[..|values|] == expected;
    BordersMeaning(values, borders);
  }

  /** The borders of the check, read back as facts about the field values. */
  lemma BordersMeaning(values: seq<string>, borders: seq<Border>)
    requires borders == seq(|values|, m requires 0 <= m < |values| => BorderOf(values[m]))
    ensures forall k :: 0 <= k < |values| ==> (borders[k] == ErrorBorder <==> AllJsSpace(values[k]))
    ensures ErrorBorder !in borders <==> forall k :: 0 <= k < |values| ==> !AllJsSpace(values[k])
  {
    if ErrorBorder in borders {
      var k :| 0 <= k < |borders| && borders[k] == ErrorBorder;
      assert AllJsSpace(values[k]);
    }
  }

  lemma PrefixSnoc<T>(s: seq<T>, k: nat)
    requires k < |s|
    ensures s[..k + 1] == s[..k] + [s[k]]
  {
  }

  /** The submit handler: the three fields are checked, and only a valid
      form is reset (every field emptied) and acknowledged; an invalid form
      keeps its values. */
  method Submit(name: string, email: string, message: string)
    returns (valid: bool, borders: seq<Border>, after: seq<string>)
    ensures valid <==> !AllJsSpace(name) && !AllJsSpace(email) && !AllJsSpace(message)
    ensures |borders| == 3
    ensures borders[0] == ErrorBorder <==> AllJsSpace(name)
    ensures borders[1] == ErrorBorder <==> AllJsSpace(email)
    ensures borders[2] == ErrorBorder <==> AllJsSpace(message)
    ensures after == (if valid then ["", "", ""] else [name, email, message])
  {
    var values := [name, email, message];
    valid, borders := CheckFields(values);
    assert values[0] == name && values[1] == email && values[2] == message;
    if valid {
      after := ["", "", ""];
    } else {
      after := [name, email, message];
    }
  }
}
