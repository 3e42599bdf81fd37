/** The lightbox gallery of `initLightbox` (js/main.js, lines 168-267): the
    closure state `currentImages`, `currentIndex`, the `active` class of the
    overlay and what `updateLightboxImage` last wrote into it, driven by
    image clicks, the close/prev/next buttons, the overlay and the keyboard. */
module Lightbox {
  import opened Options

  /** A gallery image element: its identity on the page, its `src` and its
      `alt` attribute ("" when absent). */
  datatype Image = Image(id: nat, src: string, alt: string)

  /** What `updateLightboxImage` writes: the big image's `src` and `alt`, the
      counter "position / total", and whether prev/next are displayed. */
  datatype View = View(src: string, alt: string, position: int, total: nat, navVisible: bool)

  /** The lightbox state. `view` is None until the first update; `bodyLocked`
      is the `overflow: hidden` set on the page body while the lightbox is
      open. */
  datatype Lightbox = Lightbox(active: bool, images: seq<Image>, index: int, view: Option<View>, bodyLocked: bool)

  /** The state a handler leaves, and whether it threw a TypeError on the way
      (reading `src` of a missing image). Assignments made before the throw
      persist, as they do in the browser. */
  datatype Outcome = Outcome(state: Lightbox, threw: bool)

  /** The alt text of the lightbox image when the clicked image has none. */
  const DefaultAlt: string := "Gallery image"

  /** The state right after `initLightbox`: closed, no images, index 0. */
  const Initial: Lightbox := Lightbox(false, [], 0, None, false)

  /** JavaScript's `%` on integers: the remainder takes the sign of the
      dividend (truncating division), unlike Dafny's Euclidean `%`. */
  function JsRem(a: int, n: int): (r: int)
    requires n > 0
    ensures -n < r < n
    ensures a >= 0 ==> r >= 0
    ensures a <= 0 ==> r <= 0
    ensures 0 <= a ==> r == a % n
    ensures -n < a < 0 ==> r == a
  {
    if a >= 0 then a % n else -((-a) % n)
  }

  /** `nextImage`'s new index, `(currentIndex + 1) % currentImages.length`. */
  function NextIndex(i: int, n: int): (r: int)
    requires n > 0
    ensures 0 <= i < n ==> 0 <= r < n && r == (if i + 1 < n then i + 1 else 0)
  {
    JsRem(i + 1, n)
  }

  /** `prevImage`'s new index, `(currentIndex - 1 + currentImages.length) % currentImages.length`. */
  function PrevIndex(i: int, n: int): (r: int)
    requires n > 0
    ensures 0 <= i < n ==> 0 <= r < n && r == (if i > 0 then i - 1 else n - 1)
  {
    JsRem(i - 1 + n, n)
  }

  /** Prev undoes next and next undoes prev, on every index of the gallery. */
  lemma NextPrevInverse(i: int, n: int)
    requires n > 0 && 0 <= i < n
    ensures PrevIndex(NextIndex(i, n), n) == i
    ensures NextIndex(PrevIndex(i, n), n) == i
  {
  }

  /** The index after k presses of next. */
  function NextTimes(i: int, n: int, k: nat): int
    requires n > 0
  {
    if k == 0 then i else NextIndex(NextTimes(i, n, k - 1), n)
  }

  /** k presses of next, for k up to the gallery size, move k places round
      the gallery, wrapping once past the last image. */
  lemma {:induction false} NextTimesAdvances(i: int, n: int, k: nat)
    requires n > 0 && 0 <= i < n && k <= n
    ensures NextTimes(i, n, k) == (if i + k < n then i + k else i + k - n)
  {
    if k > 0 {
      NextTimesAdvances(i, n, k - 1);
    }
  }

  /** n presses of next in a gallery of n images come back to the start. */
  lemma NextTimesReturns(i: int, n: int)
    requires n > 0 && 0 <= i < n
    ensures NextTimes(i, n, n) == i
  {
    NextTimesAdvances(i, n, n);
  }

  /** `Array.prototype.indexOf` on image elements: the first position of
      `img`, or -1 when it is absent. */
  function IndexOf(images: seq<Image>, img: Image): (r: int)
    ensures -1 <= r < |images|
    ensures r == -1 <==> img !in images
    ensures 0 <= r ==> images[r] == img && img !in images[..r]
  {
    if images == [] then -1
    else if images[0] == img then 0
    else
      var r := IndexOf(images[1..], img);
      if r == -1 then -1
      else
        assert images[..r + 1] == [images[0]] + images[1..][..r];
        r + 1
  }

  /** What `updateLightboxImage` displays for image `index` of `images`. */
  function Render(images: seq<Image>, index: int): (v: View)
    requires 0 <= index < |images|
    ensures v.src == images[index].src
    ensures v.alt == (if images[index].alt == "" then DefaultAlt else images[index].alt)
    ensures v.position == index + 1 && v.total == |images|
    ensures 1 <= v.position <= v.total
    ensures v.navVisible <==> v.total > 1
  {
    var img := images[index];
    View(img.src, if img.alt == "" then DefaultAlt else img.alt, index + 1, |images|, |images| > 1)
  }

  /** `updateLightboxImage`: throws when the index does not name an image. */
  function Update(s: Lightbox): (o: Outcome)
    ensures o.threw <==> !(0 <= s.index < |s.images|)
    ensures !o.threw ==> o.state == s.(view := Some(Render(s.images, s.index)))
    ensures o.threw ==> o.state == s
  {
    if 0 <= s.index < |s.images| then Outcome(s.(view := Some(Render(s.images, s.index))), false)
    else Outcome(s, true)
  }

  /** A click on a gallery image (lines 208-217 and `openLightbox`): the
      images of its enclosing gallery, or the image alone when it has none,
      become the current list, the index becomes the clicked image's
      position, and the lightbox shows it and opens. */
  function Open(s: Lightbox, img: Image, gallery: Option<seq<Image>>): (o: Outcome)
    ensures gallery.Some? ==> o.state.images == gallery.value
    ensures gallery.None? ==> o.state.images == [img] && o.state.index == 0
    ensures o.threw <==> gallery.Some? && img !in gallery.value
    ensures !o.threw ==>
      && o.state.active && o.state.bodyLocked
      && 0 <= o.state.index < |o.state.images|
      && o.state.images[o.state.index] == img
      && img !in o.state.images[..o.state.index]
      && o.state.view == Some(Render(o.state.images, o.state.index))
    ensures o.threw ==> o.state.active == s.active && o.state.view == s.view
  {
    var images := if gallery.Some? then gallery.value else [img];
    var index := if gallery.Some? then IndexOf(images, img) else 0;
    var u := Update(s.(images := images, index := index));
    if u.threw then u else Outcome(u.state.(active := true, bodyLocked := true), false)
  }

  /** `closeLightbox`: the lightbox closes and the body scrolls again; the
      image list, the index and the displayed image stay as they were. */
  function Close(s: Lightbox): (r: Lightbox)
    ensures !r.active && !r.bodyLocked
    ensures r.images == s.images && r.index == s.index && r.view == s.view
  {
    s.(active := false, bodyLocked := false)
  }

  /** `nextImage`. With no images the index would become NaN and the update
      throws; the NaN index is not represented, since every later read of it
      throws too until a click replaces it. */
  function Next(s: Lightbox): (o: Outcome)
    ensures |s.images| == 0 ==> o == Outcome(s, true)
    ensures 0 <= s.index < |s.images| ==>
      && !o.threw
      && o.state.index == (if s.index + 1 < |s.images| then s.index + 1 else 0)
      && o.state == s.(index := o.state.index, view := Some(Render(s.images, o.state.index)))
  {
    if |s.images| == 0 then Outcome(s, true)
    else Update(s.(index := NextIndex(s.index, |s.images|)))
  }

  /** `prevImage`, the mirror image of `Next`. */
  function Prev(s: Lightbox): (o: Outcome)
    ensures |s.images| == 0 ==> o == Outcome(s, true)
    ensures 0 <= s.index < |s.images| ==>
      && !o.threw
      && o.state.index == (if s.index > 0 then s.index - 1 else |s.images| - 1)
      && o.state == s.(index := o.state.index, view := Some(Render(s.images, o.state.index)))
  {
    if |s.images| == 0 then Outcome(s, true)
    else Update(s.(index := PrevIndex(s.index, |s.images|)))
  }

  /** The keydown handler: ignored while the lightbox is closed; otherwise
      Escape closes it, ArrowRight and ArrowLeft step through the gallery and
      any other key does nothing. */
  function KeyDown(s: Lightbox, key: string): (o: Outcome)
    ensures !s.active ==> o == Outcome(s, false)
    ensures s.active && key == "Escape" ==> o == Outcome(Close(s), false)
    ensures s.active && key == "ArrowRight" ==> o == Next(s)
    ensures s.active && key == "ArrowLeft" ==> o == Prev(s)
    ensures key !in {"Escape", "ArrowRight", "ArrowLeft"} ==> o == Outcome(s, false)
  {
    if !s.active then Outcome(s, false)
    else if key == "Escape" then Outcome(Close(s), false)
    else if key == "ArrowRight" then Next(s)
    else if key == "ArrowLeft" then Prev(s)
    else Outcome(s, false)
  }

  /** The events the lightbox listens to. */
  datatype Event =
    | ClickImage(img: Image, gallery: Option<seq<Image>>)
    | CloseButton
    | OverlayClick
    | NextButton
    | PrevButton
    | Key(key: string)

  /** One event's handler. Only a click on an image replaces the image list
      or opens the lightbox; the close button and the overlay always close
      it without throwing. */
  function Step(s: Lightbox, e: Event): (o: Outcome)
    ensures !e.ClickImage? ==> o.state.images == s.images
    ensures !e.ClickImage? && o.state.active ==> s.active
    ensures e.CloseButton? || e.OverlayClick? ==> !o.state.active && !o.threw
  {
    match e
    case ClickImage(img, gallery) => Open(s, img, gallery)
    case CloseButton => Outcome(Close(s), false)
    case OverlayClick => Outcome(Close(s), false)
    case NextButton => Next(s)
    case PrevButton => Prev(s)
    case Key(key) => KeyDown(s, key)
  }

  /** The state after a sequence of events; a handler that throws leaves its
      partial assignments and later events are still handled. */
  function Run(s: Lightbox, events: seq<Event>): (r: Lightbox)
    ensures (forall k :: 0 <= k < |events| ==> !events[k].ClickImage?) ==>
      r.images == s.images && (r.active ==> s.active)
    decreases |events|
  {
    if events == [] then s else Run(Step(s, events[0]).state, events[1..])
  }

  /** A click the page can produce: the clicked image belongs to its
      enclosing gallery. */
  predicate WellFormed(e: Event)
  {
    e.ClickImage? && e.gallery.Some? ==> e.img in e.gallery.value
  }

  /** While the lightbox is open it shows the current image of a non-empty
      gallery, and the body is locked exactly while it is open. */
  predicate Consistent(s: Lightbox)
  {
    && (s.active ==> 0 <= s.index < |s.images| && s.view == Some(Render(s.images, s.index)))
    && s.bodyLocked == s.active
  }

  /** Every event the page can produce keeps the lightbox consistent, and
      none of them throws while the lightbox is open. */
  lemma StepConsistent(s: Lightbox, e: Event)
    requires Consistent(s) && WellFormed(e)
    ensures Consistent(Step(s, e).state)
    ensures s.active ==> !Step(s, e).threw
  {
  }

  /** Every run of page events from a consistent state ends consistent. */
  lemma {:induction false} RunConsistent(s: Lightbox, events: seq<Event>)
    requires Consistent(s)
    requires forall k :: 0 <= k < |events| ==> WellFormed(events[k])
    ensures Consistent(Run(s, events))
    decreases |events|
  {
    if events != [] {
      StepConsistent(s, events[0]);
      RunConsistent(Step(s, events[0]).state, events[1..]);
    }
  }

  /** On an open lightbox the counter steps with the buttons: next moves it
      from "k / n" to "k+1 / n" and from "n / n" back to "1 / n", and prev
      moves it the other way. */
  lemma CounterSteps(s: Lightbox)
    requires Consistent(s) && s.active
    ensures Next(s).state.view.Some? && Prev(s).state.view.Some?
    ensures var p := s.view.value.position;
      && Next(s).state.view.value.position == (if p < |s.images| then p + 1 else 1)
      && Prev(s).state.view.value.position == (if p > 1 then p - 1 else |s.images|)
  {
  }

  /** The lightbox starts consistent, so every reachable state is. */
  lemma ReachableConsistent(events: seq<Event>)
    requires forall k :: 0 <= k < |events| ==> WellFormed(events[k])
    ensures Consistent(Run(Initial, events))
  {
    RunConsistent(Initial, events);
  }
}
