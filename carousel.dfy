/** The result carousel: one slot per style holding the generated image (or
    nothing yet), circular navigation over the styles, the per-slide spinner
    and the name under which a slide is downloaded. */
module Carousel {
  import opened Js

  /** An object URL from `URL.createObjectURL`; such URLs are never empty. */
  type Url = s: string | |s| > 0 witness "blob:"

  /** A key that addresses an element of a JavaScript array. */
  predicate IsIndex(i: Number) {
    i.Int? && i.value >= 0
  }

  /** The generated-image array: its elements, `null` (or a hole) until a slot
      is fetched, and the properties stored under keys that are not indices
      (`NaN` or a negative number). */
  datatype ImageArray = ImageArray(elements: seq<Option<Url>>, properties: map<Number, Url>)

  /** An array with the given elements and no other property. */
  function Plain(elements: seq<Option<Url>>): ImageArray {
    ImageArray(elements, map[])
  }

  /** `images[i]`: an element for an index, a property for any other key, and
      undefined where neither exists. */
  function Slot(images: ImageArray, i: Number): (r: Option<Url>)
    ensures IsIndex(i) && i.value >= |images.elements| ==> r.None?
    ensures IsIndex(i) && i.value < |images.elements| ==> r == images.elements[i.value]
    ensures !IsIndex(i) ==> (r.Some? <==> i in images.properties)
    ensures r.Some? && !IsIndex(i) ==> r.value == images.properties[i]
  {
    if IsIndex(i) then
      if i.value < |images.elements| then images.elements[i.value] else None
    else if i in images.properties then Some(images.properties[i])
    else None
  }

  /** `images[i]` is truthy. */
  predicate Filled(images: ImageArray, i: Number) {
    Slot(images, i).Some?
  }

  function Max(a: int, b: int): int {
    if a < b then b else a
  }

  /** `const copy = [...images]; copy[i] = url`: the spread copies the elements
      and no other property; the write then overwrites an index inside the
      array, grows the array for one past its end (the gap reads as empty),
      or stores a property under any other key. */
  function SetSlot(images: ImageArray, i: Number, url: Url): (r: ImageArray)
    ensures Slot(r, i) == Some(url)
    ensures IsIndex(i) ==> |r.elements| == Max(|images.elements|, i.value + 1) && r.properties == map[]
    ensures !IsIndex(i) ==> r.elements == images.elements && r.properties == map[i := url]
    ensures forall k :: 0 <= k < |images.elements| && Int(k) != i ==> r.elements[k] == images.elements[k]
    ensures forall k :: |images.elements| <= k < |r.elements| && Int(k) != i ==> r.elements[k] == None
  {
    var copy := images.elements;
    if IsIndex(i) then
      if i.value < |copy| then Plain(copy[i.value := Some(url)])
      else Plain(copy + seq(i.value - |copy|, _ => None) + [Some(url)])
    else ImageArray(copy, map[i := url])
  }

  /** `after` keeps every element of `before` that was filled, with the same
      image: elements are only ever filled in, never cleared or replaced. */
  ghost predicate Extends(before: ImageArray, after: ImageArray) {
    |before.elements| <= |after.elements| &&
    forall k :: 0 <= k < |before.elements| && before.elements[k].Some? ==> after.elements[k] == before.elements[k]
  }

  /** Filling a slot that reads as empty keeps every filled element and makes
      that slot read back the image; an index inside the array keeps the
      length, and a write to an element drops the copied-away properties. */
  lemma FillEmptySlot(images: ImageArray, i: Number, url: Url)
    requires !Filled(images, i)
    ensures Extends(images, SetSlot(images, i, url))
    ensures Filled(SetSlot(images, i, url), i)
    ensures !(IsIndex(i) && i.value >= |images.elements|) ==> |SetSlot(images, i, url).elements| == |images.elements|
  {
  }

  /** The slot array and the style list have one entry each per style, except
      after zero styles came back, when slot 0 still holds the first image. */
  predicate Aligned(images: ImageArray, styles: seq<string>) {
    |images.elements| == |styles| || (|styles| == 0 && |images.elements| == 1)
  }

  /** The state `new Array(n).fill(null)` followed by `[0] = url` leaves. */
  ghost predicate Seeded(slots: ImageArray, n: nat, url: Url) {
    |slots.elements| == Max(n, 1) && slots.elements[0] == Some(url) && slots.properties == map[] &&
    forall k :: 1 <= k < |slots.elements| ==> slots.elements[k] == None
  }

  /** Builds the initial slot array for `n` styles, with the first generated
      image in slot 0. With no styles the write at index 0 grows the empty
      array to one element. */
  method SeedSlots(n: nat, url: Url) returns (slots: ImageArray)
    ensures Seeded(slots, n, url)
    ensures n >= 1 ==> |slots.elements| == n
    ensures Filled(slots, Int(0)) && forall k :: k != Int(0) ==> !Filled(slots, k)
  {
    var initial := new Option<Url>[n](_ => None);
    slots := SetSlot(Plain(initial[..]), Int(0), url);
  }

  /** A freshly seeded array lines up with any non-empty style list of the
      same length, and with an empty one only in the relaxed form. */
  lemma SeededAligned(slots: ImageArray, styles: seq<string>, url: Url)
    requires Seeded(slots, |styles|, url)
    ensures Aligned(slots, styles)
    ensures |slots.elements| == |styles| <==> |styles| >= 1
  {
  }

  // ---- Navigation ----

  /** `(currentSlide + 1) % styles.length`. */
  function NextSlide(current: Number, n: nat): (r: Number)
    ensures n == 0 || current.NaN? ==> r.NaN?
    ensures n > 0 && current.Int? && current.value >= 0 ==> r.Int? && 0 <= r.value < n
  {
    match current
    case NaN => NaN
    case Int(c) => Rem(c + 1, n)
  }

  /** `(currentSlide - 1 + styles.length) % styles.length`. */
  function PrevSlide(current: Number, n: nat): (r: Number)
    ensures n == 0 || current.NaN? ==> r.NaN?
    ensures n > 0 && current.Int? && current.value >= 0 ==> r.Int? && 0 <= r.value < n
  {
    match current
    case NaN => NaN
    case Int(c) => Rem(c - 1 + n, n)
  }

  /** Inside the carousel, "next" moves one slide on and wraps from the last
      slide to the first. */
  lemma NextSteps(c: nat, n: nat)
    requires c < n
    ensures NextSlide(Int(c), n) == if c == n - 1 then Int(0) else Int(c + 1)
  {
    if c == n - 1 {
      RemWrapOnce(c + 1, n);
    } else {
      RemOfSmall(c + 1, n);
    }
  }

  /** "Previous" moves one slide back and wraps from the first slide to the last. */
  lemma PrevSteps(c: nat, n: nat)
    requires c < n
    ensures PrevSlide(Int(c), n) == if c == 0 then Int(n - 1) else Int(c - 1)
  {
    if c == 0 {
      RemOfSmall(n - 1, n);
    } else {
      RemWrapOnce(c - 1 + n, n);
    }
  }

  /** "Previous" undoes "next" and "next" undoes "previous". */
  lemma NavigationInverse(c: nat, n: nat)
    requires c < n
    ensures PrevSlide(NextSlide(Int(c), n), n) == Int(c)
    ensures NextSlide(PrevSlide(Int(c), n), n) == Int(c)
  {
    NextSteps(c, n);
    PrevSteps(c, n);
    var next := if c == n - 1 then 0 else c + 1;
    var prev := if c == 0 then n - 1 else c - 1;
    PrevSteps(next, n);
    NextSteps(prev, n);
  }

  // ---- Spinner and download ----

  /** The spinner condition of slide `index`: a swap is loading, the slide is
      the current one, and its slot is still empty. */
  predicate ShowsSpinner(loading: bool, index: nat, current: Number, images: ImageArray): (b: bool)
    ensures b <==> loading && current == Int(index) &&
                   (index >= |images.elements| || images.elements[index].None?)
  {
    loading && current == Int(index) && !Filled(images, Int(index))
  }

  /** At most one slide shows the spinner, and never one whose image is there. */
  lemma SpinnerOnCurrentOnly(loading: bool, i: nat, j: nat, current: Number, images: ImageArray)
    requires ShowsSpinner(loading, i, current, images)
    ensures ShowsSpinner(loading, j, current, images) ==> i == j
    ensures current == Int(i) && Slot(images, current).None?
  {
  }

  const DOWNLOAD_PREFIX := "drape-style-"
  const DOWNLOAD_SUFFIX := ".png"

  /** `drape-style-${currentSlide + 1}.png`: slides are numbered from one,
      and a NaN slide gives `drape-style-NaN.png`. */
  function DownloadName(slide: Number): (r: string)
    ensures StartsWith(r, DOWNLOAD_PREFIX) && EndsWith(r, DOWNLOAD_SUFFIX)
    ensures |r| > |DOWNLOAD_PREFIX| + |DOWNLOAD_SUFFIX|
    ensures ParseNumber(r[|DOWNLOAD_PREFIX|..|r| - |DOWNLOAD_SUFFIX|]) == Some(Inc(slide))
    ensures IsIndex(slide) ==>
              AllDigits(r[|DOWNLOAD_PREFIX|..|r| - |DOWNLOAD_SUFFIX|]) &&
              ParseDecimal(r[|DOWNLOAD_PREFIX|..|r| - |DOWNLOAD_SUFFIX|]) == slide.value + 1 &&
              r[|DOWNLOAD_PREFIX|] != '0'
    ensures slide.NaN? ==> r == "drape-style-NaN.png"
  {
    var middle := NumberText(Inc(slide));
    NumberTextRoundTrip(Inc(slide));
    if IsIndex(slide) then
      DecimalRoundTrip(slide.value + 1);
      var r := DOWNLOAD_PREFIX + middle + DOWNLOAD_SUFFIX;
      assert r[|DOWNLOAD_PREFIX|..|r| - |DOWNLOAD_SUFFIX|] == middle;
      r
    else
      var r := DOWNLOAD_PREFIX + middle + DOWNLOAD_SUFFIX;
      assert r[|DOWNLOAD_PREFIX|..|r| - |DOWNLOAD_SUFFIX|] == middle;
      r
  }

  /** Different slides are saved under different names. */
  lemma DownloadNamesDistinct(a: Number, b: Number)
    requires DownloadName(a) == DownloadName(b)
    ensures a == b
  {
    assert Inc(a) == Inc(b);
  }
}
