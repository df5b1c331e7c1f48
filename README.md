# Drape page controller, modelled in Dafny

This project models the single-page controller `Home` of the Drape web client.
The user uploads a photo and enters a destination, an event and a theme. The
backend then returns outfit-styled versions of the photo, which the page shows
in a carousel with one slide per style.

The controller is a four-phase state machine: welcome, input, generating,
result. Its state is held in page-level fields, and each handler is a guarded
transition over them. The model keeps that form:

- `js.dfy` (module `Js`): the JavaScript semantics the handlers rely on.
  - nullable values (`Option`) and settled promises (`Settled`);
  - integral numbers that may be `NaN` (`Number`), and the truncating `%`
    operator (`Rem`), which yields `NaN` for a zero divisor;
  - `toLowerCase`, `startsWith` and `endsWith`;
  - the text of a template literal `${n}` (`NumberText`, built on `Decimal`),
    with its parser.
- `upload.dfy` (module `Upload`): the upload handler's pure parts.
  - the `image/` MIME guard and the HEIC test;
  - the rename `name.replace(/\.[^/.]+$/, ".jpg")`, specified against the
    pattern's own meaning (`ExtensionAt`);
  - `Accept`, the file the handler ends up keeping, if any.
- `carousel.dfy` (module `Carousel`): the carousel's pure parts.
  - the slot array (`ImageArray`): its elements, and the properties a write
    stores under a key that is not an index;
  - JavaScript's array read (`Slot`) and copy-then-write (`SetSlot`);
  - seeding the array with `new Array(n).fill(null)` and then `[0] = url`;
  - the previous and next index expressions, the spinner condition, and the
    download file name.
- `page.dfy` (module `Page`): the class `Home`.
  - its fields are the page's state variables;
  - its methods are the handlers, each of which `modifies` the fields the
    source updates.

Asynchronous handlers are modelled as single atomic transitions. Whatever the
backend, the HEIC converter or the browser would return enters as a parameter:
`Fulfilled(value)` or `Rejected` for an awaited call, and a `Url` for
`URL.createObjectURL`.

Two edge cases are modelled as the code is written:

- **Zero styles.** If the backend returns no styles, `new Array(0).fill(null)`
  followed by `[0] = imageUrl` leaves a slot array of length 1 beside a style
  list of length 0.
  - The page invariant `Aligned` is therefore "equal lengths, or no styles and
    one slot".
  - `SeededAligned` proves that strict equality holds exactly when there is at
    least one style.
- **Wrap arithmetic with no styles.** Here `% 0` evaluates to `NaN`, so
  `NextSlide` and `PrevSlide` return `NaN`, and the current slide can become
  `NaN`.
  - A swap request is then sent with index `NaN`. Its result is written as
    `newImages[NaN] = imageUrl`, which stores a property of the array under
    the key `NaN`, not an element.
  - `generatedImages[NaN]` reads that property back. A second "next" or
    "previous" therefore sends no request, and a download saves that image
    as `drape-style-NaN.png` (`ZeroStyleScenario`).
  - The next swap that writes an element copies the array with `[...prev]`,
    which copies elements only, so the `NaN` property is dropped again.

Three further behaviours of the code, each of which the model follows:

- The generated-image array does not always have the style list's length:
  the zero-style case above has one slot and no styles.
- A file is accepted only when its declared type starts with `image/`. The
  `.heic` name test runs only after that guard, so `photo.heic` with type
  `application/octet-stream` is rejected (`Accept`'s first ensures).
- A failed HEIC conversion returns from the handler before any state update,
  so every field stays as it was, whatever the phase.

## Model

| member | source | states |
|---|---|---|
| `Js.Rem` | src/app/page.tsx:185-186 | `%` is NaN exactly for a zero divisor; otherwise the remainder is smaller in magnitude than the divisor, has the dividend's sign, and differs from the dividend by a multiple of the divisor |
| `Js.RemainderLeavesMultiple` | src/app/page.tsx:185-186 | helper lemma of `Js.Rem`, about Dafny's own Euclidean `%`: taking the remainder away from a number, or the number from its remainder, leaves a multiple of the divisor |
| `Js.ModUnique` | src/app/page.tsx:185-186 | helper lemma of `Js.Rem`, about Dafny's own Euclidean `%`: a decomposition into a multiple of the divisor and a remainder in range fixes the remainder |
| `Js.RemOfSmall` | src/app/page.tsx:185-186 | a non-negative dividend below the divisor is its own remainder |
| `Js.RemWrapOnce` | src/app/page.tsx:185-186 | a dividend between one and two divisors loses exactly one divisor |
| `Js.Lower` | src/app/page.tsx:40 | lower-casing keeps the length and lowers each character in place |
| `Js.Decimal` | src/app/page.tsx:105 | the printed numeral is a non-empty digit string with no leading zero unless the number is 0 |
| `Js.DecimalRoundTrip` | src/app/page.tsx:105 | parsing the printed numeral gives back the number |
| `Js.Inc` | src/app/page.tsx:105 | `currentSlide + 1` is NaN exactly when the slide is NaN, and otherwise one more than the slide |
| `Js.NumberText` | src/app/page.tsx:105 | `${n}` is never empty; for a non-negative integer it is a digit string with no leading zero unless the number is 0 |
| `Js.NumberTextRoundTrip` | src/app/page.tsx:105 | reading back the text of any number, `NaN` and negatives included, gives back that number |
| `Upload.IsImageType` | src/app/page.tsx:38 | the type guard holds exactly when the first six characters are `image/` |
| `Upload.IsHeic` | src/app/page.tsx:40 | a file is HEIC exactly when its type is `image/heic` or the last five characters of its name lower-case to `.heic` |
| `Upload.LastDot` | src/app/page.tsx:44 | finds the last dot of a name, or reports that there is none |
| `Upload.ReplaceExtension` | src/app/page.tsx:44 | where the pattern `\.[^/.]+$` matches at `i`, the name becomes `name[..i] + ".jpg"`; a name it does not match (no dot, a trailing dot, a slash after the last dot) is kept |
| `Upload.ReplaceExtensionIdempotent` | src/app/page.tsx:44 | renaming an already renamed name changes nothing |
| `Upload.Accept` | src/app/page.tsx:38-49 | an absent file or one whose type does not start with `image/` is refused, even one whose name ends in `.heic`; a HEIC file whose conversion fails is refused; a non-HEIC image is kept as is; a converted HEIC file gets type `image/jpeg`, the converter's blob and the renamed name |
| `Upload.HeicSuffixByChar` | src/app/page.tsx:40 | the lower-cased name ends in `.heic` exactly when its last five characters lower-case, one by one, to `.heic` |
| `Upload.NotHeicByLastChar` | src/app/page.tsx:40 | a file typed other than `image/heic` whose name does not end in `c` or `C` fails the HEIC test |
| `Upload.HeicNameHasExtension` | src/app/page.tsx:40-44 | a name that passes the case-insensitive `.heic` test always has an extension the rename replaces |
| `Upload.AcceptedIsDisplayable` | src/app/page.tsx:38-49 | every kept file is an image and no kept file is HEIC any more |
| `Upload.HeicSuffixAnyCase` | src/app/page.tsx:40 | a name ending in `.heic` in any letter case passes the HEIC test, whatever its declared type |
| `Carousel.Slot` | src/app/page.tsx:75 | reading an index past the end gives nothing; an index inside gives that element; any other key gives the property stored under it, and nothing when there is none |
| `Carousel.SetSlot` | src/app/page.tsx:79-83 | after the copy and write, key `i` reads back the image; an index write leaves every other element as it was, grows the array past its end with empty gaps, and drops all properties; a negative or NaN key leaves the elements as they were and holds that one property |
| `Carousel.FillEmptySlot` | src/app/page.tsx:75-83 | writing to a slot that reads as empty keeps every filled element (write-once) and makes the slot read as filled; unless the index is past the end, the length is kept |
| `Carousel.SeedSlots` | src/app/page.tsx:64-65 | the seeded array has one slot per style (one slot when there are no styles) and no properties; slot 0 holds the first image and every other key reads as empty |
| `Carousel.SeededAligned` | src/app/page.tsx:63-66 | the seeded array lines up with the style list, and has exactly its length if and only if there is at least one style |
| `Carousel.NextSlide` | src/app/page.tsx:186 | "next" is NaN with no styles; otherwise, from a non-negative slide, it lies in `[0, n)` |
| `Carousel.PrevSlide` | src/app/page.tsx:185 | "previous" is NaN with no styles; otherwise, from a non-negative slide, it lies in `[0, n)` |
| `Carousel.NextSteps` | src/app/page.tsx:186 | "next" moves from slide `c` to `c + 1`, and from the last slide to slide 0 |
| `Carousel.PrevSteps` | src/app/page.tsx:185 | "previous" moves from slide `c` to `c - 1`, and from slide 0 to the last slide |
| `Carousel.NavigationInverse` | src/app/page.tsx:185-186 | "previous" after "next", and "next" after "previous", return to the same slide |
| `Carousel.ShowsSpinner` | src/app/page.tsx:177 | a slide shows the spinner exactly when a swap is loading, it is the current slide, and its element is missing or empty |
| `Carousel.SpinnerOnCurrentOnly` | src/app/page.tsx:177 | at most one slide shows the spinner: the current one, and only while its slot is empty |
| `Carousel.DownloadName` | src/app/page.tsx:105 | the file name is `drape-style-`, then the text of the slide number plus one, then `.png`; for an index the middle is a digit string with no leading zero that reads as index + 1, i.e. the decimal numeral of index + 1; a NaN slide gives `drape-style-NaN.png` |
| `Carousel.DownloadNamesDistinct` | src/app/page.tsx:105 | different slides, `NaN` included, are saved under different names |
| `Page.Truthy` | src/app/page.tsx:75 | a possibly-null string is truthy exactly when it is present and non-empty |
| `Page.Home.constructor` | src/app/page.tsx:21-32 | the page starts in the welcome phase, with no file, preview or session, empty styles and slots, empty text fields, slide 0 and not loading |
| `Page.Home.SetDestination` | src/app/page.tsx:159 | editing the destination field sets it |
| `Page.Home.SetEvent` | src/app/page.tsx:161 | editing the event field sets it |
| `Page.Home.SetTheme` | src/app/page.tsx:163 | editing the theme field sets it |
| `Page.Home.HandleFile` | src/app/page.tsx:37-53 | a refused file changes nothing; an accepted one becomes the image file, its URL the preview, and the phase becomes input; slots, styles, session, slide, loading flag and text fields are untouched |
| `Page.Home.HandleGenerate` | src/app/page.tsx:55-72 | with no image file nothing changes and nothing is sent; otherwise `generateStyle` gets the event as `eventType` and the destination as `venue`; a generate failure leaves the phase at input and the session, styles and slots as they were; on generate success the session is stored and `getStyles` is asked for it; if that then fails, the phase is input and the styles and slots are unchanged; on full success the styles are stored, the slots are seeded with the first image, and the phase is result; the page invariant is kept |
| `Page.Home.HandleStyleSwap` | src/app/page.tsx:74-89 | without a truthy session, or with the slot already filled, nothing changes and nothing is sent; otherwise `swapStyle` gets the session and index; success stores the image under that key as `SetSlot` does; the loading flag is false afterwards on success and failure, so no slide shows the spinner; filled elements are never changed; an index not past the end keeps the invariant |
| `Page.Home.ScrollToSlide` | src/app/page.tsx:91-98 | the slide becomes current, and the swap for it is made under the same guard and with the same effect |
| `Page.Home.ShowNext` | src/app/page.tsx:186 | the current slide becomes `NextSlide` of the old one, and a request is sent exactly when the session is truthy and that slot reads as empty; with no request, the slots and the loading flag are unchanged; the slot array keeps its length and the page invariant holds |
| `Page.Home.ShowPrev` | src/app/page.tsx:185 | the same as `ShowNext`, for `PrevSlide` |
| `Page.Home.ShowDot` | src/app/page.tsx:189-190 | a dot makes its own slide current; the guard, effect and invariant are those of `ShowNext` |
| `Page.Home.HandleDownload` | src/app/page.tsx:100-109 | nothing is saved exactly when the current slide reads as empty; otherwise its image is saved as `DownloadName` of the current slide, which for a NaN slide holding a property is `drape-style-NaN.png` |
| `Page.Home.HandleStartOver` | src/app/page.tsx:111-122 | every field returns to its initial value, and the loading flag is left as it was |

## Left out

- The HTTP wrappers in `src/lib/api.ts` (FormData, headers, blob responses)
  are represented only by what they resolve to:
  - `generateStyle` resolves to a session id and an image URL;
  - `getStyles` resolves to a list of style names;
  - `swapStyle` resolves to an image URL;
  - any of them may reject.
  The shape of each response is taken as given. A missing `x-session-id`
  header (`undefined`) is not distinguished from a present one.
- `src/app/layout.tsx` is not part of this model: it holds static markup and
  metadata only.
- The `heic2any` conversion is a foreign library call. It enters only as a
  fulfilled blob or a rejection. Its `quality: 0.8` parameter is a float the
  model does not carry.
- `URL.createObjectURL` is a browser call, and its result is a parameter.
  Object URLs are taken to be non-empty strings (the `Url` type), so a slot is
  truthy exactly when it holds a URL. URL lifetimes are not modelled.
- Not modelled (DOM work):
  - the carousel's `scrollTo`;
  - creating, clicking and removing the download anchor (`HandleDownload`
    returns the `href` and file name the anchor would carry);
  - the drag-and-drop handlers and their `isDragging` flag;
  - the JSX rendering, beyond the spinner condition.
- Concurrency is not modelled; each handler is one atomic step. This leaves
  out three things:
  - the handler's closure may read a stale `generatedImages` or `sessionId`;
  - two swaps for the same empty slot may be in flight at once;
  - a response may arrive after the user has navigated away.
  For the same reason, two transient values are never visible after a
  transition:
  - the `generating` phase set at the start of `handleGenerate`;
  - `isLoading == true`, which `HandleStyleSwap` sets and clears again in
    the same step. So `ShowsSpinner` (and `Home.SpinnerAt`) holds in no state
    the model reaches: its condition is stated, but no transition ends with
    a spinner showing.
- `Js.Decimal`: JavaScript numbers are doubles, whereas `Number` is an
  unbounded integer (or NaN). `${n}` switches to exponent form from 10^21, and
  integers above 2^53 lose precision. Neither is modelled; slide numbers stay
  below the style count, far from both.
- `Carousel.SetSlot`: an integer key of 2^32 - 1 or more is a property in
  JavaScript, not an element. The model treats every non-negative integer as
  an index; slide numbers never come near that bound.
- `Js.Lower`: models `toLowerCase` on the ASCII letters only. Non-ASCII
  upper-case characters are kept as they are, whereas JavaScript lowers them
  by Unicode rules.
- The UI gates of each handler are not modelled: which phase renders the drop
  zone, the form or the carousel. The handlers carry no phase precondition,
  because the code checks none. The exception is `ShowDot`, whose index is
  below the style count because one dot is rendered per style.
