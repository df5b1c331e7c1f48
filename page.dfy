/** The `Home` page controller: a four-phase state machine (welcome, input,
    generating, result) whose handlers update the page's state fields. Each
    asynchronous handler is one atomic transition; what the backend, the HEIC
    converter and the browser return enters as a parameter. */
module Page {
  import opened Js
  import opened Upload
  import opened Carousel

  datatype Phase = Welcome | Input | Generating | Result

  /** What `generateStyle` resolves to: the `x-session-id` header and an
      object URL for the returned image. */
  datatype Generated = Generated(sessionId: string, imageUrl: Url)

  /** The arguments `generateStyle(image, eventType, venue, theme)` is called with. */
  datatype GenerateRequest = GenerateRequest(image: File, eventType: string, venue: string, theme: string)

  /** The arguments `swapStyle(sessionId, styleIndex)` is called with. */
  datatype SwapRequest = SwapRequest(sessionId: string, styleIndex: Number)

  /** The anchor the download handler clicks: its `href` and `download` name. */
  datatype Download = Download(href: Url, fileName: string)

  /** The slot array after a swap for `index` that issued `request` and
      settled with `outcome`: only a fulfilled request writes its slot. */
  function SwapResult(images: ImageArray, index: Number, request: Option<SwapRequest>, outcome: Settled<Url>): ImageArray {
    if request.Some? && outcome.Fulfilled? then SetSlot(images, index, outcome.value) else images
  }

  /** JavaScript truthiness of a possibly-null string. */
  predicate Truthy(s: Option<string>): (b: bool)
    ensures b ==> s.Some? && |s.value| >= 1
    ensures s.Some? && |s.value| >= 1 ==> b
  {
    s.Some? && s.value != ""
  }

  class Home {
    var phase: Phase
    var imageFile: Option<File>
    var previewUrl: Option<Url>
    var generatedImages: ImageArray
    var styles: seq<string>
    var sessionId: Option<string>
    var destination: string
    var event: string
    var theme: string
    var isLoading: bool
    var currentSlide: Number

    /** The values every field except the loading flag starts with. */
    ghost predicate Initial()
      reads this
    {
      phase == Welcome && imageFile == None && previewUrl == None &&
      generatedImages == Plain([]) && styles == [] && sessionId == None &&
      destination == "" && event == "" && theme == "" && currentSlide == Int(0)
    }

    /** What every reachable state satisfies: the current slide is never a
        negative index, and the slot array lines up with the style list. */
    ghost predicate Valid()
      reads this
    {
      (currentSlide.Int? ==> currentSlide.value >= 0) && Aligned(generatedImages, styles)
    }

    constructor ()
      ensures Initial() && !isLoading && Valid()
    {
      phase := Welcome;
      imageFile := None;
      previewUrl := None;
      generatedImages := Plain([]);
      styles := [];
      sessionId := None;
      destination := "";
      event := "";
      theme := "";
      isLoading := false;
      currentSlide := Int(0);
    }

    // ---- Form inputs ----

    method SetDestination(value: string)
      modifies this`destination
      ensures destination == value
    {
      destination := value;
    }

    method SetEvent(value: string)
      modifies this`event
      ensures event == value
    {
      event := value;
    }

    method SetTheme(value: string)
      modifies this`theme
      ensures theme == value
    {
      theme := value;
    }

    // ---- Handlers ----

    /** A picked or dropped file. A file that is absent or not declared as an
        image, or a HEIC file the converter fails on, changes nothing. An
        accepted file (converted to JPEG if it was HEIC) becomes the upload,
        its object URL `preview` the preview, and the phase becomes input. */
    method HandleFile(file: Option<File>, conversion: Settled<Blob>, preview: Url)
      modifies this
      ensures Accept(file, conversion).None? ==> unchanged(this)
      ensures Accept(file, conversion).Some? ==>
                imageFile == Accept(file, conversion) && previewUrl == Some(preview) && phase == Input
      ensures unchanged(this`generatedImages, this`styles, this`sessionId, this`currentSlide, this`isLoading)
      ensures unchanged(this`destination, this`event, this`theme)
      ensures old(Valid()) ==> Valid()
    {
      if file.None? || !IsImageType(file.value.mimeType) {
        return;
      }
      var processed := file.value;
      if IsHeic(processed) {
        match conversion
        case Rejected =>
          return;
        case Fulfilled(jpeg) =>
          processed := File(ReplaceExtension(processed.name), "image/jpeg", jpeg);
      }
      imageFile := Some(processed);
      previewUrl := Some(preview);
      phase := Input;
    }

    /** Submitting the trip form. Without an uploaded image nothing happens.
        Otherwise `generateStyle` is called with the event as `eventType` and
        the destination as `venue`; on success the session is recorded and
        `getStyles` is asked for that session's styles; once both succeed the
        style list is stored, the slot array is seeded with the first image
        and the phase becomes result. Any failure ends in the input phase. */
    method HandleGenerate(generated: Settled<Generated>, fetched: Settled<seq<string>>)
      returns (request: Option<GenerateRequest>, stylesFor: Option<string>)
      modifies this`phase, this`sessionId, this`styles, this`generatedImages
      ensures old(imageFile).None? ==> unchanged(this) && request == None && stylesFor == None
      ensures old(imageFile).Some? ==>
                request == Some(GenerateRequest(imageFile.value, event, destination, theme))
      ensures old(imageFile).Some? && generated.Rejected? ==>
                phase == Input && stylesFor == None &&
                unchanged(this`sessionId, this`styles, this`generatedImages)
      ensures old(imageFile).Some? && generated.Fulfilled? ==>
                sessionId == Some(generated.value.sessionId) && stylesFor == sessionId
      ensures old(imageFile).Some? && generated.Fulfilled? && fetched.Rejected? ==>
                phase == Input && unchanged(this`styles, this`generatedImages)
      ensures old(imageFile).Some? && generated.Fulfilled? && fetched.Fulfilled? ==>
                phase == Result && styles == fetched.value &&
                Seeded(generatedImages, |fetched.value|, generated.value.imageUrl)
      ensures old(Valid()) ==> Valid()
    {
      request, stylesFor := None, None;
      if imageFile.None? {
        return;
      }
      phase := Generating;
      request := Some(GenerateRequest(imageFile.value, event, destination, theme));
      match generated
      case Rejected =>
        phase := Input;
      case Fulfilled(g) =>
        sessionId := Some(g.sessionId);
        stylesFor := Some(g.sessionId);
        match fetched
        case Rejected =>
          phase := Input;
        case Fulfilled(names) =>
          styles := names;
          var initialImages := SeedSlots(|names|, g.imageUrl);
          SeededAligned(initialImages, names, g.imageUrl);
          generatedImages := initialImages;
          phase := Result;
    }

    /** Fetching the image of style `index`. Without a (truthy) session, or when
        that slot is already filled, nothing happens. Otherwise `swapStyle` is
        called for the index; on success the image is written into slot
        `index` alone, and the loading flag is cleared however the call ends. */
    method HandleStyleSwap(index: Number, outcome: Settled<Url>) returns (request: Option<SwapRequest>)
      modifies this`generatedImages, this`isLoading
      ensures !Truthy(old(sessionId)) || Filled(old(generatedImages), index) ==>
                unchanged(this) && request == None
      ensures Truthy(old(sessionId)) && !Filled(old(generatedImages), index) ==>
                request == Some(SwapRequest(sessionId.value, index)) && !isLoading &&
                generatedImages == match outcome
                                   case Fulfilled(url) => SetSlot(old(generatedImages), index, url)
                                   case Rejected => old(generatedImages)
      ensures Extends(old(generatedImages), generatedImages)
      ensures request.Some? ==> forall k: nat :: !SpinnerAt(k)
      ensures old(Valid()) && !(IsIndex(index) && index.value >= |old(generatedImages.elements)|) ==> Valid()
    {
      if !Truthy(sessionId) || Filled(generatedImages, index) {
        return None;
      }
      isLoading := true;
      request := Some(SwapRequest(sessionId.value, index));
      match outcome {
        case Fulfilled(url) =>
          FillEmptySlot(generatedImages, index, url);
          var newImages := SetSlot(generatedImages, index, url);
          generatedImages := newImages;
        case Rejected =>
      }
      isLoading := false;
    }

    /** Making slide `index` the current one and fetching its image if needed. */
    method ScrollToSlide(index: Number, outcome: Settled<Url>) returns (request: Option<SwapRequest>)
      modifies this`currentSlide, this`generatedImages, this`isLoading
      ensures currentSlide == index
      ensures request.Some? <==> Truthy(old(sessionId)) && !Filled(old(generatedImages), index)
      ensures request.Some? ==> request.value == SwapRequest(sessionId.value, index) && !isLoading
      ensures request.None? ==> unchanged(this`generatedImages, this`isLoading)
      ensures generatedImages == SwapResult(old(generatedImages), index, request, outcome)
      ensures Extends(old(generatedImages), generatedImages)
      ensures old(Valid()) && (index.NaN? || 0 <= index.value < |old(generatedImages.elements)|) ==> Valid()
    {
      currentSlide := index;
      request := HandleStyleSwap(index, outcome);
    }

    /** The "next" arrow. */
    method ShowNext(outcome: Settled<Url>) returns (request: Option<SwapRequest>)
      modifies this`currentSlide, this`generatedImages, this`isLoading
      ensures currentSlide == NextSlide(old(currentSlide), |styles|)
      ensures request.Some? <==> Truthy(old(sessionId)) && !Filled(old(generatedImages), currentSlide)
      ensures request.Some? ==> request.value == SwapRequest(sessionId.value, currentSlide) && !isLoading
      ensures request.None? ==> unchanged(this`generatedImages, this`isLoading)
      ensures generatedImages == SwapResult(old(generatedImages), currentSlide, request, outcome)
      ensures Extends(old(generatedImages), generatedImages)
      ensures old(Valid()) ==> Valid() && |generatedImages.elements| == old(|generatedImages.elements|)
    {
      request := ScrollToSlide(NextSlide(currentSlide, |styles|), outcome);
    }

    /** The "previous" arrow. */
    method ShowPrev(outcome: Settled<Url>) returns (request: Option<SwapRequest>)
      modifies this`currentSlide, this`generatedImages, this`isLoading
      ensures currentSlide == PrevSlide(old(currentSlide), |styles|)
      ensures request.Some? <==> Truthy(old(sessionId)) && !Filled(old(generatedImages), currentSlide)
      ensures request.Some? ==> request.value == SwapRequest(sessionId.value, currentSlide) && !isLoading
      ensures request.None? ==> unchanged(this`generatedImages, this`isLoading)
      ensures generatedImages == SwapResult(old(generatedImages), currentSlide, request, outcome)
      ensures Extends(old(generatedImages), generatedImages)
      ensures old(Valid()) ==> Valid() && |generatedImages.elements| == old(|generatedImages.elements|)
    {
      request := ScrollToSlide(PrevSlide(currentSlide, |styles|), outcome);
    }

    /** The dot of slide `i`; one dot is rendered per style. */
    method ShowDot(i: nat, outcome: Settled<Url>) returns (request: Option<SwapRequest>)
      requires i < |styles|
      modifies this`currentSlide, this`generatedImages, this`isLoading
      ensures currentSlide == Int(i)
      ensures request.Some? <==> Truthy(old(sessionId)) && !Filled(old(generatedImages), currentSlide)
      ensures request.Some? ==> request.value == SwapRequest(sessionId.value, currentSlide) && !isLoading
      ensures request.None? ==> unchanged(this`generatedImages, this`isLoading)
      ensures generatedImages == SwapResult(old(generatedImages), currentSlide, request, outcome)
      ensures Extends(old(generatedImages), generatedImages)
      ensures old(Valid()) ==> Valid() && |generatedImages.elements| == old(|generatedImages.elements|)
    {
      request := ScrollToSlide(Int(i), outcome);
    }

    /** The spinner condition of slide `index` in the current state; a swap
        that was sent leaves no spinner anywhere. */
    predicate SpinnerAt(index: nat)
      reads this
    {
      ShowsSpinner(isLoading, index, currentSlide, generatedImages)
    }

    /** Saving the current slide's image. Nothing is saved when that slot is
        empty; otherwise the image is saved as `drape-style-<n>.png`, where n
        is the slide's position counted from one (`NaN` for a NaN slide). */
    method HandleDownload() returns (saved: Option<Download>)
      ensures saved.None? <==> !Filled(generatedImages, currentSlide)
      ensures saved.Some? ==>
                saved.value == Download(Slot(generatedImages, currentSlide).value, DownloadName(currentSlide))
    {
      var url := Slot(generatedImages, currentSlide);
      if url.None? {
        return None;
      }
      saved := Some(Download(url.value, DownloadName(currentSlide)));
    }

    /** "Start over": every field returns to its initial value, except the
        loading flag, which is left as it is. */
    method HandleStartOver()
      modifies this
      ensures Initial() && Valid()
      ensures isLoading == old(isLoading)
    {
      phase := Welcome;
      imageFile := None;
      previewUrl := None;
      generatedImages := Plain([]);
      styles := [];
      sessionId := None;
      destination := "";
      event := "";
      theme := "";
      currentSlide := Int(0);
    }
  }

  /** The end-to-end flow, first step: upload `trip.jpg` and fill in the trip. */
  method TripScenario(photo: Blob, preview: Url) {
    var home := new Home();
    var trip := File("trip.jpg", "image/jpeg", photo);
    assert trip.mimeType[6] != "image/heic"[6];
    NotHeicByLastChar(trip);
    assert IsImageType(trip.mimeType) by {
      assert trip.mimeType[..6] == "image/";
    }
    assert Accept(Some(trip), Rejected) == Some(trip);
    home.HandleFile(Some(trip), Rejected, preview);
    assert home.imageFile == Some(trip);
    assert home.phase == Input && home.previewUrl == Some(preview);
    home.SetDestination("Paris");
    home.SetEvent("Museum Visit");
    home.SetTheme("Chic");
    assert home.imageFile == Some(trip) && home.event == "Museum Visit";
  }

  /** Second step: submitting, with the backend issuing session `abc123` and
      three styles. */
  method GenerateScenario(home: Home, first: Url)
    requires home.imageFile.Some? && home.destination == "Paris" && home.event == "Museum Visit"
    modifies home
  {
    var request, stylesFor := home.HandleGenerate(
      Fulfilled(Generated("abc123", first)), Fulfilled(["Classic", "Bold", "Minimal"]));
    assert request.value.eventType == "Museum Visit" && request.value.venue == "Paris";
    assert stylesFor == Some("abc123") && home.sessionId == Some("abc123");
    var images := home.generatedImages.elements;
    assert |images| == 3 && images[0] == Some(first) && images[1] == None && images[2] == None;
    assert home.phase == Result && home.generatedImages == Plain([Some(first), None, None]);
  }

  /** Third step: from that result state, the "next" arrow fetches the
      second style's image, and downloading then saves it. */
  method SlideScenario(home: Home, first: Url, second: Url)
    requires home.sessionId == Some("abc123") && |home.styles| == 3
    requires home.generatedImages == Plain([Some(first), None, None]) && home.currentSlide == Int(0)
    modifies home
  {
    NextSteps(0, 3);
    var swap := home.ShowNext(Fulfilled(second));
    assert home.currentSlide == Int(1);
    assert swap == Some(SwapRequest("abc123", Int(1)));
    assert home.generatedImages == Plain([Some(first), Some(second), None]);
    assert !home.isLoading;
    var saved := home.HandleDownload();
    assert saved.value.href == second;
  }

  /** With no styles: "next" makes the slide NaN, and the swap's image is
      stored under the array's `NaN` key, where the guard and the download
      read it back; a second "next" sends nothing. */
  method ZeroStyleScenario(home: Home, u0: Url, u1: Url, u2: Url)
    requires home.sessionId == Some("s") && home.styles == []
    requires home.generatedImages == Plain([Some(u0)]) && home.currentSlide == Int(0)
    modifies home
  {
    var first := home.ShowNext(Fulfilled(u1));
    assert home.currentSlide == NaN;
    assert first == Some(SwapRequest("s", NaN));
    assert Slot(home.generatedImages, NaN) == Some(u1);
    var second := home.ShowNext(Fulfilled(u2));
    assert second == None;
    var saved := home.HandleDownload();
    assert saved == Some(Download(u1, "drape-style-NaN.png"));
  }
}
