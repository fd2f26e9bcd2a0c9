/** The `POST /edit-image` pipeline of index.js once Playwright is replaced by
    page snapshots: cookie loading, the upload, prompt and generate-button
    selector loops, the polling of the result selectors, the fallback over all
    page images, and the JSON response. */
module ServiceFlow {
  import opened Wrappers
  import opened JsText
  import opened Seqs
  import opened PageOracle
  import ServiceCookies

  const UploadSelectors: seq<string> := [
    "input[type=\"file\"]",
    "[data-testid=\"file-upload\"]",
    ".upload-button",
    "[accept*=\"image\"]",
    "input[accept*=\"image/*\"]"
  ]

  const UploadAreaSelectors: seq<string> := [
    ".upload-area",
    ".dropzone",
    "[role=\"button\"]:has-text(\"upload\")",
    "button:has-text(\"Upload\")",
    "div:has-text(\"upload\")",
    "div:has-text(\"drag\")"
  ]

  const PromptSelectors: seq<string> := [
    "#edit-image-prompt-input",
    "input[placeholder*=\"Describe what you want to change\"]",
    "input[placeholder*=\"describe\"]",
    "input[placeholder*=\"change\"]",
    "textarea[placeholder*=\"prompt\"]",
    "input[placeholder*=\"prompt\"]",
    "textarea[placeholder*=\"describe\"]",
    "textarea",
    ".prompt-input",
    "[data-testid=\"prompt-input\"]"
  ]

  const ButtonSelectors: seq<string> := [
    "button:has(.lucide-arrow-right)",
    "button:has(svg[class*=\"arrow-right\"])",
    "button .lucide-arrow-right",
    "button svg[class*=\"arrow-right\"]",
    "button:has-text(\"Generate\")",
    "button:has-text(\"Edit\")",
    "button:has-text(\"Create\")",
    "button:has-text(\"Submit\")",
    "button:has-text(\"Apply\")",
    "button[type=\"submit\"]",
    "[data-testid=\"generate-button\"]",
    "[data-testid=\"edit-button\"]",
    ".generate-button",
    ".edit-button",
    "[class*=\"generate\"]",
    "[class*=\"submit\"]",
    "button.bg-primary",
    "button[class*=\"bg-primary\"]"
  ]

  const ResultSelectors: seq<string> := [
    "img[src*=\"generated\"]",
    ".result-image",
    ".output-image",
    "[data-testid=\"result-image\"]",
    "img[src*=\"bfl\"]"
  ]

  // ---------------------------------------------------------------------------
  // first-match resolution

  /** A loop `for (selector of sels) { x = await page.$(selector); if (x) break; }`
      with a `catch` that continues: the first selector that finds an element
      decides, and an exception leaves the variable as it was. */
  method FirstHit(p: Page, sels: seq<string>) returns (found: Option<Element>)
    ensures found.None? <==> !SomeHit(p, sels)
    ensures found.Some? ==> FirstHitIs(p, sels, found.value)
  {
    found := None;
    for i := 0 to |sels|
      invariant found.None?
      invariant forall j :: 0 <= j < i ==> !Query(p, sels[j]).Hit?
    {
      var r := Query(p, sels[i]);
      if r.Failed? {
        continue;
      }
      if r.Hit? {
        found := Some(r.element);
        return;
      }
      found := None;
    }
  }

  /** Clicking the area `areaSelector` finds, then re-probing, yields a file input. */
  predicate Reveals(p: Page, areaSelector: string) {
    Query(p, areaSelector).Hit? && ProbeAfterClick(p, areaSelector).Hit?
  }

  /** The upload-area loop: each matching area is clicked and `input[type="file"]`
      probed again, until a probe finds it. */
  method RevealByClicking(p: Page, areas: seq<string>) returns (found: Option<Element>)
    ensures found.None? <==> forall i :: 0 <= i < |areas| ==> !Reveals(p, areas[i])
    ensures found.Some? ==>
      exists i :: 0 <= i < |areas| && Reveals(p, areas[i]) && found == Some(ProbeAfterClick(p, areas[i]).element) &&
        forall j :: 0 <= j < i ==> !Reveals(p, areas[j])
  {
    found := None;
    for i := 0 to |areas|
      invariant found.None?
      invariant forall j :: 0 <= j < i ==> !Reveals(p, areas[j])
    {
      var area := Query(p, areas[i]);
      if area.Hit? {
        var probe := ProbeAfterClick(p, areas[i]);
        if probe.Hit? {
          found := Some(probe.element);
          return;
        }
      }
    }
  }

  datatype FlowError = CookieFileUnreadable | UploadInputNotFound | PromptInputNotFound | GenerateButtonNotFound

  /** The `error` text of the failure response (for an unreadable cookie file, the
      prefix put before the file system's own message). */
  function ErrorMessage(e: FlowError): string {
    match e
    case CookieFileUnreadable => "Failed to parse cookies file: "
    case UploadInputNotFound => "Could not find file upload input. Page structure might have changed."
    case PromptInputNotFound => "Could not find prompt input field"
    case GenerateButtonNotFound => "Could not find generate button"
  }

  /** Some way to an upload input exists on the page. */
  ghost predicate CanUpload(p: Page) {
    SomeHit(p, UploadSelectors) || exists i :: 0 <= i < |UploadAreaSelectors| && Reveals(p, UploadAreaSelectors[i])
  }

  /** Upload input resolution: the upload selectors first; only if none finds
      anything, the upload areas; nothing at all is an error. */
  method ResolveUpload(p: Page) returns (r: Result<Element, FlowError>)
    ensures r.Success? <==> CanUpload(p)
    ensures r.Failure? ==> r.error == UploadInputNotFound
    ensures r.Success? && SomeHit(p, UploadSelectors) ==> FirstHitIs(p, UploadSelectors, r.value)
    ensures r.Success? && !SomeHit(p, UploadSelectors) ==>
      exists i :: 0 <= i < |UploadAreaSelectors| && Reveals(p, UploadAreaSelectors[i]) &&
        r.value == ProbeAfterClick(p, UploadAreaSelectors[i]).element &&
        forall j :: 0 <= j < i ==> !Reveals(p, UploadAreaSelectors[j])
  {
    var fileInput := FirstHit(p, UploadSelectors);
    if fileInput.None? {
      fileInput := RevealByClicking(p, UploadAreaSelectors);
    }
    if fileInput.None? {
      return Failure(UploadInputNotFound);
    }
    return Success(fileInput.value);
  }

  /** Prompt input resolution: the first prompt selector that finds anything. */
  method ResolvePrompt(p: Page) returns (r: Result<Element, FlowError>)
    ensures r.Success? <==> SomeHit(p, PromptSelectors)
    ensures r.Failure? ==> r.error == PromptInputNotFound
    ensures r.Success? ==> FirstHitIs(p, PromptSelectors, r.value)
  {
    var promptInput := FirstHit(p, PromptSelectors);
    if promptInput.None? {
      return Failure(PromptInputNotFound);
    }
    return Success(promptInput.value);
  }

  // ---------------------------------------------------------------------------
  // the generate button

  /** The selector finds an element and `isEnabled()` says yes. */
  predicate EnabledHit(p: Page, selector: string) {
    Query(p, selector).Hit? && Query(p, selector).element.enabled == Yes
  }

  /** What the last probe that did not throw returned: the value `generateButton`
      holds when no probe found an enabled button. */
  function LastProbe(p: Page, sels: seq<string>): Option<Element>
    decreases |sels|
  {
    if sels == [] then None
    else match Query(p, sels[|sels| - 1])
      case Hit(e) => Some(e)
      case Miss => None
      case Failed => LastProbe(p, sels[..|sels| - 1])
  }

  /** The generate-button loop. It stops at the first selector whose element exists
      and is enabled; otherwise the variable holds whatever the last probe that
      did not throw returned, a disabled element included. */
  method ResolveGenerateButton(p: Page, sels: seq<string>) returns (button: Option<Element>)
    ensures (exists i :: 0 <= i < |sels| && EnabledHit(p, sels[i])) ==>
      exists i :: 0 <= i < |sels| && EnabledHit(p, sels[i]) && button == Some(Query(p, sels[i]).element) &&
        forall j :: 0 <= j < i ==> !EnabledHit(p, sels[j])
    ensures (forall i :: 0 <= i < |sels| ==> !EnabledHit(p, sels[i])) ==> button == LastProbe(p, sels)
  {
    button := None;
    for i := 0 to |sels|
      invariant forall j :: 0 <= j < i ==> !EnabledHit(p, sels[j])
      invariant button == LastProbe(p, sels[..i])
    {
      assert sels[..i + 1][..i] == sels[..i];
      var r := Query(p, sels[i]);
      if r.Failed? {
        continue;
      }
      button := if r.Hit? then Some(r.element) else None;
      if r.Hit? && r.element.enabled == Yes {
        return;
      }
      // isEnabled() said no, or threw: the loop goes on with `button` set
    }
    assert sels[..|sels|] == sels;
  }

  /** The button step fails exactly when no selector finds an enabled element and
      every element found by some probe is followed by a later probe that finds nothing. */
  lemma {:induction false} LastProbeNone(p: Page, sels: seq<string>)
    ensures LastProbe(p, sels).None? <==>
      forall k :: 0 <= k < |sels| && Query(p, sels[k]).Hit? ==>
        exists j :: k < j < |sels| && Query(p, sels[j]).Miss?
    decreases |sels|
  {
    if sels != [] {
      var init := sels[..|sels| - 1];
      LastProbeNone(p, init);
      assert forall k :: 0 <= k < |init| ==> init[k] == sels[k];
      var last := Query(p, sels[|sels| - 1]);
      if last.Miss? {
        forall k | 0 <= k < |sels| - 1 && Query(p, sels[k]).Hit?
          ensures exists j :: k < j < |sels| && Query(p, sels[j]).Miss?
        {
          assert Query(p, sels[|sels| - 1]).Miss?;
        }
      } else if last.Failed? {
        if LastProbe(p, sels).None? {
          forall k | 0 <= k < |sels| && Query(p, sels[k]).Hit?
            ensures exists j :: k < j < |sels| && Query(p, sels[j]).Miss?
          {
            var j :| k < j < |init| && Query(p, init[j]).Miss?;
          }
        } else {
          var k :| 0 <= k < |init| && Query(p, init[k]).Hit? &&
            forall j :: k < j < |init| ==> !Query(p, init[j]).Miss?;
          assert forall j :: k < j < |sels| ==> !Query(p, sels[j]).Miss?;
        }
      }
    }
  }

  /** A non-empty last probe is what the last probe that did not throw found. */
  lemma {:induction false} LastProbeIsLastAnswer(p: Page, sels: seq<string>)
    requires LastProbe(p, sels).Some?
    ensures exists k ::
      0 <= k < |sels| && Query(p, sels[k]) == Hit(LastProbe(p, sels).value) &&
      forall j :: k < j < |sels| ==> Query(p, sels[j]).Failed?
    decreases |sels|
  {
    var init := sels[..|sels| - 1];
    if Query(p, sels[|sels| - 1]).Failed? {
      LastProbeIsLastAnswer(p, init);
      var k :| 0 <= k < |init| && Query(p, init[k]) == Hit(LastProbe(p, init).value) &&
        forall j :: k < j < |init| ==> Query(p, init[j]).Failed?;
      assert forall j :: k < j < |sels| ==> Query(p, sels[j]).Failed?;
    }
  }

  /** The quirk, on the real selector list: a disabled button found by the last
      selector is still taken and handed to `click` (which waits for it to become
      enabled; its failure is the session's click error), while a disabled button found by the first
      selector is forgotten once the last selector finds nothing, so the step
      fails although a button is on the page. */
  lemma ButtonQuirk(disabled: Element)
    requires disabled.enabled == No
    ensures LastProbe(Page(map[ButtonSelectors[17] := [disabled]], {}, map[]), ButtonSelectors) == Some(disabled)
    ensures LastProbe(Page(map[ButtonSelectors[0] := [disabled]], {}, map[]), ButtonSelectors) == None
    ensures Query(Page(map[ButtonSelectors[0] := [disabled]], {}, map[]), ButtonSelectors[0]) == Hit(disabled)
  {
    var p := Page(map[ButtonSelectors[0] := [disabled]], {}, map[]);
    assert ButtonSelectors[17] != ButtonSelectors[0] by {
      assert ButtonSelectors[17][7] != ButtonSelectors[0][7];
    }
    assert Query(p, ButtonSelectors[17]) == Miss;
  }

  // ---------------------------------------------------------------------------
  // result collection

  /** A usable result source: a non-empty `src` attribute that is not the local
      image path and holds no `data:` URL. */
  predicate IsResultSource(src: Option<string>, imagePath: string) {
    src.Some? && src.value != [] && src.value != imagePath && !Includes(src.value, "data:")
  }

  /** The sources the inner loop pushes for the elements `images`, in order. */
  function ResultSources(images: seq<Element>, imagePath: string): (srcs: seq<string>)
    ensures |srcs| <= |images|
    ensures forall k :: 0 <= k < |srcs| ==> IsResultSource(Some(srcs[k]), imagePath)
    ensures forall k :: 0 <= k < |images| && IsResultSource(images[k].srcAttribute, imagePath) ==>
      images[k].srcAttribute.value in srcs
    decreases |images|
  {
    if images == [] then []
    else
      var init, last := images[..|images| - 1], images[|images| - 1];
      assert forall k :: 0 <= k < |init| ==> init[k] == images[k];
      ResultSources(init, imagePath) +
        (if IsResultSource(last.srcAttribute, imagePath) then [last.srcAttribute.value] else [])
  }

  /** The text of an element's `src` attribute, empty when it has none. */
  function SrcText(e: Element): string {
    if e.srcAttribute.Some? then e.srcAttribute.value else []
  }

  /** The sources kept are exactly the `src` attributes of the elements whose
      attribute passes the test, one per such element and in element order;
      `keep` is that test on elements. */
  lemma {:induction false} ResultSourcesInOrder(images: seq<Element>, imagePath: string, keep: Element -> bool)
    requires forall e :: keep(e) == IsResultSource(e.srcAttribute, imagePath)
    ensures ResultSources(images, imagePath) == Map(Filter(images, keep), SrcText)
    decreases |images|
  {
    if images != [] {
      var init, last := images[..|images| - 1], images[|images| - 1];
      ResultSourcesInOrder(init, imagePath, keep);
      assert images == init + [last];
      FilterAppend(init, [last], keep);
      MapAppend(Filter(init, keep), Filter([last], keep), SrcText);
      if keep(last) {
        assert Filter([last], keep) == [last];
      } else {
        assert Filter([last], keep) == [];
      }
    }
  }

  /** The sources of two runs of elements come in the order of the elements. */
  lemma {:induction false} ResultSourcesAppend(a: seq<Element>, b: seq<Element>, imagePath: string)
    ensures ResultSources(a + b, imagePath) == ResultSources(a, imagePath) + ResultSources(b, imagePath)
    decreases |b|
  {
    if b == [] {
      assert a + b == a;
    } else {
      assert (a + b)[..|a + b| - 1] == a + b[..|b| - 1];
      ResultSourcesAppend(a, b[..|b| - 1], imagePath);
    }
  }

  /** `page.$$(selector)` succeeds and finds at least one element. */
  predicate Listed(p: Page, selector: string) {
    selector !in p.failing && All(p, selector) != []
  }

  /** The first selector of `sels` that lists any element. */
  function FirstListed(p: Page, sels: seq<string>): (r: Option<nat>)
    ensures r.None? <==> forall i :: 0 <= i < |sels| ==> !Listed(p, sels[i])
    ensures r.Some? ==>
      r.value < |sels| && Listed(p, sels[r.value]) && forall j :: 0 <= j < r.value ==> !Listed(p, sels[j])
    decreases |sels|
  {
    if sels == [] then None
    else if Listed(p, sels[0]) then Some(0)
    else
      match FirstListed(p, sels[1..])
      case None => None
      case Some(i) => Some(i + 1)
  }

  /** What one polling pass collects: the usable sources of the elements of the
      first result selector that lists any, or nothing. */
  function PassSources(p: Page, imagePath: string): seq<string> {
    match FirstListed(p, ResultSelectors)
    case None => []
    case Some(i) => ResultSources(All(p, ResultSelectors[i]), imagePath)
  }

  /** One pass of the result-collection loop. */
  method CollectPass(p: Page, imagePath: string) returns (resultImages: seq<string>)
    ensures resultImages == PassSources(p, imagePath)
  {
    resultImages := [];
    for i := 0 to |ResultSelectors|
      invariant resultImages == []
      invariant forall j :: 0 <= j < i ==> !Listed(p, ResultSelectors[j])
    {
      var images := QueryAll(p, ResultSelectors[i]);
      if images.None? {
        continue;
      }
      if |images.value| > 0 {
        var imgs := images.value;
        for k := 0 to |imgs|
          invariant resultImages == ResultSources(imgs[..k], imagePath)
        {
          assert imgs[..k + 1][..k] == imgs[..k];
          var src := imgs[k].srcAttribute;
          if src.Some? && src.value != [] && src.value != imagePath && !Includes(src.value, "data:") {
            resultImages := resultImages + [src.value];
          }
        }
        assert imgs[..|imgs|] == imgs;
        return;
      }
    }
  }

  /** What polling collects: the collection of the first pass that finds
      something, or nothing when no pass does. */
  function Poll(passes: seq<Page>, imagePath: string): seq<string> {
    FirstNonEmpty(passes, p => PassSources(p, imagePath))
  }

  /** Polling finds nothing exactly when every pass collects nothing, and
      otherwise returns what the first pass that collects something collected. */
  lemma PollFirstNonEmpty(passes: seq<Page>, imagePath: string)
    ensures Poll(passes, imagePath) == [] <==> forall k :: 0 <= k < |passes| ==> PassSources(passes[k], imagePath) == []
    ensures Poll(passes, imagePath) != [] ==>
      exists k :: 0 <= k < |passes| && Poll(passes, imagePath) == PassSources(passes[k], imagePath) &&
        forall j :: 0 <= j < k ==> PassSources(passes[j], imagePath) == []
  {
    FirstNonEmptyIsFirst(passes, p => PassSources(p, imagePath));
  }

  /** Polling: passes run, each on the page as it then is, until one collects
      something or the two-minute budget runs out; `passes` are the page states
      the passes see before the deadline. */
  method PollResults(passes: seq<Page>, imagePath: string) returns (resultImages: seq<string>)
    ensures resultImages == Poll(passes, imagePath)
  {
    ghost var collect := p => PassSources(p, imagePath);
    resultImages := [];
    var k := 0;
    while k < |passes| && resultImages == []
      invariant 0 <= k <= |passes|
      invariant resultImages == [] ==> Poll(passes, imagePath) == FirstNonEmpty(passes[k..], collect)
      invariant resultImages != [] ==> resultImages == Poll(passes, imagePath)
    {
      assert passes[k..][1..] == passes[k + 1..];
      resultImages := CollectPass(passes[k], imagePath);
      k := k + 1;
    }
  }

  // ---------------------------------------------------------------------------
  // the fallback over all images

  function SrcOf(e: Element): string {
    e.src
  }

  /** A non-empty source that does not start with `data:` and mentions `http`. */
  predicate IsRemoteSource(src: string) {
    src != [] && !StartsWith(src, "data:") && Includes(src, "http")
  }

  /** A source that mentions neither `logo` nor `icon`. */
  predicate IsNotDecoration(src: string) {
    !Includes(src, "logo") && !Includes(src, "icon")
  }

  predicate FallbackKeeps(src: string) {
    IsRemoteSource(src) && IsNotDecoration(src)
  }

  /** The `$$eval("img", ...)` chain followed by the logo/icon filter. */
  function FallbackSources(p: Page): seq<string> {
    Filter(Filter(Map(Images(p), SrcOf), IsRemoteSource), IsNotDecoration)
  }

  /** The fallback keeps exactly the image sources that are non-empty, not `data:`,
      contain `http` and contain neither `logo` nor `icon`, in page order. */
  lemma FallbackSourcesSpec(p: Page)
    ensures forall s :: s in FallbackSources(p) <==> s in Map(Images(p), SrcOf) && FallbackKeeps(s)
    ensures IsSubsequence(FallbackSources(p), Map(Images(p), SrcOf))
    ensures FallbackSources(p) == Filter(Map(Images(p), SrcOf), FallbackKeeps)
  {
    var srcs := Map(Images(p), SrcOf);
    FilterTwice(srcs, IsRemoteSource, IsNotDecoration, FallbackKeeps);
    forall s ensures s in FallbackSources(p) <==> s in srcs && FallbackKeeps(s) {
      FilterMembership(srcs, FallbackKeeps, s);
    }
    FilterIsSubsequence(srcs, FallbackKeeps);
  }

  // ---------------------------------------------------------------------------
  // the whole request

  /** The JSON body sent back: `success: true` with the results, `success: false`
      with the error text (status 500), or the status-400 rejection of a request
      missing its parameters. */
  datatype Response =
    | Completed(message: string, originalImage: string, prompt: string, resultImages: seq<string>)
    | Errored(error: string)
    | BadRequest(error: string)
  {
    predicate Success() { Completed? }
  }

  const MissingParameters := "Missing required parameters: imageUrl and prompt"
  const CompletedMessage := "Image editing completed"

  /** What one request meets along the way: the failures of the steps outside the
      page and of the element actions (their `error.message`, if they throw), the
      cookie file, and the page as each selector step sees it. */
  datatype Session = Session(
    downloadError: Option<string>,
    launchError: Option<string>,
    cookieFile: Option<string>,
    navigationError: Option<string>,
    uploadPage: Page,
    uploadActionError: Option<string>,  // fileInput.setInputFiles
    promptPage: Page,
    promptActionError: Option<string>,  // promptInput.click and fill
    buttonPage: Page,
    clickError: Option<string>,         // generateButton.click, which also waits for the button to be enabled
    passes: seq<Page>,
    fallbackError: Option<string>,      // page.$$eval("img", ...)
    finalPage: Page)

  /** A body field that is absent or the empty string, which the handler rejects. */
  predicate Missing(field: Option<string>) {
    field.None? || field.value == []
  }

  /** The generate-button step leaves something to click. */
  ghost predicate ButtonFound(p: Page) {
    (exists i :: 0 <= i < |ButtonSelectors| && EnabledHit(p, ButtonSelectors[i])) ||
    LastProbe(p, ButtonSelectors).Some?
  }

  /** Download, launch, cookies and navigation succeed. */
  predicate PageOpened(s: Session) {
    s.downloadError.None? && s.launchError.None? && s.cookieFile.Some? && s.navigationError.None?
  }

  /** The image is uploaded. */
  ghost predicate Uploaded(s: Session) {
    CanUpload(s.uploadPage) && s.uploadActionError.None?
  }

  /** ... and the prompt is entered. */
  ghost predicate PromptEntered(s: Session) {
    Uploaded(s) && SomeHit(s.promptPage, PromptSelectors) && s.promptActionError.None?
  }

  /** ... and the generate button is clicked. */
  ghost predicate Generated(s: Session) {
    PromptEntered(s) && ButtonFound(s.buttonPage) && s.clickError.None?
  }

  /** The steps on the opened page succeed: the fallback is only run, and can only
      fail, when polling found nothing. */
  ghost predicate PageStepsSucceed(s: Session, imagePath: string) {
    Generated(s) && (Poll(s.passes, imagePath) != [] || s.fallbackError.None?)
  }

  /** Every step succeeds. */
  ghost predicate StepsSucceed(s: Session, imagePath: string) {
    PageOpened(s) && PageStepsSucceed(s, imagePath)
  }

  /** The steps after navigation: upload, prompt, generate, then the results,
      failing with the first step that fails. */
  method OperatePage(s: Session, imagePath: string) returns (r: Result<seq<string>, string>)
    ensures r.Success? <==> PageStepsSucceed(s, imagePath)
    ensures !CanUpload(s.uploadPage) ==> r == Failure(ErrorMessage(UploadInputNotFound))
    ensures CanUpload(s.uploadPage) && s.uploadActionError.Some? ==> r == Failure(s.uploadActionError.value)
    ensures Uploaded(s) && !SomeHit(s.promptPage, PromptSelectors) ==>
              r == Failure(ErrorMessage(PromptInputNotFound))
    ensures Uploaded(s) && SomeHit(s.promptPage, PromptSelectors) && s.promptActionError.Some? ==>
              r == Failure(s.promptActionError.value)
    ensures PromptEntered(s) && !ButtonFound(s.buttonPage) ==> r == Failure(ErrorMessage(GenerateButtonNotFound))
    ensures PromptEntered(s) && ButtonFound(s.buttonPage) && s.clickError.Some? ==> r == Failure(s.clickError.value)
    ensures Generated(s) && Poll(s.passes, imagePath) == [] && s.fallbackError.Some? ==>
              r == Failure(s.fallbackError.value)
    ensures r.Success? && Poll(s.passes, imagePath) != [] ==> r.value == Poll(s.passes, imagePath)
    ensures r.Success? && Poll(s.passes, imagePath) == [] ==> r.value == FallbackSources(s.finalPage)
  {
    var fileInput := ResolveUpload(s.uploadPage);
    if fileInput.Failure? {
      return Failure(ErrorMessage(fileInput.error));
    }
    if s.uploadActionError.Some? {
      return Failure(s.uploadActionError.value);
    }
    var promptInput := ResolvePrompt(s.promptPage);
    if promptInput.Failure? {
      return Failure(ErrorMessage(promptInput.error));
    }
    if s.promptActionError.Some? {
      return Failure(s.promptActionError.value);
    }
    var generateButton := ResolveGenerateButton(s.buttonPage, ButtonSelectors);
    if generateButton.None? {
      return Failure(ErrorMessage(GenerateButtonNotFound));
    }
    if s.clickError.Some? {
      return Failure(s.clickError.value);
    }
    var resultImages := PollResults(s.passes, imagePath);
    if resultImages == [] {
      if s.fallbackError.Some? {
        return Failure(s.fallbackError.value);
      }
      resultImages := FallbackSources(s.finalPage);
    }
    return Success(resultImages);
  }

  /** One `POST /edit-image`; `imagePath` is where the downloaded image is stored.
      A failure reports the first step that fails, in the order the handler runs them. */
  method HandleEditImage(s: Session, imageUrl: Option<string>, prompt: Option<string>, imagePath: string)
    returns (resp: Response)
    ensures resp.BadRequest? <==> Missing(imageUrl) || Missing(prompt)
    ensures resp.BadRequest? ==> resp.error == MissingParameters
    ensures !Missing(imageUrl) && !Missing(prompt) ==> (resp.Success() <==> StepsSucceed(s, imagePath))
    ensures resp.Errored? && s.downloadError.Some? ==> resp.error == s.downloadError.value
    ensures resp.Errored? && s.downloadError.None? && s.launchError.Some? ==> resp.error == s.launchError.value
    ensures (!resp.BadRequest? && s.downloadError.None? && s.launchError.None? && s.cookieFile.None?) ==>
              resp == Errored(ErrorMessage(CookieFileUnreadable))
    ensures (resp.Errored? && s.downloadError.None? && s.launchError.None? && s.cookieFile.Some? &&
             s.navigationError.Some?) ==> resp.error == s.navigationError.value
    ensures !resp.BadRequest? && PageOpened(s) && !CanUpload(s.uploadPage) ==>
              resp == Errored(ErrorMessage(UploadInputNotFound))
    ensures !resp.BadRequest? && PageOpened(s) && CanUpload(s.uploadPage) && s.uploadActionError.Some? ==>
              resp == Errored(s.uploadActionError.value)
    ensures !resp.BadRequest? && PageOpened(s) && Uploaded(s) && !SomeHit(s.promptPage, PromptSelectors) ==>
              resp == Errored(ErrorMessage(PromptInputNotFound))
    ensures !resp.BadRequest? && PageOpened(s) && Uploaded(s) && SomeHit(s.promptPage, PromptSelectors) &&
            s.promptActionError.Some? ==>
              resp == Errored(s.promptActionError.value)
    ensures !resp.BadRequest? && PageOpened(s) && PromptEntered(s) && !ButtonFound(s.buttonPage) ==>
              resp == Errored(ErrorMessage(GenerateButtonNotFound))
    ensures !resp.BadRequest? && PageOpened(s) && PromptEntered(s) && ButtonFound(s.buttonPage) &&
            s.clickError.Some? ==>
              resp == Errored(s.clickError.value)
    ensures !resp.BadRequest? && PageOpened(s) && Generated(s) && Poll(s.passes, imagePath) == [] &&
            s.fallbackError.Some? ==>
              resp == Errored(s.fallbackError.value)
    ensures resp.Success() ==>
      resp.message == CompletedMessage && Some(resp.originalImage) == imageUrl && Some(resp.prompt) == prompt
    ensures resp.Success() && Poll(s.passes, imagePath) != [] ==> resp.resultImages == Poll(s.passes, imagePath)
    ensures resp.Success() && Poll(s.passes, imagePath) == [] ==> resp.resultImages == FallbackSources(s.finalPage)
  {
    if imageUrl.None? || imageUrl.value == [] || prompt.None? || prompt.value == [] {
      return BadRequest(MissingParameters);
    }
    if s.downloadError.Some? {
      return Errored(s.downloadError.value);
    }
    if s.launchError.Some? {
      return Errored(s.launchError.value);
    }
    var cookies := ServiceCookies.ParseCookiesFile(s.cookieFile);
    if cookies.Failure? {
      return Errored(ErrorMessage(CookieFileUnreadable));
    }
    if s.navigationError.Some? {
      return Errored(s.navigationError.value);
    }
    var results := OperatePage(s, imagePath);
    if results.Failure? {
      return Errored(results.error);
    }
    return Completed(CompletedMessage, imageUrl.value, prompt.value, results.value);
  }
}
