/** Result extraction of imageEditor.js: the result selectors are tried in order
    and the first one that matches decides the URL (an `img`-like selector reads
    the element's `src` attribute, `canvas` gives a marker); only when none
    matches are all large visible images scanned and the last one taken. The
    outcome is `success` with that URL, or `partial_success` when there is no
    usable URL; both carry the screenshot. */
module EditorResult {
  import opened Wrappers
  import opened JsText
  import opened Seqs
  import opened PageOracle

  /** The result selectors, most specific first. */
  const ImageSelectors: seq<string> := [
    "img[src*=\"output\"]",
    "img[alt*=\"result\"]",
    "img[alt*=\"edited\"]",
    "img[alt*=\"output\"]",
    "img:not([alt=\"\"]):not([src*=\"data:\"])",
    "canvas",
    "[role=\"img\"]"
  ]

  const CanvasMarker := "canvas-element"
  const NoSrcMarker := "element-found-but-no-src"

  /** The URL recorded for element `e` found by `selector`. */
  function UrlFor(selector: string, e: Element): Option<string> {
    if Includes(selector, "img") then e.srcAttribute
    else if Includes(selector, "canvas") then Some(CanvasMarker)
    else Some(NoSrcMarker)
  }

  /** The selector loop: `resultImageElement` and `resultImageUrl` after it. */
  method ScanResultSelectors(p: Page) returns (element: Option<Element>, url: Option<string>)
    ensures element.None? <==> !SomeHit(p, ImageSelectors)
    ensures element.None? ==> url.None?
    ensures element.Some? ==>
      exists i :: 0 <= i < |ImageSelectors| && Query(p, ImageSelectors[i]) == Hit(element.value) &&
        url == UrlFor(ImageSelectors[i], element.value) &&
        forall j :: 0 <= j < i ==> !Query(p, ImageSelectors[j]).Hit?
  {
    element, url := None, None;
    for i := 0 to |ImageSelectors|
      invariant element.None? && url.None?
      invariant forall j :: 0 <= j < i ==> !Query(p, ImageSelectors[j]).Hit?
    {
      var selector := ImageSelectors[i];
      var found := Query(p, selector);
      if found.Failed? {
        continue; // the exception is logged; both variables keep their values
      }
      if found.Hit? {
        element := Some(found.element);
        url := UrlFor(selector, found.element);
        return;
      }
      element := None;
    }
  }

  /** Every selector of the list mentions `img` or `canvas`: `[role="img"]` reads
      `src` like the `img` selectors, and the `element-found-but-no-src` branch
      is never taken. */
  lemma SelectorUrls(e: Element)
    ensures forall i :: 0 <= i < |ImageSelectors| && i != 5 ==> UrlFor(ImageSelectors[i], e) == e.srcAttribute
    ensures UrlFor(ImageSelectors[5], e) == Some(CanvasMarker)
    ensures forall i :: 0 <= i < |ImageSelectors| ==> Includes(ImageSelectors[i], "img") || Includes(ImageSelectors[i], "canvas")
  {
    forall i | 0 <= i < |ImageSelectors| && i != 5 ensures Includes(ImageSelectors[i], "img") {
      SelectorMentionsImg(i);
    }
    CanvasHasNoImg();
    assert ImageSelectors[5][..6] == "canvas";
  }

  lemma SelectorMentionsImg(i: nat)
    requires i < |ImageSelectors| && i != 5
    ensures Includes(ImageSelectors[i], "img")
  {
    var s := ImageSelectors[i];
    if i < 5 {
      assert s[0] == 'i' && s[1] == 'm' && s[2] == 'g';
      assert s[..3] == "img";
    } else {
      assert s[7] == 'i' && s[8] == 'm' && s[9] == 'g';
      assert s[7..10] == "img";
      IncludesAt(s, "img", 7);
    }
  }

  lemma CanvasHasNoImg()
    ensures !Includes("canvas", "img")
  {
    var c := "canvas";
    assert forall k :: 0 <= k < |c| ==> c[k] != 'i';
    forall k | 0 <= k <= |c| ensures !StartsWith(c[k..], "img") {
      if k < |c| {
        assert c[k..][0] == c[k];
      }
    }
    NotIncludes(c, "img");
  }

  /** A string with no occurrence of `sub` at any position does not include it. */
  lemma {:induction false} NotIncludes(s: string, sub: string)
    requires forall k :: 0 <= k <= |s| ==> !StartsWith(s[k..], sub)
    ensures !Includes(s, sub)
    decreases |s|
  {
    assert s[0..] == s;
    if |s| > 0 {
      forall k | 0 <= k <= |s[1..]| ensures !StartsWith(s[1..][k..], sub) {
        assert s[1..][k..] == s[k + 1..];
      }
      NotIncludes(s[1..], sub);
    }
  }

  // ---------------------------------------------------------------------------
  // the generic fallback

  /** An image the fallback may pick: a non-empty, non-`data:` source, visible,
      and more than 100 pixels wide and high. */
  predicate IsLargeVisible(e: Element) {
    e.src != [] && !StartsWith(e.src, "data:") && e.width > 100 && e.height > 100 && e.visible
  }

  /** The filter over all images, then the `src` of the last survivor. */
  function LastLargeImage(images: seq<Element>): Option<string> {
    var candidates := Filter(images, IsLargeVisible);
    if |candidates| > 0 then Some(candidates[|candidates| - 1].src) else None
  }

  /** The fallback finds nothing exactly when no image qualifies, and otherwise
      the source of the last qualifying image in document order. */
  lemma LastLargeImageIsLast(images: seq<Element>)
    ensures LastLargeImage(images).None? <==> forall i :: 0 <= i < |images| ==> !IsLargeVisible(images[i])
    ensures LastLargeImage(images).Some? ==>
      exists i :: 0 <= i < |images| && IsLargeVisible(images[i]) && LastLargeImage(images).value == images[i].src &&
        forall j :: i < j < |images| ==> !IsLargeVisible(images[j])
  {
    FilterLast(images, IsLargeVisible);
  }

  // ---------------------------------------------------------------------------
  // the outcome

  const ScreenshotPrefix := "data:image/jpeg;base64,"
  const PartialMessage := "Could not find result image URL, but screenshot was taken"

  /** The returned object: `status`, `message` (absent on success),
      `resultImageUrl` and `screenshot`. */
  datatype EditResult = EditResult(status: string, message: Option<string>, resultImageUrl: Option<string>, screenshot: string)

  /** `!resultImageUrl`: null and the empty string are falsy. */
  predicate Falsy(url: Option<string>) {
    url.None? || url.value == []
  }

  /** The object built from the URL found and the base64 text of the screenshot. */
  function Outcome(url: Option<string>, screenshotBase64: string): EditResult {
    if Falsy(url) then
      EditResult("partial_success", Some(PartialMessage), None, ScreenshotPrefix + screenshotBase64)
    else
      EditResult("success", None, url, ScreenshotPrefix + screenshotBase64)
  }

  /** `partial_success` with no URL exactly when the URL is falsy, `success`
      otherwise; the screenshot always travels as a JPEG data URL. */
  lemma OutcomeTags(url: Option<string>, shot: string)
    ensures Outcome(url, shot).status == "partial_success" <==> Falsy(url)
    ensures Outcome(url, shot).status == "partial_success" ==> Outcome(url, shot).resultImageUrl.None?
    ensures Outcome(url, shot).status == "success" <==> !Falsy(url)
    ensures Outcome(url, shot).status == "success" ==> Outcome(url, shot).resultImageUrl == url
    ensures StartsWith(Outcome(url, shot).screenshot, ScreenshotPrefix)
    ensures Outcome(url, shot).screenshot[|ScreenshotPrefix|..] == shot
  {
    assert "partial_success" != "success" by { assert "partial_success"[0] != "success"[0]; }
    assert (ScreenshotPrefix + shot)[..|ScreenshotPrefix|] == ScreenshotPrefix;
    assert (ScreenshotPrefix + shot)[|ScreenshotPrefix|..] == shot;
  }

  /** Result extraction after generation: the selector scan, the fallback when
      the scan found no element, and the outcome for `screenshotBase64`. */
  method ExtractResult(p: Page, screenshotBase64: string) returns (r: EditResult)
    ensures !SomeHit(p, ImageSelectors) ==> r == Outcome(LastLargeImage(Images(p)), screenshotBase64)
    ensures SomeHit(p, ImageSelectors) ==>
      exists i :: 0 <= i < |ImageSelectors| && Query(p, ImageSelectors[i]).Hit? &&
        (forall j :: 0 <= j < i ==> !Query(p, ImageSelectors[j]).Hit?) &&
        r == Outcome(UrlFor(ImageSelectors[i], Query(p, ImageSelectors[i]).element), screenshotBase64)
  {
    var element, url := ScanResultSelectors(p);
    if element.None? {
      url := LastLargeImage(Images(p));
    }
    r := Outcome(url, screenshotBase64);
  }

  /** When no selector matches but a large visible image exists, the result is
      `success` with the last such image's source. */
  lemma FallbackFindsImage(p: Page, shot: string, k: nat)
    requires !SomeHit(p, ImageSelectors)
    requires k < |Images(p)| && IsLargeVisible(Images(p)[k])
    ensures Outcome(LastLargeImage(Images(p)), shot).status == "success"
    ensures exists i ::
      k <= i < |Images(p)| && IsLargeVisible(Images(p)[i]) &&
      Outcome(LastLargeImage(Images(p)), shot).resultImageUrl == Some(Images(p)[i].src) &&
      forall j :: i < j < |Images(p)| ==> !IsLargeVisible(Images(p)[j])
  {
    LastLargeImageIsLast(Images(p));
    var url := LastLargeImage(Images(p));
    var i :| 0 <= i < |Images(p)| && IsLargeVisible(Images(p)[i]) && url.value == Images(p)[i].src &&
      forall j :: i < j < |Images(p)| ==> !IsLargeVisible(Images(p)[j]);
    OutcomeTags(url, shot);
  }

  /** With nothing matched and no large visible image on the page, only the
      screenshot comes back. */
  lemma NothingFoundIsPartial(p: Page, shot: string)
    requires !SomeHit(p, ImageSelectors)
    requires forall i :: 0 <= i < |Images(p)| ==> !IsLargeVisible(Images(p)[i])
    ensures Outcome(LastLargeImage(Images(p)), shot).status == "partial_success"
    ensures Outcome(LastLargeImage(Images(p)), shot).resultImageUrl.None?
  {
    LastLargeImageIsLast(Images(p));
    OutcomeTags(LastLargeImage(Images(p)), shot);
  }

  /** A matched element without a `src` attribute does not trigger the fallback:
      the outcome is `partial_success` even if large images are on the page. */
  lemma MatchWithoutSrcIsPartial(p: Page, shot: string, i: nat)
    requires i < |ImageSelectors| && i != 5 && Query(p, ImageSelectors[i]).Hit?
    requires forall j :: 0 <= j < i ==> !Query(p, ImageSelectors[j]).Hit?
    requires Query(p, ImageSelectors[i]).element.srcAttribute.None?
    ensures Outcome(UrlFor(ImageSelectors[i], Query(p, ImageSelectors[i]).element), shot).status == "partial_success"
  {
    SelectorUrls(Query(p, ImageSelectors[i]).element);
    OutcomeTags(None, shot);
  }
}
