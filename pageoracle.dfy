/** The browser page as the automation code observes it. Playwright is replaced by
    an oracle: for each selector, the elements it matches in document order, the
    selectors whose query throws, and what re-probing `input[type="file"]` finds
    after clicking the element an upload-area selector matched. */
module PageOracle {
  import opened Wrappers

  /** The outcome of `element.isEnabled()`: it can also throw. */
  datatype Check = Yes | No | Throws

  /** An element with the properties the code reads. */
  datatype Element = Element(
    srcAttribute: Option<string>, // getAttribute('src'): null when absent
    src: string,                  // the `src` property: "" when absent
    enabled: Check,               // isEnabled()
    visible: bool,                // rendered: it has an offset parent
    width: int,                   // bounding box, whole CSS pixels
    height: int)

  /** The outcome of `page.$(selector)`: the first match, null, or an exception. */
  datatype Lookup = Hit(element: Element) | Miss | Failed

  datatype Page = Page(
    matches: map<string, seq<Element>>,
    failing: set<string>,
    afterClick: map<string, Lookup>)

  /** The elements `selector` matches, in document order. */
  function All(p: Page, selector: string): seq<Element> {
    if selector in p.matches then p.matches[selector] else []
  }

  /** `page.$(selector)` */
  function Query(p: Page, selector: string): (r: Lookup)
    ensures r.Hit? <==> selector !in p.failing && All(p, selector) != []
    ensures r.Hit? ==> r.element == All(p, selector)[0]
  {
    if selector in p.failing then Failed
    else if All(p, selector) == [] then Miss
    else Hit(All(p, selector)[0])
  }

  /** `page.$$(selector)`; `None` when it throws. */
  function QueryAll(p: Page, selector: string): (r: Option<seq<Element>>)
    ensures r.Some? <==> selector !in p.failing
    ensures r.Some? ==> r.value == All(p, selector)
  {
    if selector in p.failing then None else Some(All(p, selector))
  }

  /** Clicking the element `areaSelector` matched, then `page.$('input[type="file"]')`. */
  function ProbeAfterClick(p: Page, areaSelector: string): Lookup {
    if areaSelector in p.afterClick then p.afterClick[areaSelector] else Miss
  }

  /** `document.querySelectorAll('img')`, in document order. */
  function Images(p: Page): seq<Element> {
    All(p, "img")
  }

  /** Some selector of `sels` finds an element. */
  ghost predicate SomeHit(p: Page, sels: seq<string>) {
    exists i :: 0 <= i < |sels| && Query(p, sels[i]).Hit?
  }

  /** `e` is what the first selector of `sels` that finds anything finds. */
  ghost predicate FirstHitIs(p: Page, sels: seq<string>, e: Element) {
    exists i :: 0 <= i < |sels| && Query(p, sels[i]) == Hit(e) &&
      forall j :: 0 <= j < i ==> !Query(p, sels[j]).Hit?
  }
}
