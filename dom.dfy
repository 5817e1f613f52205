/** What the browser answers, as an oracle. A lookup by locator either times out
    (`Absent`, the `TimeoutException` of an explicit wait or the `NoSuchElementException`
    of `find_element`) or yields an element and whether it is displayed. An
    `is_displayed()` call that raises is recorded as not displayed: every search of
    the program treats the two alike. */
module Dom {
  type Element = nat

  /** How Selenium is told to find an element. */
  datatype Selector = XPath(path: string) | Css(selector: string)

  /** Every selector the program looks elements up by, named. The browser's answer
      depends only on the selector text, and no two of these share a text, so a page
      can be asked by name. */
  datatype Locator =
    | ButtonMessageE2E | ButtonTuxMessageE2E | ButtonTuxSecondaryMessageE2E
    | ButtonAboveMessageLabel | ButtonUserPageMessageE2E | ButtonWithMessageDiv
    | ButtonContainingMessage | CssButtonMessageE2E | CssTuxButtonMessageE2E
    | InputContentEditable | InputDmE2E | InputTextbox
    | CloseAriaLabel | CloseClass | CloseSvgParent | CloseTimesSign

  /** The selector text behind each name. */
  function Query(l: Locator): Selector {
    match l
    case ButtonMessageE2E => XPath("//button[@data-e2e='message-button']")
    case ButtonTuxMessageE2E => XPath("//button[contains(@class, 'TUXButton') and @data-e2e='message-button']")
    case ButtonTuxSecondaryMessageE2E =>
      XPath("//button[contains(@class, 'TUXButton--secondary') and @data-e2e='message-button']")
    case ButtonAboveMessageLabel => XPath("//div[@class='TUXButton-label' and text()='Message']/ancestor::button")
    case ButtonUserPageMessageE2E => XPath("//button[@data-e2e='user-page-message-button']")
    case ButtonWithMessageDiv => XPath("//button[.//div[text()='Message']]")
    case ButtonContainingMessage => XPath("//button[contains(text(), 'Message')]")
    case CssButtonMessageE2E => Css("button[data-e2e='message-button']")
    case CssTuxButtonMessageE2E => Css("button.TUXButton[data-e2e='message-button']")
    case InputContentEditable => XPath("//div[@contenteditable='true']")
    case InputDmE2E => XPath("//div[@data-e2e='dm-input']")
    case InputTextbox => XPath("//div[@role='textbox']")
    case CloseAriaLabel => XPath("//button[contains(@aria-label, 'Close')]")
    case CloseClass => XPath("//button[contains(@class, 'close')]")
    case CloseSvgParent => XPath("//*[name()='svg' and contains(@class, 'close')]/parent::button")
    case CloseTimesSign => XPath("//button[text()='\U{D7}']")
  }

  datatype Probe = Absent | Present(element: Element, displayed: bool)

  /** The page as it stands during one search. */
  type Page = Locator -> Probe

  /** The test `el and el.is_displayed()` of every search. */
  predicate Usable(p: Probe) {
    p.Present? && p.displayed
  }

  /** Index of the first element of s satisfying p, or |s| when there is none. */
  function FirstIndex<T>(s: seq<T>, p: T -> bool): (k: nat)
    ensures k <= |s|
    ensures forall j :: 0 <= j < k ==> !p(s[j])
    ensures k < |s| ==> p(s[k])
  {
    if s == [] then 0 else if p(s[0]) then 0 else 1 + FirstIndex(s[1..], p)
  }

  /** Index of the first locator whose lookup on `page` is usable. */
  function FirstUsable(page: Page, locs: seq<Locator>): (k: nat)
    ensures k <= |locs|
    ensures forall j :: 0 <= j < k ==> !Usable(page(locs[j]))
    ensures k < |locs| ==> Usable(page(locs[k]))
  {
    FirstIndex(locs, loc => Usable(page(loc)))
  }

  /** The locators looked up by a search that stops after the first hit at k: all of
      them up to and including k. */
  function Tried<T>(s: seq<T>, k: nat): (t: seq<T>)
    requires k <= |s|
    ensures |t| == (if k < |s| then k + 1 else |s|)
    ensures t <= s
  {
    if k < |s| then s[..k + 1] else s
  }
}
