/** `check_and_close_captcha` and the bounded repeat of it before the Message button
    is searched for. */
module Captcha {
  import opened Wrappers
  import opened Text
  import opened Dom

  /** The phrases whose presence in the page text means a captcha is showing. */
  const Indicators: seq<string> := ["Drag the slider", "Verify you are human", "puzzle", "verification"]

  /** The close buttons tried, in order, once a captcha is detected. */
  const CloseLocators: seq<Locator> := [CloseAriaLabel, CloseClass, CloseSvgParent, CloseTimesSign]

  /** `CAPTCHA_CHECK_ATTEMPTS`. */
  const CheckAttempts: nat := 3

  /** Some indicator of `inds`, lowercased, occurs in the lowercased text. */
  predicate AnyIndicator(text: string, inds: seq<string>) {
    if inds == [] then false
    else Contains(Lower(text), Lower(inds[0])) || AnyIndicator(text, inds[1..])
  }

  /** `any(...)` over the indicators: detection holds exactly when one of them occurs. */
  lemma {:induction false} AnyIndicatorSpec(text: string, inds: seq<string>)
    ensures AnyIndicator(text, inds) <==> exists k :: 0 <= k < |inds| && Contains(Lower(text), Lower(inds[k]))
  {
    if inds != [] {
      AnyIndicatorSpec(text, inds[1..]);
      assert forall k :: 1 <= k < |inds| ==> inds[k] == inds[1..][k - 1];
    }
  }

  /** The detection test on the text of `<body>`. */
  predicate Detected(text: string) {
    AnyIndicator(text, Indicators)
  }

  /** How one check ends. */
  datatype CaptchaAction =
    | NoBody           // the body lookup raised: reported as no captcha
    | NoCaptcha        // no indicator in the page text
    | ClosedVia(k: nat) // the k-th close button was displayed and clicked
    | PressedEscape    // no close button worked; ESC was sent
    | EscapeFailed     // sending ESC raised as well

  /** The value `check_and_close_captcha` returns after that action. */
  predicate Closed(a: CaptchaAction) {
    a.ClosedVia? || a.PressedEscape?
  }

  /** A close button that works: found, displayed, and its click does not raise.
      `clickWorks(loc, e)` is whether clicking `e`, found by `loc`, completes; the
      close locators are distinct, so this answers each click of one check separately. */
  predicate Closes(page: Page, clickWorks: (Locator, Element) -> bool, loc: Locator) {
    Usable(page(loc)) && clickWorks(loc, page(loc).element)
  }

  /** The first close button that works, or |CloseLocators| when none does. */
  function FirstClose(page: Page, clickWorks: (Locator, Element) -> bool): (k: nat)
    ensures k <= |CloseLocators|
    ensures forall j :: 0 <= j < k ==> !Closes(page, clickWorks, CloseLocators[j])
    ensures k < |CloseLocators| ==> Closes(page, clickWorks, CloseLocators[k])
  {
    FirstIndex(CloseLocators, loc => Closes(page, clickWorks, loc))
  }

  /** The loop over the close buttons: clicks the first one that is displayed and
      whose click does not raise, and reports its index (|CloseLocators| for none). */
  method TryCloseButtons(page: Page, clickWorks: (Locator, Element) -> bool) returns (k: nat)
    ensures k == FirstClose(page, clickWorks)
  {
    ghost var first := FirstClose(page, clickWorks);
    for i := 0 to |CloseLocators|
      invariant forall j :: 0 <= j < i ==> !Closes(page, clickWorks, CloseLocators[j])
    {
      var closeButton := page(CloseLocators[i]);
      if Usable(closeButton) && clickWorks(CloseLocators[i], closeButton.element) {
        assert first == i;
        return i;
      }
    }
    return |CloseLocators|;
  }

  /** `check_and_close_captcha`. `body` is the text of `<body>` (`None` when the lookup
      raises), `page` answers the close-button lookups, `clickWorks` says whether the
      click on the button found by a locator completes and `escapeWorks` whether sending ESC does. */
  method CheckAndCloseCaptcha(body: Option<string>, page: Page, clickWorks: (Locator, Element) -> bool, escapeWorks: bool)
    returns (closed: bool, action: CaptchaAction)
    ensures action.NoBody? <==> body.None?
    ensures action.NoCaptcha? <==> body.Some? && !Detected(body.value)
    ensures action.ClosedVia? ==> action.k == FirstClose(page, clickWorks) < |CloseLocators|
    ensures action.PressedEscape? <==>
      body.Some? && Detected(body.value) && FirstClose(page, clickWorks) == |CloseLocators| && escapeWorks
    ensures body.Some? && Detected(body.value) && FirstClose(page, clickWorks) < |CloseLocators| ==>
      action == ClosedVia(FirstClose(page, clickWorks))
    ensures closed <==> Closed(action)
  {
    if body.None? {
      return false, NoBody;
    }
    var detected := Detected(body.value);
    if !detected {
      return false, NoCaptcha;
    }
    var k := TryCloseButtons(page, clickWorks);
    if k < |CloseLocators| {
      return true, ClosedVia(k);
    }
    if escapeWorks {
      return true, PressedEscape;
    }
    return false, EscapeFailed;
  }

  /** The check reports a captcha dealt with exactly when the body was read, it shows
      an indicator, and a close button or ESC worked. */
  lemma {:induction false} CheckOutcome(body: Option<string>, page: Page, clickWorks: (Locator, Element) -> bool, escapeWorks: bool, a: CaptchaAction)
    requires a.NoBody? <==> body.None?
    requires a.NoCaptcha? <==> body.Some? && !Detected(body.value)
    requires a.ClosedVia? ==> a.k == FirstClose(page, clickWorks) < |CloseLocators|
    requires a.PressedEscape? <==>
      body.Some? && Detected(body.value) && FirstClose(page, clickWorks) == |CloseLocators| && escapeWorks
    requires body.Some? && Detected(body.value) && FirstClose(page, clickWorks) < |CloseLocators| ==>
      a == ClosedVia(FirstClose(page, clickWorks))
    ensures Closed(a) <==> (
      && body.Some? && Detected(body.value)
      && (escapeWorks || exists j :: 0 <= j < |CloseLocators| && Closes(page, clickWorks, CloseLocators[j])))
  {
    var k := FirstClose(page, clickWorks);
    if body.Some? && Detected(body.value) && !escapeWorks && (exists j :: 0 <= j < |CloseLocators| && Closes(page, clickWorks, CloseLocators[j])) {
      var j :| 0 <= j < |CloseLocators| && Closes(page, clickWorks, CloseLocators[j]);
      assert k <= j;
    }
  }

  /** The repeat before the button search: up to `CheckAttempts` checks, stopping at
      the first that reports no captcha dealt with. `check(n)` is what the n-th call
      returns. `pauses` counts the two-second pauses after a successful check. */
  method GuardBeforeButton(check: nat -> bool) returns (calls: nat, pauses: nat)
    ensures 1 <= calls <= CheckAttempts
    ensures forall n :: 0 <= n < calls - 1 ==> check(n)
    ensures calls < CheckAttempts ==> !check(calls - 1)
    ensures pauses == (if check(calls - 1) then calls else calls - 1)
  {
    calls, pauses := 0, 0;
    for n := 0 to CheckAttempts
      invariant calls == n && pauses == n
      invariant forall m :: 0 <= m < n ==> check(m)
    {
      calls := calls + 1;
      if check(n) {
        pauses := pauses + 1;
      } else {
        return;
      }
    }
  }

  /** The repeat is determined by the answers: it makes one call more than the number
      of leading successes, capped at `CheckAttempts`. */
  lemma {:induction false} GuardCalls(check: nat -> bool, calls: nat)
    requires 1 <= calls <= CheckAttempts
    requires forall n :: 0 <= n < calls - 1 ==> check(n)
    requires calls < CheckAttempts ==> !check(calls - 1)
    ensures calls == (if LeadingSuccesses(check, 0) < CheckAttempts then LeadingSuccesses(check, 0) + 1 else CheckAttempts)
  {
    LeadingSuccessesSpec(check, 0);
  }

  /** How many of the calls n, n+1, ... below `CheckAttempts` succeed in a row. */
  function LeadingSuccesses(check: nat -> bool, n: nat): nat
    requires n <= CheckAttempts
    decreases CheckAttempts - n
  {
    if n == CheckAttempts || !check(n) then 0 else 1 + LeadingSuccesses(check, n + 1)
  }

  lemma {:induction false} LeadingSuccessesSpec(check: nat -> bool, n: nat)
    requires n <= CheckAttempts
    ensures n + LeadingSuccesses(check, n) <= CheckAttempts
    ensures forall m :: n <= m < n + LeadingSuccesses(check, n) ==> check(m)
    ensures n + LeadingSuccesses(check, n) < CheckAttempts ==> !check(n + LeadingSuccesses(check, n))
    decreases CheckAttempts - n
  {
    if n < CheckAttempts && check(n) {
      LeadingSuccessesSpec(check, n + 1);
    }
  }
}
