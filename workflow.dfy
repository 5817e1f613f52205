/** `send_streak_to_user`: one attempt at one account. The steps run in order and the
    first that fails ends the attempt with a screenshot: the captcha guard, the
    button search, the click, the input search, then typing and sending. */
module Workflow {
  import opened Wrappers
  import opened Text
  import opened Dom
  import opened Locate
  import opened Captcha

  /** `STREAK_MESSAGES`. */
  const StreakMessages: seq<string> := ["text 1", "text 2", "text 3"]

  const ProfilePrefix: string := "https://www.tiktok.com/@"

  /** How one attempt ends. */
  datatype Outcome =
    | Sent(message: string) // the message was typed and RETURN pressed
    | NoButton              // no button locator gave a displayed element
    | ClickFailed           // every click method raised
    | NoInput               // no input locator found an element
    | Crashed               // clicking the input, typing or sending raised

  /** What the browser answers during one attempt. */
  datatype Browser = Browser(
    guard: nat -> bool,                    // what the n-th check of the captcha guard returns
    buttons: Page,                         // the page as the button search sees it
    works: (Element, ClickMethod) -> bool, // whether a click method completes on an element
    inputs: Page,                          // the page as the input search sees it, after the click
                                           // and the captcha check that follows it
    typingWorks: bool)                     // whether click, typing and RETURN on the input complete

  /** The handle as the profile URL uses it: every leading `@` removed. */
  function Handle(username: string): string {
    StripLeftChar(username, '@')
  }

  /** How the attempt ends, step by step; `pick` is the index `random.choice` draws. */
  function OutcomeOf(browser: Browser, pick: nat): Outcome
    requires pick < |StreakMessages|
  {
    var button := ButtonIn(browser.buttons);
    if button.None? then NoButton
    else if !Clicks(button.value, browser.works) then ClickFailed
    else if InputIn(browser.inputs).None? then NoInput
    else if !browser.typingWorks then Crashed
    else Sent(StreakMessages[pick])
  }

  /** An attempt succeeds exactly when some button locator gives a displayed element,
      some click method works on the element found, some input locator finds an
      element, and typing completes; the captcha checks never decide it. */
  lemma SentExactly(browser: Browser, pick: nat)
    requires pick < |StreakMessages|
    ensures OutcomeOf(browser, pick).Sent? <==> (
      && (exists j :: 0 <= j < |ButtonLocators| && Usable(browser.buttons(ButtonLocators[j])))
      && (exists m :: 0 <= m < |ClickMethods| && browser.works(ButtonIn(browser.buttons).value, ClickMethods[m]))
      && (exists j :: 0 <= j < |InputLocators| && browser.inputs(InputLocators[j]).Present?)
      && browser.typingWorks)
    ensures OutcomeOf(browser, pick).Sent? ==> OutcomeOf(browser, pick).message in StreakMessages
  {
    ButtonInSpec(browser.buttons);
    InputInSpec(browser.inputs);
    if ButtonIn(browser.buttons).Some? {
      ClicksSpec(ButtonIn(browser.buttons).value, browser.works);
    }
  }

  /** The screenshot a failed attempt saves, named after the handle. */
  function Screenshot(outcome: Outcome, handle: string): (name: Option<string>)
    ensures name.None? <==> outcome.Sent?
  {
    match outcome
    case Sent(_) => None
    case NoButton => Some("debug_no_button_" + handle + ".png")
    case ClickFailed => Some("debug_click_failed_" + handle + ".png")
    case NoInput => Some("debug_no_input_" + handle + ".png")
    case Crashed => Some("debug_error_" + handle + ".png")
  }

  /** `send_streak_to_user`. Returns whether the message went out, how the attempt
      ended, the profile URL visited, how many captcha checks the guard made and the
      debug screenshot saved on a failure. */
  method SendStreakToUser(username: string, browser: Browser, pick: nat)
    returns (ok: bool, outcome: Outcome, profile: string, checks: nat, shot: Option<string>)
    requires pick < |StreakMessages|
    ensures profile == ProfilePrefix + Handle(username)
    ensures ok <==> outcome.Sent?
    ensures outcome == OutcomeOf(browser, pick)
    ensures shot == Screenshot(outcome, Handle(username))
    ensures 1 <= checks <= CheckAttempts
    ensures forall n :: 0 <= n < checks - 1 ==> browser.guard(n)
    ensures checks < CheckAttempts ==> !browser.guard(checks - 1)
  {
    var handle := StripLeftChar(username, '@');
    profile := ProfilePrefix + handle;
    var pauses;
    checks, pauses := GuardBeforeButton(browser.guard);
    var button, _ := FindMessageButton(browser.buttons);
    if button.None? {
      return false, NoButton, profile, checks, Screenshot(NoButton, handle);
    }
    var clicked, _ := ClickMessageButton(button, browser.works);
    if !clicked {
      return false, ClickFailed, profile, checks, Screenshot(ClickFailed, handle);
    }
    var input, _ := FindMessageInput(browser.inputs);
    if input.None? {
      return false, NoInput, profile, checks, Screenshot(NoInput, handle);
    }
    if !browser.typingWorks {
      return false, Crashed, profile, checks, Screenshot(Crashed, handle);
    }
    return true, Sent(StreakMessages[pick]), profile, checks, None;
  }
}
