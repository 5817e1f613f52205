/** The three "first success wins" searches of the messaging workflow: the Message
    button (`find_message_button`), the click on it (`click_message_button`) and the
    message input (the selector loop of `send_streak_to_user`). */
module Locate {
  import opened Wrappers
  import opened Dom

  /** The XPath selectors of `find_message_button`, in priority order. */
  const ButtonXPaths: seq<Locator> := [
    ButtonMessageE2E, ButtonTuxMessageE2E, ButtonTuxSecondaryMessageE2E, ButtonAboveMessageLabel,
    ButtonUserPageMessageE2E, ButtonWithMessageDiv, ButtonContainingMessage
  ]

  /** The CSS selectors tried after every XPath selector failed. */
  const ButtonCss: seq<Locator> := [CssButtonMessageE2E, CssTuxButtonMessageE2E]

  /** Every button locator in the order the search tries them. */
  const ButtonLocators: seq<Locator> := ButtonXPaths + ButtonCss

  /** The element the button search returns: that of the first locator giving a
      displayed element. */
  function ButtonIn(page: Page): Option<Element> {
    var k := FirstUsable(page, ButtonLocators);
    if k < |ButtonLocators| then Some(page(ButtonLocators[k]).element) else None
  }

  /** The search finds a button exactly when some locator of either list gives a
      displayed element, and then returns that of the first such locator. */
  lemma ButtonInSpec(page: Page)
    ensures ButtonIn(page).None? <==> forall j :: 0 <= j < |ButtonLocators| ==> !Usable(page(ButtonLocators[j]))
    ensures ButtonIn(page).Some? ==> exists j :: (
      && 0 <= j < |ButtonLocators| && page(ButtonLocators[j]) == Present(ButtonIn(page).value, true)
      && forall i :: 0 <= i < j ==> !Usable(page(ButtonLocators[i])))
  {
    var k := FirstUsable(page, ButtonLocators);
    if k < |ButtonLocators| {
      assert page(ButtonLocators[k]) == Present(ButtonIn(page).value, true);
    }
  }

  /** `find_message_button`: the first displayed element of the XPath list, else of
      the CSS list; `None` only when no locator of either list gives one. `probed` is
      the sequence of lookups made: never one after the hit. */
  method FindMessageButton(page: Page) returns (button: Option<Element>, probed: seq<Locator>)
    ensures button == ButtonIn(page)
    ensures probed == Tried(ButtonLocators, FirstUsable(page, ButtonLocators))
  {
    ghost var k := FirstUsable(page, ButtonLocators);
    probed := [];
    for i := 0 to |ButtonXPaths|
      invariant forall j :: 0 <= j < i ==> !Usable(page(ButtonLocators[j]))
      invariant probed == ButtonLocators[..i]
    {
      var found := page(ButtonXPaths[i]);
      probed := probed + [ButtonXPaths[i]];
      if Usable(found) {
        assert ButtonLocators[i] == ButtonXPaths[i];
        assert k == i;
        return Some(found.element), probed;
      }
    }
    for i := 0 to |ButtonCss|
      invariant forall j :: 0 <= j < |ButtonXPaths| + i ==> !Usable(page(ButtonLocators[j]))
      invariant probed == ButtonLocators[..|ButtonXPaths| + i]
    {
      var found := page(ButtonCss[i]);
      assert ButtonLocators[|ButtonXPaths| + i] == ButtonCss[i];
      probed := probed + [ButtonCss[i]];
      if Usable(found) {
        assert k == |ButtonXPaths| + i;
        return Some(found.element), probed;
      }
    }
    assert probed == ButtonLocators;
    return None, probed;
  }

  /** The four ways `click_message_button` tries to click, in order. */
  datatype ClickMethod = NormalClick | ScrollThenClick | ScriptClick | PointerClick

  const ClickMethods: seq<ClickMethod> := [NormalClick, ScrollThenClick, ScriptClick, PointerClick]

  /** Index of the first click method that completes without raising on `button`. */
  function FirstWorking(button: Element, works: (Element, ClickMethod) -> bool): (k: nat)
    ensures k <= |ClickMethods|
    ensures forall j :: 0 <= j < k ==> !works(button, ClickMethods[j])
    ensures k < |ClickMethods| ==> works(button, ClickMethods[k])
  {
    FirstIndex(ClickMethods, m => works(button, m))
  }

  /** Some click method completes on `button`. */
  predicate Clicks(button: Element, works: (Element, ClickMethod) -> bool) {
    FirstWorking(button, works) < |ClickMethods|
  }

  lemma ClicksSpec(button: Element, works: (Element, ClickMethod) -> bool)
    ensures Clicks(button, works) <==> exists m :: 0 <= m < |ClickMethods| && works(button, ClickMethods[m])
  {
    if exists m :: 0 <= m < |ClickMethods| && works(button, ClickMethods[m]) {
      var m :| 0 <= m < |ClickMethods| && works(button, ClickMethods[m]);
      assert FirstWorking(button, works) <= m;
    }
  }

  /** `click_message_button`: false for no button; otherwise true at the first method
      that does not raise, having run no later one, and false when all four raise.
      `works(b, m)` is whether method m completes on b. */
  method ClickMessageButton(button: Option<Element>, works: (Element, ClickMethod) -> bool)
    returns (clicked: bool, tried: seq<ClickMethod>)
    ensures button.None? ==> !clicked && tried == []
    ensures button.Some? ==> var k := FirstWorking(button.value, works);
      && (clicked <==> Clicks(button.value, works))
      && tried == Tried(ClickMethods, k)
  {
    if button.None? {
      return false, [];
    }
    var b := button.value;
    ghost var k := FirstWorking(b, works);
    tried := [];
    for i := 0 to |ClickMethods|
      invariant forall j :: 0 <= j < i ==> !works(b, ClickMethods[j])
      invariant tried == ClickMethods[..i]
    {
      tried := tried + [ClickMethods[i]];
      if works(b, ClickMethods[i]) {
        assert k == i;
        return true, tried;
      }
    }
    assert tried == ClickMethods;
    return false, tried;
  }

  /** The selectors of the message-input search, in order. */
  const InputLocators: seq<Locator> := [InputContentEditable, InputDmE2E, InputTextbox]

  /** The value `message_input` holds after looking up every locator of `locs` in turn
      without stopping: each lookup that finds an element overwrites it, each one that
      times out leaves it alone, so it is the element of the LAST present lookup. */
  function LastPresent(page: Page, locs: seq<Locator>): Option<Element> {
    if locs == [] then None
    else match page(locs[|locs| - 1])
      case Present(e, _) => Some(e)
      case Absent => LastPresent(page, locs[..|locs| - 1])
  }

  /** The j-th lookup of `locs` found `e`, and every later one timed out. */
  predicate LastHit(page: Page, locs: seq<Locator>, j: nat, e: Element) {
    && j < |locs| && page(locs[j]).Present? && page(locs[j]).element == e
    && forall j' :: j < j' < |locs| ==> page(locs[j']).Absent?
  }

  /** The value left is `None` exactly when every lookup timed out, and is otherwise
      the element of a present lookup after which every lookup timed out. */
  lemma {:induction false} LastPresentSpec(page: Page, locs: seq<Locator>)
    ensures LastPresent(page, locs).None? <==> forall j :: 0 <= j < |locs| ==> page(locs[j]).Absent?
    ensures LastPresent(page, locs).Some? ==> exists j: nat :: LastHit(page, locs, j, LastPresent(page, locs).value)
  {
    if locs != [] {
      var n := |locs| - 1;
      var init := locs[..n];
      LastPresentSpec(page, init);
      assert forall j :: 0 <= j < n ==> init[j] == locs[j];
      if page(locs[n]).Present? {
        assert LastHit(page, locs, n, LastPresent(page, locs).value);
      } else if LastPresent(page, init).Some? {
        var e := LastPresent(page, init).value;
        var j: nat :| LastHit(page, init, j, e);
        assert LastHit(page, locs, j, e);
      }
    }
  }

  /** What the input search leaves in `message_input`: the first displayed element if
      there is one, else the last element found even though it is hidden. */
  function InputIn(page: Page): (r: Option<Element>)
  {
    var k := FirstUsable(page, InputLocators);
    if k < |InputLocators| then Some(page(InputLocators[k]).element) else LastPresent(page, InputLocators)
  }

  /** "Message input not found" is reported only when no selector found any element:
      a hidden element found by a later (or the last) successful lookup is kept. */
  lemma InputInSpec(page: Page)
    ensures InputIn(page).None? <==> forall j :: 0 <= j < |InputLocators| ==> page(InputLocators[j]).Absent?
    ensures FirstUsable(page, InputLocators) == |InputLocators| && InputIn(page).Some? ==>
      exists j :: 0 <= j < |InputLocators| && page(InputLocators[j]) == Present(InputIn(page).value, false)
  {
    LastPresentSpec(page, InputLocators);
    var k := FirstUsable(page, InputLocators);
    if k < |InputLocators| {
      assert page(InputLocators[k]).Present?;
    }
  }

  /** The input-selector loop: stops at the first displayed element and otherwise keeps
      whatever the last successful lookup returned. */
  method FindMessageInput(page: Page) returns (input: Option<Element>, probed: seq<Locator>)
    ensures input == InputIn(page)
    ensures probed == Tried(InputLocators, FirstUsable(page, InputLocators))
  {
    ghost var k := FirstUsable(page, InputLocators);
    input := None;
    probed := [];
    for i := 0 to |InputLocators|
      invariant forall j :: 0 <= j < i ==> !Usable(page(InputLocators[j]))
      invariant input == LastPresent(page, InputLocators[..i])
      invariant probed == InputLocators[..i]
    {
      var found := page(InputLocators[i]);
      probed := probed + [InputLocators[i]];
      assert InputLocators[..i + 1][..i] == InputLocators[..i];
      if found.Present? {
        input := Some(found.element);
        if found.displayed {
          assert k == i;
          return;
        }
      }
    }
    assert InputLocators[..|InputLocators|] == InputLocators;
  }
}
