/**
 * `submit_answer(page, answer)`: an ordered fallback search for a way to send
 * the candidate. For each answer-input selector in turn, a found input is
 * filled (a failed fill is ignored), then the submit-button selectors are
 * tried in turn and the first present and enabled button is clicked; failing
 * that, Enter is pressed on the input. Only when every input-based attempt
 * failed are all buttons scanned for a keyword in their text. The first
 * click or key press that completes ends the search.
 *
 * The page is an oracle: what each selector finds, and for every element
 * whether each operation completes or raises.
 */
module Cascade {
  import opened Options
  import opened Strings

  const ANSWER_INPUT_SELECTORS: seq<string> :=
    ["input#answer", "input[name='answer']", "input[type='text']", "textarea.answer", "input"]

  const SUBMIT_BUTTON_SELECTORS: seq<string> :=
    ["button:has-text('Submit')", "button:has-text('Check')", "button:has-text('Next')", "button[type='submit']"]

  const SUBMIT_KEYWORDS: seq<string> := ["submit", "check", "next", "answer", "send"]

  /** A page element. Each flag says whether that operation completes
      rather than raising. */
  datatype Element = Element(
    text: Option<string>,  // inner_text(), None when it raises
    enabled: bool,         // is_enabled() returns true (false also when it raises: either way the button is skipped)
    fillOk: bool,          // fill(answer)
    clickOk: bool,         // click()
    pressOk: bool)         // press("Enter")

  /** Outcome of `page.query_selector(selector)`. */
  datatype Lookup = Missing | Present(element: Element) | QueryRaised

  /** The page: what each selector finds (a selector absent from the map finds
      nothing), and the outcome of `page.query_selector_all("button")`. */
  datatype Page = Page(elements: map<string, Lookup>, buttons: Option<seq<Element>>)

  function Query(page: Page, selector: string): Lookup {
    if selector in page.elements then page.elements[selector] else Missing
  }

  /** One operation the cascade dispatched, and whether it completed. */
  datatype Action =
    | Fill(selector: string, text: string, ok: bool)
    | Click(selector: string, ok: bool)
    | PressEnter(selector: string, ok: bool)
    | ClickScanned(index: nat, ok: bool)

  /** A click or key press that completed: a submission was sent. */
  predicate Sent(a: Action) {
    !a.Fill? && a.ok
  }

  function SentCount(log: seq<Action>): nat {
    if log == [] then 0 else (if Sent(log[0]) then 1 else 0) + SentCount(log[1..])
  }

  lemma {:induction false} SentCountAppend(a: seq<Action>, b: seq<Action>)
    ensures SentCount(a + b) == SentCount(a) + SentCount(b)
  {
    if a != [] {
      assert (a + b)[1..] == a[1..] + b;
      SentCountAppend(a[1..], b);
    } else {
      assert a + b == b;
    }
  }

  /** The result of `submit_answer` together with the log of what it dispatched. */
  datatype Submission = Submission(ok: bool, log: seq<Action>)

  predicate HasKeyword(text: string) {
    exists k :: 0 <= k < |SUBMIT_KEYWORDS| && Contains(text, SUBMIT_KEYWORDS[k])
  }

  /** A button the keyword scan would click: its text reads and, lower-cased,
      contains a keyword. */
  predicate IsKeywordButton(b: Element) {
    b.text.Some? && HasKeyword(Lower(b.text.value))
  }

  // ---------------------------------------------------------------------------
  // The cascade as functions, one per phase, each from a position in its
  // list of selectors. `inputs` and `buttons` are the two selector lists.

  function ButtonsFrom(page: Page, buttons: seq<string>, j: nat): Submission
    requires j <= |buttons|
    decreases |buttons| - j
  {
    if j == |buttons| then Submission(false, [])
    else
      var lookup := Query(page, buttons[j]);
      if lookup.Present? && lookup.element.enabled then
        if lookup.element.clickOk then Submission(true, [Click(buttons[j], true)])
        else
          var rest := ButtonsFrom(page, buttons, j + 1);
          Submission(rest.ok, [Click(buttons[j], false)] + rest.log)
      else ButtonsFrom(page, buttons, j + 1)
  }

  function ScanFrom(elements: seq<Element>, k: nat): Submission
    requires k <= |elements|
    decreases |elements| - k
  {
    if k == |elements| then Submission(false, [])
    else if IsKeywordButton(elements[k]) then
      if elements[k].clickOk then Submission(true, [ClickScanned(k, true)])
      else
        var rest := ScanFrom(elements, k + 1);
        Submission(rest.ok, [ClickScanned(k, false)] + rest.log)
    else ScanFrom(elements, k + 1)
  }

  function KeywordScan(page: Page): Submission {
    match page.buttons
    case None => Submission(false, [])
    case Some(elements) => ScanFrom(elements, 0)
  }

  /** What is tried on an input that was found: fill it, then the buttons. */
  function TriedOn(page: Page, answer: string, sel: string, e: Element, buttons: seq<string>): seq<Action> {
    [Fill(sel, answer, e.fillOk)] + ButtonsFrom(page, buttons, 0).log
  }

  function InputsFrom(page: Page, answer: string, inputs: seq<string>, buttons: seq<string>, i: nat): Submission
    requires i <= |inputs|
    decreases |inputs| - i
  {
    if i == |inputs| then KeywordScan(page)
    else
      var lookup := Query(page, inputs[i]);
      if lookup.Present? then
        var e := lookup.element;
        var tried := TriedOn(page, answer, inputs[i], e, buttons);
        if ButtonsFrom(page, buttons, 0).ok then Submission(true, tried)
        else if e.pressOk then Submission(true, tried + [PressEnter(inputs[i], true)])
        else
          var rest := InputsFrom(page, answer, inputs, buttons, i + 1);
          Submission(rest.ok, tried + [PressEnter(inputs[i], false)] + rest.log)
      else InputsFrom(page, answer, inputs, buttons, i + 1)
  }

  /** What `submit_answer(page, answer)` does. */
  function SubmitSpec(page: Page, answer: string): Submission {
    InputsFrom(page, answer, ANSWER_INPUT_SELECTORS, SUBMIT_BUTTON_SELECTORS, 0)
  }

  // ---------------------------------------------------------------------------
  // When the cascade succeeds, stated without the search.

  predicate ButtonClickable(page: Page, sel: string) {
    Query(page, sel).Present? && Query(page, sel).element.enabled && Query(page, sel).element.clickOk
  }

  predicate AnyButtonClickable(page: Page, buttons: seq<string>) {
    exists j :: 0 <= j < |buttons| && ButtonClickable(page, buttons[j])
  }

  /** An input through which a submission gets sent: it is found, and either
      some submit button clicks or Enter on it completes. */
  predicate InputSubmits(page: Page, sel: string, buttons: seq<string>) {
    Query(page, sel).Present? && (AnyButtonClickable(page, buttons) || Query(page, sel).element.pressOk)
  }

  predicate ScanSubmits(page: Page) {
    page.buttons.Some? &&
    exists k :: 0 <= k < |page.buttons.value| &&
      IsKeywordButton(page.buttons.value[k]) && page.buttons.value[k].clickOk
  }

  predicate Submits(page: Page, inputs: seq<string>, buttons: seq<string>) {
    (exists i :: 0 <= i < |inputs| && InputSubmits(page, inputs[i], buttons)) || ScanSubmits(page)
  }

  lemma {:induction false} ButtonsFromOk(page: Page, buttons: seq<string>, j: nat)
    requires j <= |buttons|
    ensures ButtonsFrom(page, buttons, j).ok <==>
      exists j' :: j <= j' < |buttons| && ButtonClickable(page, buttons[j'])
    decreases |buttons| - j
  {
    if j < |buttons| {
      ButtonsFromOk(page, buttons, j + 1);
    }
  }

  lemma {:induction false} ScanFromOk(elements: seq<Element>, k: nat)
    requires k <= |elements|
    ensures ScanFrom(elements, k).ok <==>
      exists k' :: k <= k' < |elements| && IsKeywordButton(elements[k']) && elements[k'].clickOk
    decreases |elements| - k
  {
    if k < |elements| {
      ScanFromOk(elements, k + 1);
    }
  }

  lemma {:induction false} InputsFromOk(page: Page, answer: string, inputs: seq<string>, buttons: seq<string>, i: nat)
    requires i <= |inputs|
    ensures InputsFrom(page, answer, inputs, buttons, i).ok <==>
      (exists i' :: i <= i' < |inputs| && InputSubmits(page, inputs[i'], buttons)) || ScanSubmits(page)
    decreases |inputs| - i
  {
    if i == |inputs| {
      if page.buttons.Some? { ScanFromOk(page.buttons.value, 0); }
    } else {
      ButtonsFromOk(page, buttons, 0);
      InputsFromOk(page, answer, inputs, buttons, i + 1);
    }
  }

  /** `submit_answer` returns True exactly when some input is found and a
      submit button clicks or Enter on that input completes, or else some
      keyword button clicks. Whether a fill completed plays no part. */
  lemma SubmitOkIff(page: Page, answer: string)
    ensures SubmitSpec(page, answer).ok <==> Submits(page, ANSWER_INPUT_SELECTORS, SUBMIT_BUTTON_SELECTORS)
  {
    InputsFromOk(page, answer, ANSWER_INPUT_SELECTORS, SUBMIT_BUTTON_SELECTORS, 0);
  }

  // ---------------------------------------------------------------------------
  // At most one submission is sent, and it is the last thing done.

  /** A cascade phase sends one submission if it succeeded and none
      otherwise, and a success is the phase's last action. */
  predicate SendsOnceAtEnd(s: Submission) {
    SentCount(s.log) == (if s.ok then 1 else 0) &&
    (s.ok ==> s.log != [] && Sent(s.log[|s.log| - 1]))
  }

  lemma {:induction false} ButtonsSendOnce(page: Page, buttons: seq<string>, j: nat)
    requires j <= |buttons|
    ensures SendsOnceAtEnd(ButtonsFrom(page, buttons, j))
    decreases |buttons| - j
  {
    if j < |buttons| {
      ButtonsSendOnce(page, buttons, j + 1);
      SentCountAppend([Click(buttons[j], false)], ButtonsFrom(page, buttons, j + 1).log);
    }
  }

  lemma {:induction false} ScanSendsOnce(elements: seq<Element>, k: nat)
    requires k <= |elements|
    ensures SendsOnceAtEnd(ScanFrom(elements, k))
    decreases |elements| - k
  {
    if k < |elements| {
      ScanSendsOnce(elements, k + 1);
      SentCountAppend([ClickScanned(k, false)], ScanFrom(elements, k + 1).log);
    }
  }

  lemma {:induction false} InputsSendOnce(page: Page, answer: string, inputs: seq<string>, buttons: seq<string>, i: nat)
    requires i <= |inputs|
    ensures SendsOnceAtEnd(InputsFrom(page, answer, inputs, buttons, i))
    decreases |inputs| - i
  {
    if i == |inputs| {
      if page.buttons.Some? { ScanSendsOnce(page.buttons.value, 0); }
    } else {
      var sel := inputs[i];
      var lookup := Query(page, sel);
      InputsSendOnce(page, answer, inputs, buttons, i + 1);
      if lookup.Present? {
        var e := lookup.element;
        var b := ButtonsFrom(page, buttons, 0);
        ButtonsSendOnce(page, buttons, 0);
        var fill := [Fill(sel, answer, e.fillOk)];
        var tried := fill + b.log;
        SentCountAppend(fill, b.log);
        if !b.ok {
          var rest := InputsFrom(page, answer, inputs, buttons, i + 1);
          SentCountAppend(tried, [PressEnter(sel, e.pressOk)]);
          SentCountAppend(tried + [PressEnter(sel, e.pressOk)], rest.log);
          if !e.pressOk && rest.ok {
            assert (tried + [PressEnter(sel, false)] + rest.log)[|tried| + 1 + |rest.log| - 1]
                == rest.log[|rest.log| - 1];
          }
        }
      }
    }
  }

  /** `submit_answer` sends at most one submission: exactly one when it
      returns True, none when it returns False, and it returns right after it. */
  lemma SubmitSendsOnce(page: Page, answer: string)
    ensures SendsOnceAtEnd(SubmitSpec(page, answer))
  {
    InputsSendOnce(page, answer, ANSWER_INPUT_SELECTORS, SUBMIT_BUTTON_SELECTORS, 0);
  }

  // ---------------------------------------------------------------------------
  // The order of the fallbacks.

  /** What makes an action possible at all: inputs are filled and pressed only
      when found, only present and enabled submit buttons are clicked, Enter
      is pressed only when no submit button would click, and a scanned button
      is clicked only when its text holds a keyword. */
  predicate Permitted(page: Page, inputs: seq<string>, buttons: seq<string>, a: Action) {
    match a
    case Fill(sel, _, _) => sel in inputs && Query(page, sel).Present?
    case Click(sel, _) => sel in buttons && Query(page, sel).Present? && Query(page, sel).element.enabled
    case PressEnter(sel, _) => sel in inputs && Query(page, sel).Present? && !AnyButtonClickable(page, buttons)
    case ClickScanned(k, _) =>
      page.buttons.Some? && k < |page.buttons.value| && IsKeywordButton(page.buttons.value[k])
  }

  lemma {:induction false} ButtonsPermitted(page: Page, inputs: seq<string>, buttons: seq<string>, j: nat)
    requires j <= |buttons|
    ensures forall a :: a in ButtonsFrom(page, buttons, j).log ==> a.Click? && Permitted(page, inputs, buttons, a)
    decreases |buttons| - j
  {
    if j < |buttons| {
      ButtonsPermitted(page, inputs, buttons, j + 1);
    }
  }

  lemma {:induction false} ScanPermitted(page: Page, inputs: seq<string>, buttons: seq<string>, k: nat)
    requires page.buttons.Some? && k <= |page.buttons.value|
    ensures forall a :: a in ScanFrom(page.buttons.value, k).log ==>
      a.ClickScanned? && Permitted(page, inputs, buttons, a)
    decreases |page.buttons.value| - k
  {
    if k < |page.buttons.value| {
      ScanPermitted(page, inputs, buttons, k + 1);
    }
  }

  lemma {:induction false} InputsPermitted(page: Page, answer: string, inputs: seq<string>, buttons: seq<string>, i: nat)
    requires i <= |inputs|
    ensures forall a :: a in InputsFrom(page, answer, inputs, buttons, i).log ==> Permitted(page, inputs, buttons, a)
    ensures forall a :: a in InputsFrom(page, answer, inputs, buttons, i).log && a.ClickScanned? ==>
      forall i' :: i <= i' < |inputs| ==> !InputSubmits(page, inputs[i'], buttons)
    decreases |inputs| - i
  {
    if i == |inputs| {
      if page.buttons.Some? { ScanPermitted(page, inputs, buttons, 0); }
    } else {
      InputsPermitted(page, answer, inputs, buttons, i + 1);
      ButtonsPermitted(page, inputs, buttons, 0);
      ButtonsFromOk(page, buttons, 0);
    }
  }

  /** Every action of `submit_answer` is permitted, and the keyword scan runs
      only when no input-based attempt could succeed. */
  lemma SubmitOrder(page: Page, answer: string)
    ensures forall a :: a in SubmitSpec(page, answer).log ==>
      Permitted(page, ANSWER_INPUT_SELECTORS, SUBMIT_BUTTON_SELECTORS, a)
    ensures (exists a :: a in SubmitSpec(page, answer).log && a.ClickScanned?) ==>
      forall i :: 0 <= i < |ANSWER_INPUT_SELECTORS| ==>
        !InputSubmits(page, ANSWER_INPUT_SELECTORS[i], SUBMIT_BUTTON_SELECTORS)
  {
    InputsPermitted(page, answer, ANSWER_INPUT_SELECTORS, SUBMIT_BUTTON_SELECTORS, 0);
  }

  // ---------------------------------------------------------------------------
  // The first success wins: lists are tried in order.

  /** The submit-button loop clicks the first selector, in list order, that
      finds an enabled button whose click completes. */
  lemma {:induction false} ButtonsFirst(page: Page, buttons: seq<string>, j: nat, j0: nat)
    requires j <= j0 < |buttons| && ButtonClickable(page, buttons[j0])
    requires forall j' :: j <= j' < j0 ==> !ButtonClickable(page, buttons[j'])
    ensures var s := ButtonsFrom(page, buttons, j);
      s.ok && s.log != [] && s.log[|s.log| - 1] == Click(buttons[j0], true)
    decreases j0 - j
  {
    if j < j0 {
      ButtonsFirst(page, buttons, j + 1, j0);
    }
  }

  /** The keyword scan clicks the first button, in page order, whose text
      holds a keyword and whose click completes. */
  lemma {:induction false} ScanFirst(elements: seq<Element>, k: nat, k0: nat)
    requires k <= k0 < |elements| && IsKeywordButton(elements[k0]) && elements[k0].clickOk
    requires forall k' :: k <= k' < k0 ==> !(IsKeywordButton(elements[k']) && elements[k'].clickOk)
    ensures var s := ScanFrom(elements, k);
      s.ok && s.log != [] && s.log[|s.log| - 1] == ClickScanned(k0, true)
    decreases k0 - k
  {
    if k < k0 {
      ScanFirst(elements, k + 1, k0);
    }
  }

  /** When some submit button would click, the first input found, in list
      order, is filled and the first clickable button, in list order, is
      clicked; nothing else is sent. */
  lemma {:induction false} InputsFirstClick(page: Page, answer: string, inputs: seq<string>, buttons: seq<string>,
                                            i: nat, i0: nat, j0: nat)
    requires i <= i0 < |inputs| && Query(page, inputs[i0]).Present?
    requires forall i' :: i <= i' < i0 ==> !Query(page, inputs[i']).Present?
    requires j0 < |buttons| && ButtonClickable(page, buttons[j0])
    requires forall j' :: 0 <= j' < j0 ==> !ButtonClickable(page, buttons[j'])
    ensures var s := InputsFrom(page, answer, inputs, buttons, i);
      s.ok && s.log != [] &&
      s.log[0] == Fill(inputs[i0], answer, Query(page, inputs[i0]).element.fillOk) &&
      s.log[|s.log| - 1] == Click(buttons[j0], true)
    decreases i0 - i
  {
    if i < i0 {
      InputsFirstClick(page, answer, inputs, buttons, i + 1, i0, j0);
    } else {
      ButtonsFirst(page, buttons, 0, j0);
    }
  }

  /** When no submit button would click, Enter is sent on the first input
      found, in list order, on which Enter completes. */
  lemma {:induction false} InputsFirstEnter(page: Page, answer: string, inputs: seq<string>, buttons: seq<string>,
                                            i: nat, i0: nat)
    requires !AnyButtonClickable(page, buttons)
    requires i <= i0 < |inputs| && Query(page, inputs[i0]).Present? && Query(page, inputs[i0]).element.pressOk
    requires forall i' :: i <= i' < i0 && Query(page, inputs[i']).Present? ==> !Query(page, inputs[i']).element.pressOk
    ensures var s := InputsFrom(page, answer, inputs, buttons, i);
      s.ok && s.log != [] && s.log[|s.log| - 1] == PressEnter(inputs[i0], true)
    decreases i0 - i
  {
    ButtonsFromOk(page, buttons, 0);
    if i < i0 {
      InputsFirstEnter(page, answer, inputs, buttons, i + 1, i0);
      var lookup := Query(page, inputs[i]);
      if lookup.Present? {
        var tried := TriedOn(page, answer, inputs[i], lookup.element, buttons);
        var rest := InputsFrom(page, answer, inputs, buttons, i + 1);
        var log := tried + [PressEnter(inputs[i], false)] + rest.log;
        assert log[|log| - 1] == rest.log[|rest.log| - 1];
      }
    }
  }

  /** When no input leads to a submission, the keyword scan's first
      clickable keyword button is the one that sends it. */
  lemma {:induction false} InputsFallToScan(page: Page, answer: string, inputs: seq<string>, buttons: seq<string>,
                                            i: nat, k0: nat)
    requires i <= |inputs|
    requires forall i' :: i <= i' < |inputs| ==> !InputSubmits(page, inputs[i'], buttons)
    requires page.buttons.Some? && k0 < |page.buttons.value|
    requires IsKeywordButton(page.buttons.value[k0]) && page.buttons.value[k0].clickOk
    requires forall k' :: 0 <= k' < k0 ==> !(IsKeywordButton(page.buttons.value[k']) && page.buttons.value[k'].clickOk)
    ensures var s := InputsFrom(page, answer, inputs, buttons, i);
      s.ok && s.log != [] && s.log[|s.log| - 1] == ClickScanned(k0, true)
    decreases |inputs| - i
  {
    if i == |inputs| {
      ScanFirst(page.buttons.value, 0, k0);
    } else {
      ButtonsFromOk(page, buttons, 0);
      InputsFallToScan(page, answer, inputs, buttons, i + 1, k0);
      var lookup := Query(page, inputs[i]);
      if lookup.Present? {
        var tried := TriedOn(page, answer, inputs[i], lookup.element, buttons);
        var rest := InputsFrom(page, answer, inputs, buttons, i + 1);
        var log := tried + [PressEnter(inputs[i], false)] + rest.log;
        assert log[|log| - 1] == rest.log[|rest.log| - 1];
      }
    }
  }

  /** `submit_answer` takes the first success in its fixed order: with a
      clickable submit button, it fills the first answer input found and
      clicks the first clickable submit button (InputsFirstEnter and
      InputsFallToScan give the other two fallbacks). */
  lemma SubmitFirstSuccess(page: Page, answer: string, i0: nat, j0: nat)
    requires i0 < |ANSWER_INPUT_SELECTORS| && Query(page, ANSWER_INPUT_SELECTORS[i0]).Present?
    requires forall i' :: 0 <= i' < i0 ==> !Query(page, ANSWER_INPUT_SELECTORS[i']).Present?
    requires j0 < |SUBMIT_BUTTON_SELECTORS| && ButtonClickable(page, SUBMIT_BUTTON_SELECTORS[j0])
    requires forall j' :: 0 <= j' < j0 ==> !ButtonClickable(page, SUBMIT_BUTTON_SELECTORS[j'])
    ensures var s := SubmitSpec(page, answer);
      s.ok && s.log != [] &&
      s.log[0] == Fill(ANSWER_INPUT_SELECTORS[i0], answer, Query(page, ANSWER_INPUT_SELECTORS[i0]).element.fillOk) &&
      s.log[|s.log| - 1] == Click(SUBMIT_BUTTON_SELECTORS[j0], true)
  {
    InputsFirstClick(page, answer, ANSWER_INPUT_SELECTORS, SUBMIT_BUTTON_SELECTORS, 0, i0, j0);
  }

  // ---------------------------------------------------------------------------
  // The imperative search.

  /** The inner loop of `submit_answer`: click the first present and enabled
      submit button whose click completes. */
  method TryButtons(page: Page, buttons: seq<string>) returns (ok: bool, clicks: seq<Action>)
    ensures Submission(ok, clicks) == ButtonsFrom(page, buttons, 0)
  {
    clicks := [];
    for j := 0 to |buttons|
      invariant ButtonsFrom(page, buttons, 0) == Submission(ButtonsFrom(page, buttons, j).ok, clicks + ButtonsFrom(page, buttons, j).log)
    {
      var btn := Query(page, buttons[j]);
      if btn.Present? && btn.element.enabled {
        clicks := clicks + [Click(buttons[j], btn.element.clickOk)];
        if btn.element.clickOk {
          return true, clicks;
        }
      }
    }
    ok := false;
  }

  /** The last-resort loop of `submit_answer`: click the first button whose
      lower-cased text holds a keyword and whose click completes. */
  method ScanButtons(elements: seq<Element>) returns (ok: bool, clicks: seq<Action>)
    ensures Submission(ok, clicks) == ScanFrom(elements, 0)
  {
    clicks := [];
    for k := 0 to |elements|
      invariant ScanFrom(elements, 0) == Submission(ScanFrom(elements, k).ok, clicks + ScanFrom(elements, k).log)
    {
      var b := elements[k];
      if b.text.Some? && HasKeyword(Lower(b.text.value)) {
        clicks := clicks + [ClickScanned(k, b.clickOk)];
        if b.clickOk {
          return true, clicks;
        }
      }
    }
    ok := false;
  }

  /** The body of `submit_answer` over given selector lists. */
  method RunCascade(page: Page, answer: string, inputs: seq<string>, buttons: seq<string>)
    returns (ok: bool, log: seq<Action>)
    ensures Submission(ok, log) == InputsFrom(page, answer, inputs, buttons, 0)
  {
    log := [];
    for i := 0 to |inputs|
      invariant InputsFrom(page, answer, inputs, buttons, 0) ==
        Submission(InputsFrom(page, answer, inputs, buttons, i).ok, log + InputsFrom(page, answer, inputs, buttons, i).log)
    {
      var lookup := Query(page, inputs[i]);
      if lookup.Present? {
        var el := lookup.element;
        ghost var start := log;
        // a fill that raises is ignored
        log := log + [Fill(inputs[i], answer, el.fillOk)];
        var clicked, clicks := TryButtons(page, buttons);
        log := log + clicks;
        assert log == start + TriedOn(page, answer, inputs[i], el, buttons);
        if clicked {
          return true, log;
        }
        // fall back to Enter on the input; if that raises, try the next input
        log := log + [PressEnter(inputs[i], el.pressOk)];
        if el.pressOk {
          return true, log;
        }
      }
    }
    // last resort: any button whose text looks like a submit control
    ok := false;
    if page.buttons.Some? {
      var clicks;
      ok, clicks := ScanButtons(page.buttons.value);
      log := log + clicks;
    }
  }

  /** `submit_answer(page, answer)`, returning also the actions it dispatched. */
  method SubmitAnswer(page: Page, answer: string) returns (ok: bool, log: seq<Action>)
    ensures Submission(ok, log) == SubmitSpec(page, answer)
    ensures ok <==> Submits(page, ANSWER_INPUT_SELECTORS, SUBMIT_BUTTON_SELECTORS)
    ensures SentCount(log) == (if ok then 1 else 0)
    ensures ok ==> log != [] && Sent(log[|log| - 1])
  {
    ok, log := RunCascade(page, answer, ANSWER_INPUT_SELECTORS, SUBMIT_BUTTON_SELECTORS);
    SubmitOkIff(page, answer);
    SubmitSendsOnce(page, answer);
  }
}
