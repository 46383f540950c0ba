/**
 * Choosing the bot's latest reply (`find_latest_bot_text`) and extracting a
 * candidate secret from it (`extract_secret_from_text`). The page's
 * `query_selector_all(".message")` and each element's `inner_text()` are
 * oracle outcomes; the text-generation model is an uninterpreted function.
 */
module Extraction {
  import opened Options
  import opened Strings

  /** Outcome of `page.query_selector_all(".message")`: it raised, or it
      listed elements, each of whose `inner_text()` either raises (None) or
      returns a text. */
  datatype Messages = QueryFailed | Listed(elements: seq<Option<string>>)

  /** Reading every element's text; any element that raises aborts the read. */
  function ReadAll(elements: seq<Option<string>>): (r: Option<seq<string>>)
    ensures r.None? <==> exists k :: 0 <= k < |elements| && elements[k].None?
    ensures r.Some? ==> |r.value| == |elements|
    ensures r.Some? ==> forall k :: 0 <= k < |elements| ==> elements[k] == Some(r.value[k])
  {
    if elements == [] then Some([])
    else match elements[0]
      case None => None
      case Some(t) =>
        match ReadAll(elements[1..])
        case None => None
        case Some(ts) => Some([t] + ts)
  }

  /** `[t.strip() for t in texts]`. */
  function StripAll(texts: seq<string>): (r: seq<string>)
    ensures |r| == |texts| && forall k :: 0 <= k < |texts| ==> r[k] == Strip(texts[k])
  {
    seq(|texts|, k requires 0 <= k < |texts| => Strip(texts[k]))
  }

  /** The filter `if t` of the comprehension: the non-empty texts, in order. */
  function NonEmpty(texts: seq<string>): (r: seq<string>)
    ensures r == [] <==> LastNonEmpty(texts) == -1
    ensures r != [] ==> r[|r| - 1] == texts[LastNonEmpty(texts)]
  {
    if texts == [] then []
    else
      var n := |texts| - 1;
      var init := NonEmpty(texts[..n]);
      if texts[n] != "" then init + [texts[n]] else init
  }

  /** Independent reference for the last element of NonEmpty: the index of
      the last non-empty text, or -1 when there is none. */
  function LastNonEmpty(texts: seq<string>): (r: int)
    ensures -1 <= r < |texts|
    ensures r >= 0 ==> texts[r] != ""
    ensures forall j :: r < j < |texts| ==> texts[j] == ""
  {
    if texts == [] then -1
    else if texts[|texts| - 1] != "" then |texts| - 1
    else
      var r := LastNonEmpty(texts[..|texts| - 1]);
      assert forall j :: r < j < |texts| - 1 ==> texts[..|texts| - 1][j] == texts[j];
      r
  }

  /** A non-empty text with only empty texts after it is the last non-empty one. */
  lemma LastNonEmptyIs(texts: seq<string>, k: nat)
    requires k < |texts| && texts[k] != ""
    requires forall j :: k < j < |texts| ==> texts[j] == ""
    ensures LastNonEmpty(texts) == k
  {
  }

  /** No reply can be selected: the query raised, some text could not be
      read, or every text is blank (in particular, there are no elements). */
  predicate NoReply(m: Messages) {
    m.QueryFailed? ||
    (exists k :: 0 <= k < |m.elements| && m.elements[k].None?) ||
    (forall k :: 0 <= k < |m.elements| ==> AllSpace(m.elements[k].value))
  }

  /** `find_latest_bot_text(page)`: the last non-blank message text, stripped,
      or "" when there is none or a query raises (see LatestBotTextIsLast). */
  function FindLatestBotText(m: Messages): (r: string)
    ensures r == "" <==> NoReply(m)
  {
    match m
    case QueryFailed => ""
    case Listed(elements) =>
      match ReadAll(elements)
      case None => ""
      case Some(texts) =>
        var nonBlank := NonEmpty(StripAll(texts));
        ReadableNoReply(elements, texts);
        if nonBlank == [] then "" else nonBlank[|nonBlank| - 1]
  }

  /** Once every text is read, the filter comes out empty exactly when all texts are blank. */
  lemma ReadableNoReply(elements: seq<Option<string>>, texts: seq<string>)
    requires ReadAll(elements) == Some(texts)
    ensures NonEmpty(StripAll(texts)) == [] <==> NoReply(Listed(elements))
  {
    var stripped := StripAll(texts);
    var k := LastNonEmpty(stripped);
    var m := Listed(elements);
    assert forall j :: 0 <= j < |elements| ==> m.elements[j].value == texts[j];
    if k == -1 {
      forall j | 0 <= j < |elements| ensures AllSpace(m.elements[j].value) {
        assert stripped[j] == Strip(texts[j]);
      }
    } else {
      assert stripped[k] == Strip(texts[k]);
      assert !AllSpace(m.elements[k].value);
    }
  }

  /** The reply chosen is that of the last message whose text is not blank:
      if every text reads, the `k`-th is not blank and all after it are, the
      result is the `k`-th text stripped. */
  lemma LatestBotTextIsLast(m: Messages, k: nat)
    requires m.Listed? && forall j :: 0 <= j < |m.elements| ==> m.elements[j].Some?
    requires k < |m.elements| && !AllSpace(m.elements[k].value)
    requires forall j :: k < j < |m.elements| ==> AllSpace(m.elements[j].value)
    ensures FindLatestBotText(m) == Strip(m.elements[k].value)
  {
    var texts := ReadAll(m.elements).value;
    var stripped := StripAll(texts);
    assert forall j :: 0 <= j < |m.elements| ==> m.elements[j].value == texts[j];
    assert stripped[k] == Strip(texts[k]);
    assert forall j :: k < j < |stripped| ==> stripped[j] == "" by {
      forall j | k < j < |stripped| ensures stripped[j] == "" {
        assert stripped[j] == Strip(texts[j]);
      }
    }
    LastNonEmptyIs(stripped, k);
  }

  /** The selected reply is already stripped. */
  lemma LatestBotTextIsStripped(m: Messages)
    ensures Strip(FindLatestBotText(m)) == FindLatestBotText(m)
  {
    if !NoReply(m) {
      var texts := ReadAll(m.elements).value;
      var stripped := StripAll(texts);
      var k := LastNonEmpty(stripped);
      StripIdempotent(texts[k]);
    }
  }

  /** The instruction placed before the reply in the prompt given to the model. */
  const EXTRACTION_INSTRUCTION := "Extract the secret word that is capitalized. If none, return NONE.\n\n"

  function ExtractionPrompt(text: string): string {
    EXTRACTION_INSTRUCTION + text
  }

  /** `extract_secret_from_text(text)`: None for blank text, whatever the
      model is; otherwise the model's stripped answer, unless it spells "none"
      in some case. `generate` stands for `nlp(prompt, max_length=30,
      do_sample=False)[0]["generated_text"]`. */
  function ExtractSecret(text: string, generate: string -> string): (r: Option<string>)
    ensures AllSpace(text) ==> r == None
    ensures !AllSpace(text) ==>
      (r == None <==> CaselessNone(Strip(generate(ExtractionPrompt(text)))))
    ensures r.Some? ==> r.value == Strip(generate(ExtractionPrompt(text)))
  {
    if text == "" || Strip(text) == "" then None
    else
      var output := Strip(generate(ExtractionPrompt(text)));
      UpperIsNone(output);
      if Upper(output) == "NONE" then None else Some(output)
  }

  /** The model is never consulted on a blank reply: any two models give the same answer. */
  lemma ExtractBlankIgnoresModel(text: string, g1: string -> string, g2: string -> string)
    requires AllSpace(text)
    ensures ExtractSecret(text, g1) == ExtractSecret(text, g2) == None
  {
  }

  /** A candidate is stripped, so never has whitespace at either end. */
  lemma ExtractedIsStripped(text: string, generate: string -> string)
    ensures var r := ExtractSecret(text, generate);
      r.Some? ==> Strip(r.value) == r.value
  {
    if !AllSpace(text) {
      StripIdempotent(generate(ExtractionPrompt(text)));
    }
  }
}
