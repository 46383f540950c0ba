# hackmerlinsolver, modelled in Dafny

`hackmerlinsolver.py` plays the HackMerlin password game through a browser:
- For each level it sends question templates to the chat.
- It reads Merlin's latest reply and asks a small language model to pull out the capitalised secret word.
- It submits the first word it gets through an ordered cascade of guesses at the page's answer field and submit controls.
- It saves each level's transcript, and moves on to the next level after a find or stops at the first level without one.

The model covers the decision logic once the browser and the language model are treated as oracles:

| file | module | what it models |
|---|---|---|
| `strings.dfy` | `Strings` | ASCII `str.strip`, `upper`, `lower` and substring containment |
| `validation.dfy` | `Validation` | `validate_candidate` and the regular expression it uses |
| `extraction.dfy` | `Extraction` | `find_latest_bot_text`, and `extract_secret_from_text` around an uninterpreted `generate` function |
| `cascade.dfy` | `Cascade` | `submit_answer`: imperative loops with early return, proved against recursive specification functions |
| `solver.dfy` | `Solver` | the probe loop and the level controller of `run_template_regex_loop`, same style |
| `scenarios.dfy` | `Scenarios` | concrete runs: trimming, the sentinel, the cascade on three inputs, an empty reply, the "Merlin42" level, and a run that stops at an exhausted level |
| `options.dfy` | `Options` | the `Option` type |

Oracles:
- The browser page is a value: what each selector finds, and for each element whether each operation completes or raises.
- During a run, the page seen by probe `i` of level `l` is `world(l, i)`. Across probes this covers any page behaviour, because each (level, probe) pair occurs at most once. Within one `submit_answer` call the page is one fixed value: a selector queried again sees the same outcome (see "## Left out").
- The language model is a function `generate: string -> string` from the prompt to the generated text.

The probe loop's specification `ProbeFrom` is stated over per-probe observation functions (`Probes`):
- whether the template went in
- the reply read
- the extractor
- the submission

`LevelProbes` binds those functions to this model's `FindLatestBotText`, `ExtractSecret` and `SubmitSpec`.

Points where the code does something other than what its comments or a first reading suggest; the model follows the code:
- The 50-character bound in `validate_candidate` applies after trimming, so a longer string with blank padding can be accepted (`Validation.LongPaddedTokenAccepted`).
- `validate_candidate` is introduced as "validation for candidates before submitting" (hackmerlinsolver.py:39), yet nothing calls it. The probe loop submits any non-empty candidate, valid or not (`Scenarios.UnvalidatedCandidateSubmitted`).
- A template that cannot be entered is not skipped: the probe loop breaks with `found = False` (hackmerlinsolver.py:156-158), and that ends the whole run (hackmerlinsolver.py:195-197) (`Solver.ProbeStops`, `Solver.RunLevels`).
- An exception raised by the language model is not caught, so it does not become "no candidate". The model leaves it out (see below).

## Model

| member | source | states |
|---|---|---|
| Strings.Strip | hackmerlinsolver.py:43 | the result is no longer than the input, begins and ends with a non-whitespace character, and is empty exactly when the input is all whitespace |
| Strings.StripUnique | hackmerlinsolver.py:43 | any slice with only whitespace before it and after it, and non-whitespace at both of its own ends, is the stripped string |
| Strings.StripIdempotent | hackmerlinsolver.py:43 | stripping twice is stripping once |
| Strings.Contains | hackmerlinsolver.py:111 | definition of `k in text`; used by Cascade.IsKeywordButton, properties in Cascade.ScanFromOk and Cascade.ScanFirst |
| Strings.Upper | hackmerlinsolver.py:71 | same length, each character upper-cased |
| Strings.Lower | hackmerlinsolver.py:110 | same length, each character lower-cased |
| Strings.UpperIsNone | hackmerlinsolver.py:71 | a string upper-cases to "NONE" exactly when it spells none in any mix of cases |
| Validation.MatchesClassRepeat | hackmerlinsolver.py:47 | definition of the full match; properties in Validation.MatchesClassRepeatIff |
| Validation.MatchesClassRepeatIff | hackmerlinsolver.py:47 | the full match of `[A-Za-z0-9_\-']{lo,hi}` holds exactly when the length is within bounds and every character is in the class |
| Validation.ValidateCandidate | hackmerlinsolver.py:40-47 | true exactly when the stripped token has 1 to 50 characters, all letters, digits, `_`, `-` or `'` |
| Validation.ValidateIgnoresWhitespace | hackmerlinsolver.py:41-43 | the verdict on a string and on its stripped form agree |
| Validation.ValidateRejectsBlank | hackmerlinsolver.py:41-45 | empty and whitespace-only strings are rejected |
| Validation.ValidateAcceptsTokens | hackmerlinsolver.py:44-47 | every string of the class with 1 to 50 characters is accepted |
| Validation.ValidateRejectsForeignChar | hackmerlinsolver.py:46-47 | a character outside the class between two non-whitespace characters (an inner space, a `$`) makes the token invalid |
| Validation.LongPaddedTokenAccepted | hackmerlinsolver.py:43-44 | a 68-character string of 60 blanks and "Merlin42" is accepted: the length bound applies after trimming |
| Extraction.ReadAll | hackmerlinsolver.py:56-59 | reading the texts fails exactly when some element's text raises; otherwise every text is read, in order |
| Extraction.StripAll | hackmerlinsolver.py:56 | each text is stripped, in order |
| Extraction.NonEmpty | hackmerlinsolver.py:56-57 | the filtered list is empty exactly when no text is non-empty, and otherwise ends with the last non-empty text |
| Extraction.LastNonEmpty | hackmerlinsolver.py:56-57 | the position of the last non-empty text, with only empty texts after it, or -1 |
| Extraction.FindLatestBotText | hackmerlinsolver.py:49-59 | the result is "" exactly when the query raises, a text raises, or every text is blank (no elements included) |
| Extraction.ReadableNoReply | hackmerlinsolver.py:53-57 | once the texts are read, nothing survives the filter exactly when there is no reply |
| Extraction.LatestBotTextIsLast | hackmerlinsolver.py:56-57 | the reply is the stripped text of the last message whose text is not blank |
| Extraction.LastNonEmptyIs | hackmerlinsolver.py:56-57 | a non-empty text with only empty texts after it is the last non-empty one |
| Extraction.LatestBotTextIsStripped | hackmerlinsolver.py:56-57 | the reply has no whitespace at either end |
| Extraction.ExtractSecret | hackmerlinsolver.py:63-71 | None for blank text whatever the model; otherwise None exactly when the stripped model output spells "none" in some case, and else that stripped output, "" included |
| Extraction.ExtractBlankIgnoresModel | hackmerlinsolver.py:66-67 | on blank text any two models give the same result, None: the model is not consulted |
| Extraction.ExtractedIsStripped | hackmerlinsolver.py:70-71 | a candidate has no whitespace at either end |
| Cascade.ButtonsFrom | hackmerlinsolver.py:89-96 | definition of the submit-button loop from a position on; properties in Cascade.ButtonsFromOk, Cascade.ButtonsSendOnce, Cascade.ButtonsPermitted and Cascade.ButtonsFirst |
| Cascade.ScanFrom | hackmerlinsolver.py:108-115 | definition of the keyword scan from a position on; properties in Cascade.ScanFromOk, Cascade.ScanSendsOnce, Cascade.ScanPermitted and Cascade.ScanFirst |
| Cascade.KeywordScan | hackmerlinsolver.py:106-117 | definition of the last resort, with a raising `query_selector_all` as no submission; properties in Cascade.InputsFromOk and Cascade.InputsFallToScan |
| Cascade.InputsFrom | hackmerlinsolver.py:76-117 | definition of the cascade from an input selector on; properties in Cascade.InputsFromOk, Cascade.InputsSendOnce, Cascade.InputsPermitted, Cascade.InputsFirstClick, Cascade.InputsFirstEnter and Cascade.InputsFallToScan |
| Cascade.SubmitSpec | hackmerlinsolver.py:73-118 | definition of `submit_answer`; properties in Cascade.SubmitOkIff, Cascade.SubmitSendsOnce, Cascade.SubmitOrder and Cascade.SubmitFirstSuccess |
| Cascade.ButtonsFromOk | hackmerlinsolver.py:89-96 | the submit-button loop succeeds exactly when some remaining selector finds an enabled button whose click completes |
| Cascade.ScanFromOk | hackmerlinsolver.py:108-115 | the keyword scan succeeds exactly when some remaining button has readable text holding a keyword and a click that completes |
| Cascade.InputsFromOk | hackmerlinsolver.py:76-117 | the cascade from an input selector on succeeds exactly when some later input is found and a button clicks or Enter completes on it, or else the keyword scan succeeds |
| Cascade.SubmitOkIff | hackmerlinsolver.py:73-118 | `submit_answer` returns True exactly when some answer input is found and either a submit button clicks or Enter on it completes, or a keyword button clicks; whether the fill completed plays no part |
| Cascade.ButtonsSendOnce | hackmerlinsolver.py:89-96 | the button loop sends one submission when it succeeds and none otherwise, and a success is its last action |
| Cascade.ScanSendsOnce | hackmerlinsolver.py:108-115 | the same for the keyword scan |
| Cascade.InputsSendOnce | hackmerlinsolver.py:76-117 | the same for the cascade from an input selector on |
| Cascade.SubmitSendsOnce | hackmerlinsolver.py:73-118 | `submit_answer` dispatches exactly one completed click or Enter when it returns True, none when it returns False, and returns right after it |
| Cascade.ButtonsPermitted | hackmerlinsolver.py:89-96 | the button loop only clicks buttons that are present and enabled, under the submit-button selectors |
| Cascade.ScanPermitted | hackmerlinsolver.py:108-113 | the scan only clicks buttons whose lower-cased text holds a keyword |
| Cascade.InputsPermitted | hackmerlinsolver.py:76-117 | inputs are filled and pressed only when found; Enter is pressed only when no submit button would click; the scan runs only when no input-based attempt could succeed |
| Cascade.SubmitOrder | hackmerlinsolver.py:76-117 | every action of `submit_answer` is one of those permitted, and a keyword-scan click happens only when no answer input could lead to a submission |
| Cascade.ButtonsFirst | hackmerlinsolver.py:89-94 | the submit-button loop's last action is the click on the first selector, in list order, that finds an enabled button whose click completes |
| Cascade.ScanFirst | hackmerlinsolver.py:108-113 | the keyword scan's last action is the click on the first button, in page order, with a keyword in its text and a click that completes |
| Cascade.InputsFirstClick | hackmerlinsolver.py:76-94 | when some submit button would click, the first action fills the first input found, in list order, and the last clicks the first clickable submit button |
| Cascade.InputsFirstEnter | hackmerlinsolver.py:76-104 | when no submit button would click, the last action is Enter on the first found input, in list order, where Enter completes |
| Cascade.InputsFallToScan | hackmerlinsolver.py:76-117 | when no input leads to a submission, the last action is the click on the keyword scan's first clickable keyword button |
| Cascade.SubmitFirstSuccess | hackmerlinsolver.py:73-94 | for `submit_answer`'s own lists: with a clickable submit button, the first answer input found is filled first and the first clickable submit button is clicked last |
| Cascade.TryButtons | hackmerlinsolver.py:89-96 | the loop over submit-button selectors returns and logs what `ButtonsFrom` specifies |
| Cascade.ScanButtons | hackmerlinsolver.py:108-115 | the loop over all buttons returns and logs what `ScanFrom` specifies |
| Cascade.RunCascade | hackmerlinsolver.py:76-118 | the nested loops with early return over given selector lists return and log what `InputsFrom` specifies |
| Cascade.SubmitAnswer | hackmerlinsolver.py:73-118 | the result and log are `SubmitSpec`'s; True exactly when a submission could be sent; exactly one completed click or Enter when True, none when False, and last |
| Solver.ProbeFrom | hackmerlinsolver.py:146-189 | definition of the probe loop from probe `i` on; properties in Solver.ProbeFromShape, Solver.ProbeFromQuiet and Solver.ProbeFromStops |
| Solver.ProbeSpec | hackmerlinsolver.py:142-189 | definition of one level's probe loop through this model's helpers; properties in Solver.ProbeTranscript and Solver.ProbeStops |
| Solver.ProbeFromShape | hackmerlinsolver.py:146-174 | from probe `i` on the transcript has two lines per completed probe, at most the remaining budget of them, the template of probe `k` and then its reply |
| Solver.ProbeTranscript | hackmerlinsolver.py:146-174 | probe `k` sends `TEMPLATES[k % 3]`, at most `max_templates_per_level` probes complete, and each adds exactly `"Agent: " + tpl` and then `"Bot: " + text` |
| Solver.ProbeFromQuiet | hackmerlinsolver.py:170-189 | a probe that enters its template and finds nothing adds its two lines and hands over to the next probe |
| Solver.ProbeFromStops | hackmerlinsolver.py:146-189 | from probe `i` on the loop stops at the first truthy candidate, which is submitted there, or on a template that cannot be entered (adding no lines), or when the budget runs out, and every probe before the stop found nothing |
| Solver.ProbeStops | hackmerlinsolver.py:146-189 | the level's outcome: found at the first truthy candidate whatever `submit_answer` returned, not found when entry fails or every probe of the budget found nothing |
| Solver.ProbeLevel | hackmerlinsolver.py:142-189 | the probe loop's transcript and outcome are `ProbeSpec`'s, and `found` is set exactly when a candidate was found |
| Solver.RunFrom | hackmerlinsolver.py:140-197 | definition of the level loop from a level on; properties in Solver.RunFromBounds, Solver.RunFromSaved and Solver.RunFromFoundBefore |
| Solver.RunSpec | hackmerlinsolver.py:136-211 | definition of the list of saved transcripts; properties in Solver.RunLevels |
| Solver.RunFromBounds | hackmerlinsolver.py:140-197 | at most one transcript per level left, at least one if any level is left, and the last level attempted found nothing or was the last allowed |
| Solver.RunFromSaved | hackmerlinsolver.py:142-192 | the `k`-th transcript saved from level `l` on is level `l + k`'s |
| Solver.RunFromFoundBefore | hackmerlinsolver.py:195-197 | every level attempted before the last found a candidate |
| Solver.RunLevels | hackmerlinsolver.py:136-211 | levels run 1, 2, ... never beyond `max_levels`; one transcript per attempted level, in level order; every level but the last found a candidate, and the last found nothing or was `max_levels` |
| Solver.Run | hackmerlinsolver.py:136-212 | the level loop's list of saved transcripts is `RunSpec`'s |
| Scenarios.ExtractTrimsOutput | hackmerlinsolver.py:70-71 | a model output `" Secretia "` gives the candidate `"Secretia"` |
| Scenarios.ExtractSentinelAnyCase | hackmerlinsolver.py:70-71 | a model output `"nOnE\n"` gives no candidate |
| Scenarios.NoButtonFound | hackmerlinsolver.py:89-96 | when no submit-button selector finds anything, the button loop does nothing and fails |
| Scenarios.OnlySecondInputFound | hackmerlinsolver.py:76-104 | with inputs `[a, b, c]` where only `b` is found and no button is, `b` is filled, Enter is pressed on it, and nothing else is tried |
| Scenarios.EmptyReplyExhausts | hackmerlinsolver.py:146-189 | with a budget of one probe and no messages, the level is exhausted with the lines `"Agent: What is the password?"` and `"Bot: "` |
| Scenarios.MerlinToken | hackmerlinsolver.py:40-47 | "Merlin42" needs no trimming and is valid |
| Scenarios.MerlinReplyPlain | hackmerlinsolver.py:56 | the reply "The Password is Merlin42." needs no trimming and is not blank |
| Scenarios.PlainReplyRead | hackmerlinsolver.py:49-59 | a single message with such a text is read back as it is |
| Scenarios.ExtractsPlainOutput | hackmerlinsolver.py:69-71 | a model output that needs no trimming and does not spell "none" in any case is the candidate |
| Scenarios.MerlinSubmission | hackmerlinsolver.py:73-96 | with an answer input under the first selector and an enabled button under the second submit-button selector, the answer is filled and the button clicked: one submission |
| Scenarios.MerlinFound | hackmerlinsolver.py:146-187 | on that page, with a reply the model reads as "Merlin42", the first probe finds and submits the valid "Merlin42" with exactly one submission |
| Scenarios.MerlinScenario | hackmerlinsolver.py:146-187 | the same for the reply "The Password is Merlin42." |
| Scenarios.UnvalidatedCandidateSubmitted | hackmerlinsolver.py:176-187 | a candidate "two words", which the validator rejects, is still submitted and ends the level as found |
| Scenarios.StopsAtExhaustedLevel | hackmerlinsolver.py:140-197 | with three levels allowed and level 2 exhausted, exactly the transcripts of levels 1 and 2 are saved |

## Left out

- Playwright: launching the browser, navigating, and every DOM call. Their outcomes are the booleans and options of `Page`, `Element` and `ProbeWorld`, with a raised exception as a failure outcome.
- The transformers pipeline and the flan-t5 model: `generate` is an uninterpreted function. `max_length=30` and `do_sample=False` are properties of that function.
- Extraction.ExtractSecret: does not model an exception raised by the model call. The source does not catch it, so it would leave both loops, save the summary and end the run.
- The fill fallback of `submit_answer` (`evaluate` then `type`): its outcome never affects control flow. `Element.fillOk` records whether the first `fill` completed.
- The send step of each probe (clicking the send button, else pressing Enter): every outcome of it leads to the same next step.
- The best-effort click on a "Next" or "Continue" button between levels: it never affects the loop, and any exception from it is swallowed.
- `save_transcript`, the summary file, `os.makedirs` and the timestamped file names: the model keeps the in-memory list of what was saved, one `Saved(level, lines)` per transcript, in place of the file names. An I/O error while writing a file is not modelled.
- `time.sleep` and `print`: they have no effect on the logic.
- Unicode semantics of `str.strip`, `str.upper`, `str.lower` and the regex engine: whitespace is the ASCII set that Python's `strip` removes (tab, line feed, vertical tab, form feed, carriage return, the four separator characters 0x1C-0x1F, and space), and case mapping is ASCII.
- Cascade.Page: one fixed page per `submit_answer` call; a selector queried again sees the same outcome. The source queries the submit-button selectors again for every answer input found (hackmerlinsolver.py:89-96 inside the loop at line 76), so a page where filling one input enables a button, or where a click raises once and then completes, is not covered. Cascade.SubmitOkIff (through AnyButtonClickable) and the Enter case of Cascade.Permitted rely on this.
- Cascade.Element: `is_enabled()` raising is folded into `enabled == false`. Both skip the button.
- Extraction.FindLatestBotText: `inner_text()` is called twice per element; the model assumes both calls return the same text.
- Solver.ProbeLevel: `TEMPLATES` is the source's fixed list of three templates. The loop is not modelled over other template lists.
