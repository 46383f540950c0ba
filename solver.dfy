/**
 * The probe loop and the level controller of `run_template_regex_loop`.
 *
 * Per level, up to `maxProbes` templates are sent in turn (cycling through
 * TEMPLATES), each reply is appended to the level's transcript and handed to
 * the extractor, and the level ends at the first candidate (which is
 * submitted, whatever the submission's outcome) or when a template cannot be
 * entered. Levels run 1, 2, ... up to `maxLevels`; each attempted level's
 * transcript is saved, and the run stops at the first level without a find.
 *
 * The browser is an oracle `world(level, i)`: what the page does during probe
 * `i` of `level`. Each (level, probe) pair occurs at most once in a run, so
 * any behaviour of the page from probe to probe is one such function; within
 * one probe's submission the page is a single fixed value.
 */
module Solver {
  import opened Options
  import opened Extraction
  import opened Cascade

  const TEMPLATES: seq<string> := ["What is the password?", "What is the key?", "What is the secret?"]

  /** The template sent by probe `i`. */
  function Template(i: nat): string {
    TEMPLATES[i % |TEMPLATES|]
  }

  /** What the page does during one probe. */
  datatype ProbeWorld = ProbeWorld(
    fillOk: bool,        // page.fill("textarea", tpl) completes
    typeOk: bool,        // page.focus("textarea") and page.keyboard.type(tpl) complete (tried when fill raises)
    messages: Messages,  // what find_latest_bot_text finds once the template is sent
    page: Page)          // what submit_answer finds

  type World = (nat, nat) -> ProbeWorld

  /** The template could be entered into the chat input. */
  predicate Entered(w: ProbeWorld) {
    w.fillOk || w.typeOk
  }

  /** What the probes of one level observe, probe by probe: whether the
      template went in, the reply read, the extractor, and the submission. */
  datatype Probes = Probes(
    entered: nat -> bool,
    reply: nat -> string,
    extract: string -> Option<string>,
    submit: (nat, string) -> Submission)

  /** The observations of level `level`, through this model's
      find_latest_bot_text, extract_secret_from_text and submit_answer. */
  function LevelProbes(world: World, generate: string -> string, level: nat): Probes {
    Probes(
      (i: nat) => Entered(world(level, i)),
      (i: nat) => FindLatestBotText(world(level, i).messages),
      text => ExtractSecret(text, generate),
      (i: nat, c: string) => SubmitSpec(world(level, i).page, c))
  }

  /** Python truthiness of the extractor's result: a non-empty string. */
  predicate Truthy(c: Option<string>) {
    c.Some? && c.value != ""
  }

  function CandidateAt(p: Probes, i: nat): Option<string> {
    p.extract(p.reply(i))
  }

  /** Probe `i` completes and finds nothing, so the loop goes on. */
  predicate Quiet(p: Probes, i: nat) {
    p.entered(i) && !Truthy(CandidateAt(p, i))
  }

  /** How a level ends. `found` in the source is `Found?`. */
  datatype Outcome =
    | Found(candidate: string, submitted: bool, actions: seq<Action>)
    | Exhausted
    | EntryFailed

  datatype LevelResult = LevelResult(transcript: seq<string>, outcome: Outcome)

  // ---------------------------------------------------------------------------
  // Probe loop

  function ProbeFrom(p: Probes, maxProbes: int, i: nat): LevelResult
    decreases maxProbes - i
  {
    if i >= maxProbes then LevelResult([], Exhausted)
    else if !p.entered(i) then LevelResult([], EntryFailed)
    else
      var lines := ["Agent: " + Template(i), "Bot: " + p.reply(i)];
      var candidate := p.extract(p.reply(i));
      if Truthy(candidate) then
        var s := p.submit(i, candidate.value);
        LevelResult(lines, Found(candidate.value, s.ok, s.log))
      else
        var rest := ProbeFrom(p, maxProbes, i + 1);
        LevelResult(lines + rest.transcript, rest.outcome)
  }

  /** A probe that completes and finds nothing adds its two lines and hands
      over to the next probe. */
  lemma ProbeFromQuiet(p: Probes, maxProbes: int, i: nat)
    requires i < maxProbes && Quiet(p, i)
    ensures var rest := ProbeFrom(p, maxProbes, i + 1);
      ProbeFrom(p, maxProbes, i) ==
        LevelResult(["Agent: " + Template(i), "Bot: " + p.reply(i)] + rest.transcript, rest.outcome)
  {
  }

  /** Stated apart so that the loops below need not prove it in their
      larger contexts. */
  lemma AppendAssoc<T>(a: seq<T>, b: seq<T>, c: seq<T>)
    ensures a + (b + c) == (a + b) + c
  {
  }

  /** What one level of the probe loop does. */
  function ProbeSpec(world: World, generate: string -> string, level: nat, maxProbes: int): LevelResult {
    ProbeFrom(LevelProbes(world, generate, level), maxProbes, 0)
  }

  function Budget(n: int): nat {
    if n < 0 then 0 else n
  }

  /** The transcript of the probes from `i` on: two lines per completed probe,
      the template sent and the reply read. */
  lemma {:induction false} ProbeFromShape(p: Probes, maxProbes: int, i: nat)
    ensures var t := ProbeFrom(p, maxProbes, i).transcript;
      |t| % 2 == 0 && |t| / 2 <= Budget(maxProbes - i) &&
      forall k :: i <= k < i + |t| / 2 ==>
        t[2 * (k - i)] == "Agent: " + Template(k) && t[2 * (k - i) + 1] == "Bot: " + p.reply(k)
    decreases maxProbes - i
  {
    if i < maxProbes && Quiet(p, i) {
      ProbeFromShape(p, maxProbes, i + 1);
      var rest := ProbeFrom(p, maxProbes, i + 1).transcript;
      var t := ["Agent: " + Template(i), "Bot: " + p.reply(i)] + rest;
      assert ProbeFrom(p, maxProbes, i).transcript == t;
      forall k | i + 1 <= k < i + |t| / 2
        ensures t[2 * (k - i)] == "Agent: " + Template(k) && t[2 * (k - i) + 1] == "Bot: " + p.reply(k)
      {
        assert t[2 * (k - i)] == rest[2 * (k - (i + 1))];
        assert t[2 * (k - i) + 1] == rest[2 * (k - (i + 1)) + 1];
      }
    }
  }

  /** Probe `k` sends `TEMPLATES[k % 3]`, at most `maxProbes` probes run, and
      each completed probe adds exactly its template line and then its reply
      line, so the transcript has two lines per completed probe. */
  lemma ProbeTranscript(p: Probes, maxProbes: int)
    ensures var t := ProbeFrom(p, maxProbes, 0).transcript;
      |t| % 2 == 0 && |t| / 2 <= Budget(maxProbes) &&
      forall k :: 0 <= k < |t| / 2 ==>
        t[2 * k] == "Agent: " + TEMPLATES[k % 3] && t[2 * k + 1] == "Bot: " + p.reply(k)
  {
    ProbeFromShape(p, maxProbes, 0);
    var t := ProbeFrom(p, maxProbes, 0).transcript;
    forall k | 0 <= k < |t| / 2
      ensures t[2 * k] == "Agent: " + TEMPLATES[k % 3] && t[2 * k + 1] == "Bot: " + p.reply(k)
    {
      assert 2 * (k - 0) == 2 * k && Template(k) == TEMPLATES[k % 3];
    }
  }

  /** Why the probes from `i` on stopped, in terms of the probes themselves,
      with `n` probes completed: every probe before them found nothing; a
      find is the last completed probe's candidate, submitted there; an
      exhaustion means the budget ran out; an entry failure happened at
      probe `i + n`, which added no lines. */
  predicate StoppedBecause(p: Probes, maxProbes: int, i: nat, r: LevelResult) {
    var n := |r.transcript| / 2;
    match r.outcome
    case Found(c, submitted, actions) =>
      n >= 1 && i + n <= maxProbes &&
      (forall j :: i <= j < i + n - 1 ==> Quiet(p, j)) &&
      p.entered(i + n - 1) && CandidateAt(p, i + n - 1) == Some(c) && c != "" &&
      p.submit(i + n - 1, c) == Submission(submitted, actions)
    case Exhausted =>
      i + n >= maxProbes && (forall j :: i <= j < i + n ==> Quiet(p, j))
    case EntryFailed =>
      i + n < maxProbes && (forall j :: i <= j < i + n ==> Quiet(p, j)) && !p.entered(i + n)
  }

  lemma {:induction false} ProbeFromStops(p: Probes, maxProbes: int, i: nat)
    ensures StoppedBecause(p, maxProbes, i, ProbeFrom(p, maxProbes, i))
    decreases maxProbes - i
  {
    if i < maxProbes && Quiet(p, i) {
      ProbeFromStops(p, maxProbes, i + 1);
      var rest := ProbeFrom(p, maxProbes, i + 1);
      assert |ProbeFrom(p, maxProbes, i).transcript| / 2 == |rest.transcript| / 2 + 1;
    }
  }

  /** The level stops at the first probe with a truthy candidate, and
      `found` is set whether or not the submission went through; it stops
      with `found` false when a template cannot be entered or when every
      probe of the budget found nothing. */
  lemma ProbeStops(p: Probes, maxProbes: int)
    ensures StoppedBecause(p, maxProbes, 0, ProbeFrom(p, maxProbes, 0))
  {
    ProbeFromStops(p, maxProbes, 0);
  }

  /** One level of `run_template_regex_loop`: the probe loop. */
  method ProbeLevel(world: World, generate: string -> string, level: nat, maxProbes: int)
    returns (transcript: seq<string>, found: bool, outcome: Outcome)
    ensures LevelResult(transcript, outcome) == ProbeSpec(world, generate, level, maxProbes)
    ensures found <==> outcome.Found?
  {
    ghost var p := LevelProbes(world, generate, level);
    transcript := [];
    found := false;
    outcome := Exhausted;
    var i: nat := 0;
    while i < maxProbes
      invariant i <= Budget(maxProbes)
      invariant !found && outcome == Exhausted
      invariant ProbeFrom(p, maxProbes, 0) ==
        LevelResult(transcript + ProbeFrom(p, maxProbes, i).transcript, ProbeFrom(p, maxProbes, i).outcome)
      decreases maxProbes - i
    {
      var w := world(level, i);
      var tpl := Template(i);
      // fill the chat input, else focus it and type; if both raise, give up on the level
      if !w.fillOk && !w.typeOk {
        outcome := EntryFailed;
        break;
      }
      var botText := FindLatestBotText(w.messages);
      ghost var before := transcript;
      ghost var lines := ["Agent: " + tpl, "Bot: " + botText];
      transcript := transcript + ["Agent: " + tpl, "Bot: " + botText];
      var candidate := ExtractSecret(botText, generate);
      assert p.reply(i) == botText && p.extract(botText) == candidate;
      if candidate.Some? && candidate.value != "" {
        var submitted, actions := SubmitAnswer(w.page, candidate.value);
        assert p.submit(i, candidate.value) == Submission(submitted, actions);
        found := true;
        outcome := Found(candidate.value, submitted, actions);
        break;
      }
      assert p.entered(i) && !Truthy(CandidateAt(p, i));
      ProbeFromQuiet(p, maxProbes, i);
      ghost var rest := ProbeFrom(p, maxProbes, i + 1);
      assert ProbeFrom(p, maxProbes, i) == LevelResult(lines + rest.transcript, rest.outcome);
      AppendAssoc(before, lines, rest.transcript);
      assert ProbeFrom(p, maxProbes, 0) == LevelResult(transcript + rest.transcript, rest.outcome);
      i := i + 1;
      assert rest == ProbeFrom(p, maxProbes, i);
    }
  }

  // ---------------------------------------------------------------------------
  // Level controller

  /** A transcript saved by `save_transcript(level, lines)`; the file name,
      which carries the clock time, is not modelled. */
  datatype Saved = Saved(level: nat, lines: seq<string>)

  /** `levels(l)` is what the probe loop does at level `l`. */
  function RunFrom(levels: nat -> LevelResult, maxLevels: int, level: nat): seq<Saved>
    decreases maxLevels - level
  {
    if level > maxLevels then []
    else
      var r := levels(level);
      [Saved(level, r.transcript)] + (if r.outcome.Found? then RunFrom(levels, maxLevels, level + 1) else [])
  }

  /** The list of saved transcripts `run_template_regex_loop` accumulates. */
  function RunSpec(world: World, generate: string -> string, maxProbes: int, maxLevels: int): seq<Saved> {
    RunFrom((l: nat) => ProbeSpec(world, generate, l, maxProbes), maxLevels, 1)
  }

  /** At most one transcript per level from `level` to `maxLevels`, at least
      one when any level is left, and the last level attempted either found
      nothing or was the last level allowed. */
  lemma {:induction false} RunFromBounds(levels: nat -> LevelResult, maxLevels: int, level: nat)
    ensures var t := RunFrom(levels, maxLevels, level);
      |t| <= Budget(maxLevels - level + 1) &&
      (level <= maxLevels ==> |t| >= 1) &&
      (|t| >= 1 ==> level + |t| - 1 == maxLevels || !levels(level + |t| - 1).outcome.Found?)
    decreases maxLevels - level
  {
    if level <= maxLevels && levels(level).outcome.Found? {
      RunFromBounds(levels, maxLevels, level + 1);
    }
  }

  /** The transcript at position `k` is level `level + k`'s. */
  lemma {:induction false} RunFromSaved(levels: nat -> LevelResult, maxLevels: int, level: nat)
    ensures forall k :: 0 <= k < |RunFrom(levels, maxLevels, level)| ==>
      RunFrom(levels, maxLevels, level)[k] == Saved(level + k, levels(level + k).transcript)
    decreases maxLevels - level
  {
    if level <= maxLevels && levels(level).outcome.Found? {
      RunFromSaved(levels, maxLevels, level + 1);
      var rest := RunFrom(levels, maxLevels, level + 1);
      var t := [Saved(level, levels(level).transcript)] + rest;
      assert RunFrom(levels, maxLevels, level) == t;
      forall k | 1 <= k < |t|
        ensures t[k] == Saved(level + k, levels(level + k).transcript)
      {
        var j := k - 1;
        assert t[k] == rest[j] == Saved(level + 1 + j, levels(level + 1 + j).transcript);
        assert level + 1 + j == level + k;
      }
    }
  }

  /** Every level attempted before the last one found a candidate. */
  lemma {:induction false} RunFromFoundBefore(levels: nat -> LevelResult, maxLevels: int, level: nat)
    ensures var t := RunFrom(levels, maxLevels, level);
      forall l :: level <= l < level + |t| - 1 ==> levels(l).outcome.Found?
    decreases maxLevels - level
  {
    if level <= maxLevels && levels(level).outcome.Found? {
      RunFromFoundBefore(levels, maxLevels, level + 1);
      assert |RunFrom(levels, maxLevels, level)| == |RunFrom(levels, maxLevels, level + 1)| + 1;
    }
  }

  /** Levels run 1, 2, ... and never beyond `maxLevels`; exactly one
      transcript is saved per attempted level, in level order; every level but
      the last one attempted found a candidate, and the last either did not or
      was level `maxLevels`. */
  lemma RunLevels(levels: nat -> LevelResult, maxLevels: int)
    ensures var t := RunFrom(levels, maxLevels, 1);
      |t| <= Budget(maxLevels) &&
      (maxLevels >= 1 ==> |t| >= 1) &&
      (forall l :: 1 <= l <= |t| ==> t[l - 1] == Saved(l, levels(l).transcript)) &&
      (forall l :: 1 <= l < |t| ==> levels(l).outcome.Found?) &&
      (|t| >= 1 ==> |t| == maxLevels || !levels(|t|).outcome.Found?)
  {
    var t := RunFrom(levels, maxLevels, 1);
    RunFromBounds(levels, maxLevels, 1);
    RunFromSaved(levels, maxLevels, 1);
    forall l | 1 <= l <= |t| ensures t[l - 1] == Saved(l, levels(l).transcript) {
      assert 1 + (l - 1) == l;
    }
    RunFromFoundBefore(levels, maxLevels, 1);
  }

  /** `run_template_regex_loop`, without the browser, the model and the files:
      the list of saved transcripts that the summary lists. */
  method Run(world: World, generate: string -> string, maxProbes: int, maxLevels: int)
    returns (transcripts: seq<Saved>)
    ensures transcripts == RunSpec(world, generate, maxProbes, maxLevels)
  {
    ghost var levels := (l: nat) => ProbeSpec(world, generate, l, maxProbes);
    var level: nat := 1;
    transcripts := [];
    while level <= maxLevels
      invariant 1 <= level
      invariant RunFrom(levels, maxLevels, 1) == transcripts + RunFrom(levels, maxLevels, level)
      decreases maxLevels - level
    {
      var transcript, found, outcome := ProbeLevel(world, generate, level, maxProbes);
      assert levels(level) == LevelResult(transcript, outcome);
      ghost var before := transcripts;
      transcripts := transcripts + [Saved(level, transcript)];
      if !found {
        break;
      }
      ghost var rest := RunFrom(levels, maxLevels, level + 1);
      assert RunFrom(levels, maxLevels, level) == [Saved(level, transcript)] + rest;
      AppendAssoc(before, [Saved(level, transcript)], rest);
      // the best-effort click on a "Next" or "Continue" button is not modelled
      level := level + 1;
      assert rest == RunFrom(levels, maxLevels, level);
    }
  }
}
