/**
  The background's AI broker, in both background scripts: the bounded wait
  for the language model (`waitUntilReady`), the reply `translate_with_gemini`
  sends to the content script, the `handleCheckGemini` decision table and
  `runSummarizer`. The tab lookup, script injection, language model and
  summarizer are oracles whose answers are inputs; the clock is a poll
  counter.
 */
module Broker {
  import opened Wrappers
  import opened Text
  import Matcher
  import Resolver

  /** Which background script runs. */
  datatype Copy = Src | Legacy

  /** A value or the message of the error that was thrown. */
  datatype Outcome<T> = Ok(value: T) | Fail(error: string)

  // ---------------------------------------------------------------------
  // waitUntilReady (src/background/background.js:188-196, background.js:328-336)
  // ---------------------------------------------------------------------

  const TimeoutMs: nat := 10000
  const IntervalMs: nat := 500
  /** How many times availability is asked before the window closes. */
  const MaxPolls: nat := 20

  /** The answers that end the wait: the older script does not accept `after-download`. */
  predicate Ready(copy: Copy, availability: string) {
    availability == "available" || availability == "readily" || (copy.Src? && availability == "after-download")
  }

  /** Some of the first `n` answers ends the wait. */
  function PolledReady(copy: Copy, answers: nat -> string, n: nat): bool {
    if n == 0 then false else PolledReady(copy, answers, n - 1) || Ready(copy, answers(n - 1))
  }

  lemma {:induction false} PolledReadyIff(copy: Copy, answers: nat -> string, n: nat)
    ensures PolledReady(copy, answers, n) <==> exists k :: 0 <= k < n && Ready(copy, answers(k))
  {
    if n > 0 {
      PolledReadyIff(copy, answers, n - 1);
    }
  }

  /**
    Poll availability every `IntervalMs` until it is ready or `TimeoutMs`
    have passed; `answers(k)` is what the `k`-th call says (a model without
    an `availability` method answers `readily`), and each poll is taken to
    last exactly one interval. `polls` is how many calls were made.
   */
  method WaitUntilReady(copy: Copy, answers: nat -> string) returns (ready: bool, polls: nat)
    ensures ready == PolledReady(copy, answers, MaxPolls)
    ensures ready <==> exists k :: 0 <= k < MaxPolls && Ready(copy, answers(k))
    ensures 1 <= polls <= MaxPolls
    ensures ready ==> Ready(copy, answers(polls - 1))
    ensures forall k :: 0 <= k < polls - 1 ==> !Ready(copy, answers(k))
    ensures !ready ==> polls == MaxPolls
  {
    var elapsed := 0;
    polls := 0;
    while elapsed < TimeoutMs
      invariant elapsed == polls * IntervalMs && polls <= MaxPolls
      invariant forall k :: 0 <= k < polls ==> !Ready(copy, answers(k))
      invariant !PolledReady(copy, answers, polls)
    {
      var availability := answers(polls);
      polls := polls + 1;
      if Ready(copy, availability) {
        PolledReadyUpTo(copy, answers, polls, MaxPolls);
        PolledReadyIff(copy, answers, MaxPolls);
        return true, polls;
      }
      elapsed := elapsed + IntervalMs;
    }
    PolledReadyIff(copy, answers, MaxPolls);
    return false, polls;
  }

  /** Once some poll is ready, every longer window is too. */
  lemma {:induction false} PolledReadyUpTo(copy: Copy, answers: nat -> string, m: nat, n: nat)
    requires m <= n && PolledReady(copy, answers, m)
    ensures PolledReady(copy, answers, n)
    decreases n - m
  {
    if m < n {
      PolledReadyUpTo(copy, answers, m, n - 1);
    }
  }

  /** Whatever the newer script's wait accepts on one poll, the older one accepts unless it is `after-download`. */
  lemma ReadySetsDiffer(a: string)
    ensures Ready(Legacy, a) ==> Ready(Src, a)
    ensures Ready(Src, a) && !Ready(Legacy, a) <==> a == "after-download"
  {
  }

  // ---------------------------------------------------------------------
  // translate_with_gemini (src/background/background.js:166-294, background.js:312-395)
  // ---------------------------------------------------------------------

  /**
    `expectedInputs` languages for the session: English, plus the user's
    language (as given) only when it is Spanish or Japanese in the newer
    script; always English and the user's language in the older one.
   */
  function InputLanguages(copy: Copy, userLanguage: string): (r: seq<string>)
    ensures 1 <= |r| <= 2 && r[0] == "en"
    ensures copy.Legacy? ==> r == ["en", userLanguage]
    ensures copy.Src? ==> (|r| == 2 <==> Lower(userLanguage) == "es" || Lower(userLanguage) == "ja")
    ensures |r| == 2 ==> r[1] == userLanguage
  {
    if copy.Legacy? then ["en", userLanguage]
    else if userLanguage != "" && Lower(userLanguage) != "en" && (Lower(userLanguage) == "es" || Lower(userLanguage) == "ja")
    then ["en", userLanguage]
    else ["en"]
  }

  /**
    What the browser does during one `translate_with_gemini` request.
    `injection` is how `executeScript` ends; `lmPresent` whether the page
    offers a language model; `answers` its availability answers;
    `prompt` what the session's `prompt` gives; `parsed` what `JSON.parse`
    makes of that text (None when it throws; `Unstructured` for JSON that
    carries no command).
   */
  datatype ClassifierEnv = ClassifierEnv(
    tabFound: bool,
    injection: Injection,
    lmPresent: bool,
    answers: nat -> string,
    prompt: Outcome<string>,
    parsed: Option<Resolver.ClassifierResult>)

  /** `executeScript` runs the function, rejects, or resolves without a result for the frame. */
  datatype Injection = Runs | Rejected(message: string) | NoFrameResult

  /**
    The object sent back: `success`, and `result`, `reason` and `error` where
    present ("" for an absent `reason`/`error`).
   */
  datatype Message = Message(success: bool, result: Option<Resolver.ClassifierResult>, reason: string, error: string)

  function Failure(reason: string, error: string): Message {
    Message(false, None, reason, error)
  }

  /** `x || fallback` on a string. */
  function OrElse(x: string, fallback: string): string {
    if x != "" then x else fallback
  }

  /** What the injected function returns, with `ready` the outcome of the wait. */
  function InjectedReply(copy: Copy, env: ClassifierEnv, ready: bool): (m: Message)
    ensures m.success ==> m.result.Some?
    ensures !env.lmPresent ==> m == Failure("Language Model API not available in this context", "")
    ensures env.lmPresent && !ready
            ==> m == Failure(if copy.Src? then "Model not ready" else "Language model not ready after waiting", "")
    ensures m.success <==> env.lmPresent && ready && env.prompt.Ok?
  {
    if !env.lmPresent then Failure("Language Model API not available in this context", "")
    else if !ready then Failure(if copy.Src? then "Model not ready" else "Language model not ready after waiting", "")
    else
      match env.prompt
      case Fail(e) => Failure("", OrElse(e, "Prompt failed"))
      case Ok(output) =>
        if copy.Legacy? then Message(true, Some(Resolver.Unstructured), "", "")
        else match env.parsed
          case None => Message(true, Some(Resolver.Structured(Matcher.Command("unknown", None, Some(output)))), "", "")
          case Some(r) => Message(true, Some(r), "", "")
  }

  /**
    The message `translate_with_gemini` sends back. A failure outside the
    injected function (no tab, a rejected injection, no frame result) is
    reported by the newer script with a reason or `error?.message ||
    "Unknown error"`; the older script does not look for the tab or the
    frame, so those surface as the errors of reading `tab.id` or
    `results[0]`.
   */
  function ClassifierMessage(copy: Copy, env: ClassifierEnv): (m: Message)
    ensures m.success <==> env.tabFound && env.injection.Runs? && env.lmPresent
                           && PolledReady(copy, env.answers, MaxPolls) && env.prompt.Ok?
    ensures copy.Src? && !env.tabFound ==> m == Failure("No active tab found", "")
    ensures copy.Src? && env.tabFound && env.injection.NoFrameResult? ==> m == Failure("No valid result returned", "")
    ensures copy.Src? && env.tabFound && env.injection.Rejected?
            ==> m == Failure("", OrElse(env.injection.message, "Unknown error"))
    ensures copy.Src? && m.success && env.parsed.Some? ==> m.result == env.parsed
    ensures copy.Src? && m.success && env.parsed.None?
            ==> m.result == Some(Resolver.Structured(Matcher.Command("unknown", None, Some(env.prompt.value))))
    ensures copy.Legacy? && m.success ==> m.result == Some(Resolver.Unstructured)
  {
    if !env.tabFound then
      (if copy.Src? then Failure("No active tab found", "") else Failure("", "Cannot read properties of undefined (reading 'id')"))
    else
      match env.injection
      case Rejected(msg) => Failure("", if copy.Src? then OrElse(msg, "Unknown error") else msg)
      case NoFrameResult =>
        (if copy.Src? then Failure("No valid result returned", "") else Failure("", "Cannot read properties of undefined (reading 'result')"))
      case Runs => InjectedReply(copy, env, PolledReady(copy, env.answers, MaxPolls))
  }

  /** How the content script's callback sees the message: `response.success` and `response.result`. */
  function AsChannel(m: Message): Resolver.Channel {
    Resolver.Delivered(Some(Resolver.Reply(m.success, if m.result.Some? then m.result.value else Resolver.Unstructured)))
  }

  /**
    Newer script: a model answer that is not JSON still comes back as a
    success, as `unknown` carrying the model's own words; the voice handler
    then executes that `unknown`, not the user's transcript.
   */
  lemma UnparsableAnswerBecomesUnknown(env: ClassifierEnv, text: string)
    requires env.tabFound && env.injection.Runs? && env.lmPresent
    requires PolledReady(Src, env.answers, MaxPolls) && env.prompt.Ok? && env.parsed.None?
    ensures ClassifierMessage(Src, env).success
    ensures Resolver.TranslateCommandText(text, AsChannel(ClassifierMessage(Src, env)))
            == [Matcher.Command("unknown", None, Some(env.prompt.value))]
  {
  }

  /**
    Older script: the classifier answers in plain text, so the content
    script never receives a command from it and always falls back to
    `unknown` for the transcript.
   */
  lemma LegacyClassifierNeverCommands(env: ClassifierEnv, text: string)
    ensures Resolver.TranslateCommandText(text, AsChannel(ClassifierMessage(Legacy, env))) == Resolver.UnknownFor(text)
  {
  }

  /** A model that never becomes ready within the window is reported as such, with no result. */
  lemma NotReadyIsReported(copy: Copy, env: ClassifierEnv)
    requires env.tabFound && env.injection.Runs? && env.lmPresent
    requires forall k :: 0 <= k < MaxPolls ==> !Ready(copy, env.answers(k))
    ensures ClassifierMessage(copy, env)
            == Failure(if copy.Src? then "Model not ready" else "Language model not ready after waiting", "")
  {
    PolledReadyIff(copy, env.answers, MaxPolls);
  }

  // ---------------------------------------------------------------------
  // handleCheckGemini (src/background/background.js:395-498, background.js:203-290)
  // ---------------------------------------------------------------------

  /** What the page offers when the check runs. */
  datatype GeminiEnv = GeminiEnv(
    scriptError: Option<string>,
    aiPresent: bool,
    languageModelPresent: bool,
    availability: Outcome<string>,
    createSucceeds: bool)

  /** The check's answer: `success`, `reason` ("" when absent) and `availability` ("" when absent). */
  datatype CheckResult = CheckResult(success: bool, reason: string, availability: string)

  /** The decision table of the injected check; both background scripts use the same one. */
  function CheckGemini(env: GeminiEnv): (r: CheckResult)
    ensures r.success <==> env.scriptError.None? && env.aiPresent && env.languageModelPresent
                           && env.availability.Ok? && env.createSucceeds
                           && (env.availability.value == "after-download" || env.availability.value == "readily")
    ensures r.success ==> r.availability == "readily" && r.reason == ""
  {
    if env.scriptError.Some? then CheckResult(false, "script execution failed", "")
    else if !env.aiPresent then CheckResult(false, "window.ai not available", "")
    else if !env.languageModelPresent then CheckResult(false, "window.ai.languageModel not available", "")
    else
      match env.availability
      case Fail(_) => CheckResult(false, "availability check failed", "")
      case Ok(a) =>
        if a == "after-download" then
          (if env.createSucceeds then CheckResult(true, "", "readily") else CheckResult(false, "downloading", "after-download"))
        else if a == "readily" then
          (if env.createSucceeds then CheckResult(true, "", a) else CheckResult(false, "session creation failed", a))
        else CheckResult(false, "not readily available", a)
  }

  /** Every failure names its reason, and the availability it saw whenever one was read. */
  lemma CheckFailuresExplain(env: GeminiEnv)
    ensures var r := CheckGemini(env);
      !r.success ==> r.reason in {"script execution failed", "window.ai not available",
                                  "window.ai.languageModel not available", "availability check failed",
                                  "downloading", "session creation failed", "not readily available"}
    ensures var r := CheckGemini(env);
      r.reason in {"downloading", "session creation failed", "not readily available"}
      ==> env.availability.Ok? && (r.availability == env.availability.value)
  {
  }

  /** `available` is not enough for the check: only `readily` and `after-download` lead to a session. */
  lemma AvailableIsNotReadily(env: GeminiEnv)
    requires env.scriptError.None? && env.aiPresent && env.languageModelPresent
    requires env.availability == Ok("available")
    ensures CheckGemini(env) == CheckResult(false, "not readily available", "available")
  {
  }

  // ---------------------------------------------------------------------
  // runSummarizer (src/background/background.js:503-539) and run_summarizer (370-384)
  // ---------------------------------------------------------------------

  /**
    The text handed to `summarize`: white-space runs collapsed to one space,
    then trimmed. That is exactly the words of the text, joined by single
    spaces.
   */
  function CleanText(text: string): (r: string)
    ensures r == Join(Words(text), " ")
    ensures SingleSpaced(r)
    ensures NonSpace(r) == NonSpace(text)
    ensures |r| > 0 ==> r[0] != ' ' && r[|r| - 1] != ' '
  {
    var collapsed := CollapseWs(text);
    CollapseWsNormalizes(text);
    TrimKeepsSingleSpacing(collapsed);
    CollapseThenTrim(text);
    Trim(collapsed)
  }

  /** Trimming keeps single spacing and every non-space character. */
  lemma TrimKeepsSingleSpacing(s: string)
    ensures SingleSpaced(s) ==> SingleSpaced(Trim(s))
    ensures NonSpace(Trim(s)) == NonSpace(s)
  {
    var a := TrimIsSlice(s);
    var b := a + |Trim(s)|;
    if SingleSpaced(s) {
      SingleSpacedSlice(s, a, b);
    }
    NonSpaceOfPadded(s, a, b);
  }

  /** What the browser's summarizer does for one request. */
  datatype SummarizerEnv = SummarizerEnv(present: bool, availability: Outcome<string>, createError: Option<string>, summarize: string -> Outcome<string>)

  /** `runSummarizer(text, lang)`: refuses when the API is absent or `unavailable`, otherwise summarises the cleaned text. */
  function RunSummarizer(text: string, env: SummarizerEnv): (r: Outcome<string>)
    ensures !env.present ==> r == Fail("Summarizer API not supported in this browser.")
    ensures env.present && env.availability == Ok("unavailable") ==> r == Fail("Summarizer API unavailable or model not downloaded yet.")
    ensures env.present && env.availability.Ok? && env.availability.value != "unavailable" && env.createError.None?
            ==> r == env.summarize(CleanText(text))
  {
    if !env.present then Fail("Summarizer API not supported in this browser.")
    else match env.availability
      case Fail(e) => Fail(e)
      case Ok(a) =>
        if a == "unavailable" then Fail("Summarizer API unavailable or model not downloaded yet.")
        else if env.createError.Some? then Fail(env.createError.value)
        else env.summarize(CleanText(text))
  }

  /** The `run_summarizer` reply: the summary, or a fixed apology whatever went wrong. */
  datatype SummaryReply = SummaryReply(success: bool, summary: string)

  const SummaryApology := "Summarizer unavailable or failed. Please try again later."

  function SummarizerReply(text: string, env: SummarizerEnv): (r: SummaryReply)
    ensures r.success <==> RunSummarizer(text, env).Ok?
    ensures r.success ==> r.summary == RunSummarizer(text, env).value
    ensures !r.success ==> r.summary == SummaryApology
  {
    match RunSummarizer(text, env)
    case Ok(s) => SummaryReply(true, s)
    case Fail(_) => SummaryReply(false, SummaryApology)
  }

  /** Page texts with the same words, however they are spaced, are summarised alike. */
  lemma SpacingDoesNotMatter(t1: string, t2: string, env: SummarizerEnv)
    requires Words(t1) == Words(t2)
    ensures SummarizerReply(t1, env) == SummarizerReply(t2, env)
  {
    assert CleanText(t1) == Join(Words(t1), " ");
  }
}
