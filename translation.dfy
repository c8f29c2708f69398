/**
  The background's page translation: `detectLanguage`, `translateText` with
  its single cached translator, and the `translate_auto` message handler, in
  both background scripts. The browser's detector and translator are
  oracles: what they answer for one request is an `Env` value, so the model
  is a function of that answer and of the cache.
 */
module Translation {
  import opened Wrappers

  /** Which background script runs. */
  datatype Copy = Src | Legacy

  /** A value or the message of the error that was thrown. */
  datatype Outcome<T> = Ok(value: T) | Fail(error: string)

  /** A translator object, carrying the pair it was created for. */
  datatype Handle = Handle(sourceLanguage: string, targetLanguage: string)

  /**
    What the browser answers during one `translateText` call. `detected` is
    `detector.detect(text)` (None when it yields nothing), one
    `detectedLanguage` per result, "" where a result has none;
    `detectorError` is set when creating or running the detector throws;
    `availability` is `Translator.availability(...)` for the pair;
    `createSucceeds` says whether `Translator.create` resolves;
    `translation` is what `translate(text)` gives.
   */
  datatype Env = Env(
    translatorPresent: bool,
    detectorPresent: bool,
    detectorError: Option<string>,
    detected: Option<seq<string>>,
    availability: Outcome<string>,
    createSucceeds: bool,
    translation: Outcome<string>)

  const ApisMissing := "Translation APIs not supported in this browser."
  const RetryMessage := "Model not available or download failed. Please retry."
  /** What reading `[0]` of `undefined` throws. */
  const ReadOfUndefined := "Cannot read properties of undefined (reading '0')"

  /**
    `detectLanguage` once the detector has answered: the first result's
    language, or `en` when there is none. The newer script guards the read
    with `results?.[0]`; the older one reads `results[0]` and throws when
    the detector yields nothing.
   */
  function DetectLanguage(copy: Copy, detected: Option<seq<string>>): (r: Outcome<string>)
    ensures r.Ok? ==> r.value != ""
    ensures r.Fail? <==> copy.Legacy? && detected.None?
    ensures detected.Some? && |detected.value| > 0 && detected.value[0] != "" ==> r == Ok(detected.value[0])
    ensures copy.Src? && (detected.None? || |detected.value| == 0 || detected.value[0] == "") ==> r == Ok("en")
  {
    match detected
    case None => if copy.Src? then Ok("en") else Fail(ReadOfUndefined)
    case Some(results) => if |results| > 0 && results[0] != "" then Ok(results[0]) else Ok("en")
  }

  /** The availability gate: only `available` and `downloadable` go on. */
  predicate Usable(availability: string) {
    availability == "available" || availability == "downloadable"
  }

  function UnavailableMessage(source: string, target: string): string {
    "Model unavailable for " + source + " → " + target + "."
  }

  /** The cached translator is reused exactly when it was created for this pair. */
  predicate Reusable(cache: Option<Handle>, source: string, target: string) {
    cache.Some? && cache.value.sourceLanguage == source && cache.value.targetLanguage == target
  }

  /**
    What one `translateText` call produces: its result, the cache it leaves,
    whether it called `Translator.availability` and whether it called
    `Translator.create`.
   */
  datatype Step = Step(result: Outcome<string>, cache: Option<Handle>, checked: bool, created: bool)

  /**
    `translateText(text, target)` (src/background/background.js:38-94,
    background.js:35-78). The newer script returns the text unchanged when
    it is already in the target language; the older one always goes on to
    the gate.
   */
  function TranslateSpec(copy: Copy, cache: Option<Handle>, text: string, target: string, env: Env): (s: Step)
    ensures s.created ==> s.checked
    ensures s.cache != cache ==> s.created && s.cache.Some? && s.cache.value.targetLanguage == target
    ensures s.result.Ok? && s.checked ==> s.cache.Some? && s.cache.value.targetLanguage == target
  {
    if !env.translatorPresent || !env.detectorPresent then Step(Fail(ApisMissing), cache, false, false)
    else if env.detectorError.Some? then Step(Fail(env.detectorError.value), cache, false, false)
    else
      match DetectLanguage(copy, env.detected)
      case Fail(e) => Step(Fail(e), cache, false, false)
      case Ok(source) =>
        if copy.Src? && source == target then Step(Ok(text), cache, false, false)
        else
          match env.availability
          case Fail(e) => Step(Fail(e), cache, true, false)
          case Ok(a) =>
            if !Usable(a) then Step(Fail(UnavailableMessage(source, target)), cache, true, false)
            else if Reusable(cache, source, target) then Step(env.translation, cache, true, false)
            else if !env.createSucceeds then Step(Fail(RetryMessage), cache, true, true)
            else Step(env.translation, Some(Handle(source, target)), true, true)
  }

  /** The language `detectLanguage` settles on, when it settles on one. */
  function SourceOf(copy: Copy, env: Env): Option<string> {
    if env.translatorPresent && env.detectorPresent && env.detectorError.None? && DetectLanguage(copy, env.detected).Ok?
    then Some(DetectLanguage(copy, env.detected).value)
    else None
  }

  /**
    Newer script: text already in the target language comes back unchanged,
    with no availability check, no translator created and the cache as it was.
   */
  lemma SameLanguageShortCircuit(cache: Option<Handle>, text: string, target: string, env: Env)
    requires SourceOf(Src, env) == Some(target)
    ensures TranslateSpec(Src, cache, text, target, env) == Step(Ok(text), cache, false, false)
  {
  }

  /** Older script: the same language still goes through the availability gate. */
  lemma LegacyChecksEvenSameLanguage(cache: Option<Handle>, text: string, target: string, env: Env)
    requires SourceOf(Legacy, env) == Some(target)
    ensures TranslateSpec(Legacy, cache, text, target, env).checked
    ensures env.availability == Ok("unavailable") ==> TranslateSpec(Legacy, cache, text, target, env).result.Fail?
  {
  }

  /** Apart from the short cut, both scripts compute the same thing. */
  lemma CopiesAgreeOnDifferentLanguages(cache: Option<Handle>, text: string, target: string, env: Env)
    requires SourceOf(Src, env).Some? && SourceOf(Src, env) != Some(target)
    requires env.detected.Some?
    ensures TranslateSpec(Src, cache, text, target, env) == TranslateSpec(Legacy, cache, text, target, env)
  {
  }

  /**
    Past the gate, the cached translator is reused if and only if it was
    made for the same pair; otherwise a new one is created, and on success
    the cache holds it, tagged with the pair.
   */
  lemma CacheReusedIffSamePair(copy: Copy, cache: Option<Handle>, text: string, target: string, env: Env)
    requires SourceOf(copy, env).Some?
    requires copy.Legacy? || SourceOf(copy, env) != Some(target)
    requires env.availability.Ok? && Usable(env.availability.value)
    ensures var s := TranslateSpec(copy, cache, text, target, env);
      (!s.created <==> Reusable(cache, SourceOf(copy, env).value, target))
      && (env.createSucceeds ==> s.cache == Some(Handle(SourceOf(copy, env).value, target)) && s.result == env.translation)
  {
  }

  /** A pair the browser cannot translate is refused before the cache is looked at: nothing is created and the cache stays. */
  lemma GateBeforeCache(copy: Copy, cache: Option<Handle>, text: string, target: string, env: Env)
    requires env.availability.Ok? && !Usable(env.availability.value)
    ensures var s := TranslateSpec(copy, cache, text, target, env);
      !s.created && s.cache == cache
      && (s.checked ==> s.result == Fail(UnavailableMessage(SourceOf(copy, env).value, target)))
  {
  }

  /** A failing `Translator.create` leaves the cache as it was and asks the user to retry. */
  lemma FailedCreateKeepsCache(copy: Copy, cache: Option<Handle>, text: string, target: string, env: Env)
    requires !env.createSucceeds
    ensures var s := TranslateSpec(copy, cache, text, target, env);
      s.cache == cache && (s.created ==> s.result == Fail(RetryMessage))
  {
  }

  /** The reply `translate_auto` sends: `{success, result}` or `{success, error}`. */
  datatype Response = Response(success: bool, result: Option<string>, error: Option<string>)

  /** `translate_auto`'s request. */
  datatype Request = Request(text: string, targetLang: string, isVoiceCommand: bool)

  /** What the older script's voice path throws: it calls a function the file never defines. */
  const UndefinedCommandTranslator := "translateCommandText is not defined"

  /** `request.targetLang || userLanguage`; an absent value is "". */
  function TargetFor(request: Request, userLanguage: string): (t: string)
    ensures request.targetLang != "" ==> t == request.targetLang
    ensures request.targetLang == "" ==> t == userLanguage
  {
    if request.targetLang != "" then request.targetLang else userLanguage
  }

  /** The one reply a settled `translateText` produces. */
  function Reply(result: Outcome<string>): (r: Response)
    ensures r.success <==> result.Ok?
    ensures r.success ==> r.result == Some(result.value) && r.error.None?
    ensures !r.success ==> r.error == Some(result.error) && r.result.None?
  {
    match result
    case Ok(v) => Response(true, Some(v), None)
    case Fail(e) => Response(false, None, Some(e))
  }

  /** The older script's voice requests always fail, whatever the translator would say. */
  lemma LegacyVoicePathAlwaysFails(t: TranslatorService, request: Request, userLanguage: string, env: Env)
    requires request.isVoiceCommand
    ensures t.AutoSpec(Legacy, request, userLanguage, env)
            == (Response(false, None, Some(UndefinedCommandTranslator)), t.cache)
  {
  }

  /** The background's translator state: the one cached translator. */
  class TranslatorService {
    var cache: Option<Handle>

    constructor ()
      ensures cache.None?
    {
      cache := None;
    }

    /** The reply to `translate_auto` and the cache after it (src/background/background.js:103-121, background.js:86-113). */
    function AutoSpec(copy: Copy, request: Request, userLanguage: string, env: Env): (Response, Option<Handle>)
      reads this
    {
      if copy.Legacy? && request.isVoiceCommand then (Reply(Fail(UndefinedCommandTranslator)), cache)
      else
        var s := TranslateSpec(copy, cache, request.text, TargetFor(request, userLanguage), env);
        (Reply(s.result), s.cache)
    }

    /** `translateText`: the cache is replaced only by a newly created translator. */
    method TranslateText(copy: Copy, text: string, target: string, env: Env) returns (result: Outcome<string>)
      modifies this
      ensures var s := TranslateSpec(copy, old(cache), text, target, env);
        result == s.result && cache == s.cache
    {
      if !env.translatorPresent || !env.detectorPresent {
        return Fail(ApisMissing);
      }
      if env.detectorError.Some? {
        return Fail(env.detectorError.value);
      }
      var detected := DetectLanguage(copy, env.detected);
      if detected.Fail? {
        return Fail(detected.error);
      }
      var source := detected.value;
      if copy.Src? && source == target {
        return Ok(text);
      }
      if env.availability.Fail? {
        return Fail(env.availability.error);
      }
      if !Usable(env.availability.value) {
        return Fail(UnavailableMessage(source, target));
      }
      if !Reusable(cache, source, target) {
        if !env.createSucceeds {
          return Fail(RetryMessage);
        }
        cache := Some(Handle(source, target));
      }
      return env.translation;
    }

    /** The `translate_auto` handler: exactly one reply. */
    method TranslateAuto(copy: Copy, request: Request, userLanguage: string, env: Env) returns (response: Response)
      modifies this
      ensures (response, cache) == old(AutoSpec(copy, request, userLanguage, env))
      ensures response.success <==> response.result.Some?
    {
      if copy.Legacy? && request.isVoiceCommand {
        return Reply(Fail(UndefinedCommandTranslator));
      }
      var result := TranslateText(copy, request.text, TargetFor(request, userLanguage), env);
      response := Reply(result);
    }
  }
}
