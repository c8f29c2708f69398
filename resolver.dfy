/**
  What the voice handler (`recognition.onresult`) does with a transcript:
  match it locally, fall back to the background classifier only on a lone
  `unknown` (through `translateCommandText`), and dispatch each resulting
  command. The background reply arrives as an input value.
 */
module Resolver {
  import opened Wrappers
  import opened Text
  import Matcher

  /** What the classifier put in `response.result`: a command object, or anything else (a plain string, nothing). */
  datatype ClassifierResult = Structured(cmd: Matcher.Command) | Unstructured

  /** The background's reply object; `success` is its truthiness. */
  datatype Reply = Reply(success: bool, result: ClassifierResult)

  /** How the `sendMessage` callback ends: with `chrome.runtime.lastError` set, or with a (possibly missing) reply. */
  datatype Channel = LastError | Delivered(reply: Option<Reply>)

  /** `result?.command` is truthy: a structured result with a non-empty command. */
  predicate HasCommand(r: ClassifierResult) {
    r.Structured? && r.cmd.command != ""
  }

  /** The command list the scripts fall back to: `[{command: "unknown", raw: text}]`. */
  function UnknownFor(text: string): seq<Matcher.Command> {
    [Matcher.Command("unknown", None, Some(text))]
  }

  /**
    `translateCommandText(text, lang)` once the callback has run (identical in
    both content scripts). It never rejects and always resolves to one command
    with a non-empty name: the classifier's command only on a successful reply
    carrying one, `unknown` with the text as `raw` otherwise.
   */
  function TranslateCommandText(text: string, channel: Channel): (r: seq<Matcher.Command>)
    ensures |r| == 1 && r[0].command != ""
    ensures (channel.Delivered? && channel.reply.Some? && channel.reply.value.success && HasCommand(channel.reply.value.result))
            ==> r == [channel.reply.value.result.cmd]
    ensures !(channel.Delivered? && channel.reply.Some? && channel.reply.value.success && HasCommand(channel.reply.value.result))
            ==> r == UnknownFor(text)
  {
    match channel
    case LastError => UnknownFor(text)
    case Delivered(None) => UnknownFor(text)
    case Delivered(Some(reply)) =>
      if !reply.success then UnknownFor(text)
      else if HasCommand(reply.result) then [reply.result.cmd]
      else UnknownFor(text)
  }

  /** The handler asks the classifier only when the local result is exactly one `unknown`. */
  predicate NeedsFallback(local: seq<Matcher.Command>) {
    |local| == 1 && local[0].command == "unknown"
  }

  /**
    The commands the handler executes for a transcript: the local match, or,
    on a lone `unknown`, the classifier's answer. `lang` is
    `userLanguage || "en"`; `channel` is how the classifier request ended.
   */
  function Resolve(tables: Matcher.TableSet, transcript: string, lang: string, channel: Channel): (r: seq<Matcher.Command>)
    ensures |r| == 1
    ensures Matcher.WellFormed(tables) ==> r[0].command != ""
  {
    var rawCommand := Trim(transcript);
    var local := Matcher.MapLocalCommand(tables, Some(rawCommand), lang);
    Matcher.AnswersInVocabulary(tables, Some(rawCommand), lang);
    if NeedsFallback(local) then TranslateCommandText(rawCommand, channel) else local
  }

  /** A local match other than `unknown` is executed as is: the classifier's reply plays no part. */
  lemma LocalMatchIsFinal(tables: Matcher.TableSet, transcript: string, lang: string, c1: Channel, c2: Channel)
    requires Matcher.MapLocalCommand(tables, Some(Trim(transcript)), lang)[0].command != "unknown"
    ensures Resolve(tables, transcript, lang, c1) == Resolve(tables, transcript, lang, c2)
            == Matcher.MapLocalCommand(tables, Some(transcript), lang)
  {
    TrimIdempotent(transcript);
  }

  /** When the classifier is consulted and fails in any way, the handler executes a lone `unknown` for the trimmed transcript. */
  lemma FailedFallbackIsUnknown(tables: Matcher.TableSet, transcript: string, lang: string, channel: Channel)
    requires Matcher.MapLocalCommand(tables, Some(Trim(transcript)), lang)[0].command == "unknown"
    requires channel.LastError? || channel.reply.None? || !channel.reply.value.success || !HasCommand(channel.reply.value.result)
    ensures Resolve(tables, transcript, lang, channel) == UnknownFor(Trim(transcript))
  {
  }

  /** Silence never reaches the classifier's answer unchanged: it is resolved by the classifier alone. */
  lemma SilenceGoesToClassifier(tables: Matcher.TableSet, transcript: string, lang: string, channel: Channel)
    requires Matcher.WellFormed(tables)
    requires forall i :: 0 <= i < |transcript| ==> IsSpace(transcript[i])
    ensures Resolve(tables, transcript, lang, channel) == TranslateCommandText("", channel)
  {
    TrimOfBlank(transcript);
    Matcher.SilenceIsUnknown(tables, Some(""), lang);
  }

  // ---------------------------------------------------------------------
  // Dispatch (src/content/content.js:508-561, content.js:501-538)
  // ---------------------------------------------------------------------

  /** What executing one command does. */
  datatype Action =
    | StartReading
    | PauseReading
    | StopReading
    | TranslatePage
    | ShowCommands(text: Matcher.CommandsText)
    | SummarisePage
    | AskQuestion(question: Option<string>)
    | LogOnly
    | Ignore

  /** Which content script dispatches. */
  datatype Copy = Src | Legacy

  /** `question || raw`: the question when non-empty, else `raw`. */
  function AskedText(c: Matcher.Command): Option<string> {
    if c.question.Some? && c.question.value != "" then c.question else c.raw
  }

  /**
    The `switch (command)` of the handler. The newer script summarises the page
    and shows the command list for the stored `userLanguage` (an absent setting
    is ""); the older one only logs `summarise` and shows the list for
    `userLanguage || "en"`. Anything unrecognised is ignored.
   */
  function Dispatch(copy: Copy, c: Matcher.Command, userLanguage: string): (a: Action)
    ensures a.Ignore? <==> !(Matcher.IsTableCommand(c.command) || c.command == "ask")
    ensures a.AskQuestion? <==> c.command == "ask"
    ensures c.command == "summarise" ==> (a.SummarisePage? <==> copy.Src?)
  {
    match c.command
    case "read" => StartReading
    case "pause" => PauseReading
    case "stop" => StopReading
    case "translate" => TranslatePage
    case "show commands" =>
      if copy.Src? then ShowCommands(Matcher.CommandsTextFor(Matcher.SrcTexts, userLanguage))
      else ShowCommands(Matcher.CommandsTextFor(Matcher.LegacyTexts, if userLanguage == "" then "en" else userLanguage))
    case "summarise" => if copy.Src? then SummarisePage else LogOnly
    case "ask" => AskQuestion(AskedText(c))
    case _ => Ignore
  }

  /**
    `commandObjects.forEach(...)`: the commands are dispatched one after the
    other, so the actions are those of the first command, then the rest's.
   */
  function Execute(copy: Copy, cs: seq<Matcher.Command>, userLanguage: string): (r: seq<Action>)
    ensures |r| == |cs|
    ensures forall i :: 0 <= i < |cs| ==> r[i] == Dispatch(copy, cs[i], userLanguage)
    ensures forall i :: 0 <= i < |cs| ==> (r[i].Ignore? <==> !(Matcher.IsTableCommand(cs[i].command) || cs[i].command == "ask"))
  {
    if cs == [] then [] else [Dispatch(copy, cs[0], userLanguage)] + Execute(copy, cs[1..], userLanguage)
  }

  /** Executing two command lists back to back is executing their concatenation: no command sees another. */
  lemma {:induction false} ExecuteAppend(copy: Copy, cs1: seq<Matcher.Command>, cs2: seq<Matcher.Command>, userLanguage: string)
    ensures Execute(copy, cs1 + cs2, userLanguage) == Execute(copy, cs1, userLanguage) + Execute(copy, cs2, userLanguage)
    decreases |cs1|
  {
    if cs1 == [] {
      assert cs1 + cs2 == cs2;
    } else {
      var d := Dispatch(copy, cs1[0], userLanguage);
      assert (cs1 + cs2)[0] == cs1[0] && (cs1 + cs2)[1..] == cs1[1..] + cs2;
      ExecuteAppend(copy, cs1[1..], cs2, userLanguage);
      ExecuteCons(copy, cs1 + cs2, userLanguage);
      ExecuteCons(copy, cs1, userLanguage);
      ActionsRegroup([d], Execute(copy, cs1[1..], userLanguage), Execute(copy, cs2, userLanguage));
    }
  }

  /** One step of `forEach`: the first command's action, then the rest's. */
  lemma ExecuteCons(copy: Copy, cs: seq<Matcher.Command>, userLanguage: string)
    requires cs != []
    ensures Execute(copy, cs, userLanguage) == [Dispatch(copy, cs[0], userLanguage)] + Execute(copy, cs[1..], userLanguage)
  {
  }

  lemma ActionsRegroup(p: seq<Action>, q: seq<Action>, r: seq<Action>)
    ensures p + (q + r) == p + q + r
  {
  }

  /**
    Every transcript leads to exactly one action: the dispatch of the one
    command the handler resolved, locally or through the classifier.
   */
  lemma ResolvedRunsOneAction(copy: Copy, tables: Matcher.TableSet, transcript: string, lang: string, channel: Channel, userLanguage: string)
    ensures var r := Resolve(tables, transcript, lang, channel);
      Execute(copy, r, userLanguage) == [Dispatch(copy, r[0], userLanguage)]
  {
    ExecuteOne(copy, Resolve(tables, transcript, lang, channel), userLanguage);
  }

  /** A single command gives a single action. */
  lemma ExecuteOne(copy: Copy, cs: seq<Matcher.Command>, userLanguage: string)
    requires |cs| == 1
    ensures Execute(copy, cs, userLanguage) == [Dispatch(copy, cs[0], userLanguage)]
  {
    assert Execute(copy, cs[1..], userLanguage) == [];
  }

  /** A failed classifier fallback does nothing visible: the lone `unknown` is ignored. */
  lemma FailedFallbackIsIgnored(copy: Copy, tables: Matcher.TableSet, transcript: string, lang: string, channel: Channel, userLanguage: string)
    requires Matcher.MapLocalCommand(tables, Some(Trim(transcript)), lang)[0].command == "unknown"
    requires channel.LastError? || channel.reply.None? || !channel.reply.value.success || !HasCommand(channel.reply.value.result)
    ensures Execute(copy, Resolve(tables, transcript, lang, channel), userLanguage) == [Ignore]
  {
    FailedFallbackIsUnknown(tables, transcript, lang, channel);
    UnknownIsIgnored(copy, Trim(transcript), userLanguage);
  }

  /** The fallback's lone `unknown` dispatches to nothing. */
  lemma UnknownIsIgnored(copy: Copy, text: string, userLanguage: string)
    ensures Execute(copy, UnknownFor(text), userLanguage) == [Ignore]
  {
    ExecuteOne(copy, UnknownFor(text), userLanguage);
  }

  /** An `ask` command is dispatched as a question about `question || raw`. */
  lemma DispatchAsk(copy: Copy, c: Matcher.Command, userLanguage: string)
    requires c.command == "ask"
    ensures Dispatch(copy, c, userLanguage) == AskQuestion(AskedText(c))
  {
  }

  /** A locally matched question is asked with its non-empty question text, whatever the classifier would say. */
  lemma LocalAskCarriesQuestion(copy: Copy, tables: Matcher.TableSet, transcript: string, lang: string, channel: Channel, userLanguage: string)
    requires Matcher.WellFormed(tables)
    requires Matcher.MapLocalCommand(tables, Some(Trim(transcript)), lang)[0].command == "ask"
    ensures var r := Resolve(tables, transcript, lang, channel);
      Dispatch(copy, r[0], userLanguage) == AskQuestion(r[0].question) && r[0].question.Some? && |r[0].question.value| > 0
  {
    var t := Trim(transcript);
    var local := Matcher.MapLocalCommand(tables, Some(t), lang);
    Matcher.AskExactly(tables, Some(t), lang);
    var c := local[0];
    assert c.question.Some? && |c.question.value| > 0;
    assert Resolve(tables, transcript, lang, channel) == local;
    DispatchAsk(copy, c, userLanguage);
    assert AskedText(c) == c.question;
  }
}
