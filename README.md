# VoxMate core, modelled in Dafny

VoxMate is a browser extension that reads web pages aloud, translates them,
answers questions about them and takes spoken commands. Its logic lives in
two generations of scripts that are both shipped: the newer ones under
`src/` (content script, background service worker, overlay, popup, language
helper) and the older root `content.js` / `background.js`. This project
models the logic of both generations, with each difference between them
stated and proved:

- `matcher.dfy` (module `Matcher`): the local voice-command matcher
  `mapLocalCommand` with both scripts' phrase tables (the older one adds
  Hindi). Tables are ordered sequences, so the scan order is explicit. Also
  covers the spoken command lists (`getCommandsText`, and the older
  background's `showCommandOverlay`).
- `resolver.dfy` (module `Resolver`): the voice handler. It falls back to the
  background classifier only on a lone `unknown`, and `translateCommandText`
  turns every background reply, channel errors included, into one command.
  Then comes the command dispatch of each script.
- `reading.dfy` (module `Reading`): the page reader as a class over
  `reading`, `paused`, `currentNodeIndex` and the text segments. The async
  loop is split at its suspensions, and the speech engine's outcome
  (`onend` / `onerror`) is an input.
- `page_translation.dfy` (module `PageTranslation`): `translatePage`. The
  translated words are spread back over the text nodes that hold more than
  two words, with a running cursor, in place over an array of node values.
- `translation.dfy` (module `Translation`): the background's
  `detectLanguage`, `translateText` with its one-entry translator cache and
  availability gate, and the `translate_auto` reply.
- `broker.dfy` (module `Broker`): `waitUntilReady` polling (the clock is a
  poll counter), the reply of `translate_with_gemini`, the
  `handleCheckGemini` decision table, and `runSummarizer` with its
  white-space clean-up.
- `overlay.dfy` (module `Overlay`): `VoxMateOverlay`'s fields, the timer
  queue and the page, plus `getIcon` and `formatContent`.
- `popup.dfy` (module `Popup`): message lookup, locale loading with its
  English fallback, language precedence, the busy state of a button, the
  question guard and tab focus.
- `language.dfy` (module `Language`): `getLanguageFullName`.
- `text.dfy` (module `Text`) and `wrappers.dfy` (module `Wrappers`): the
  JavaScript string operations the scripts use (`trim`, ASCII
  `toLowerCase`, `split(/\s+/)`, `join`, `replace(/\s+/g, " ")`), and
  `Option`.

The browser's AI services are oracles whose answers are inputs: the
language model, translator, language detector and summarizer. The same
holds for `chrome.storage`, the active tab, `executeScript`, locale files
and the speech engine. Timers become a queue of pending callbacks, any of
which may run next.

The code and the extension's description disagree in one place, and the
model follows the code. The English table lists "stop reading" and "end
reading" as stop phrases, but the earlier `read` entry matches them first
(the " read" test), so both start reading. See
`Matcher.StopReadingStartsReading`.

## Model

| member | source | states |
|---|---|---|
| Matcher.Lookup | src/content/content.js:324 | An object-literal lookup finds nothing exactly when no entry has the key; otherwise it finds an entry with that key. |
| Matcher.LookupFinds | src/content/content.js:324-325 | The entry found is the first one under its key. |
| Matcher.SomePhraseMatchesIff | src/content/content.js:328-336 | `phrases.some(phraseMatches)` holds exactly when some phrase of the list passes the boundary-ish test. |
| Matcher.FirstMatch | src/content/content.js:335-346 | The table scan returns the first entry with a matching phrase; no earlier entry matches; nothing is returned exactly when no entry matches. |
| Matcher.PrefixLen | src/content/content.js:369 | The length cut off is at most the utterance's; a non-zero cut is the length of a listed prefix the utterance starts with. |
| Matcher.EmptyIsNeitherQuestionNorAsk | src/content/content.js:362-371 | The empty utterance is neither a question nor carries an ask marker. |
| Matcher.Fallback | src/content/content.js:361-374 | With no table hit: `ask` exactly for a question or an ask marker, always with a non-empty question; otherwise `unknown` with no question; `raw` is kept. |
| Matcher.TableFor | src/content/content.js:324 | The table picked for a language is well formed when the table set is. |
| Matcher.TableHit | src/content/content.js:334-359 | No command comes from the tables exactly when neither the user-language table nor the English table matches; a hit is a table command. |
| Matcher.MapLocalCommand | src/content/content.js:283-375 | Always exactly one command, whose `raw` is the trimmed input; a question appears only on `ask` and is non-empty. |
| Matcher.AnswersInVocabulary | src/content/content.js:335-374 | With well-formed tables the answer is a table command, `ask` or `unknown`. |
| Matcher.PrimaryTableDecides | src/content/content.js:335-346 | The user-language table is consulted first: its first matching entry decides. |
| Matcher.EnglishTableDecides | src/content/content.js:348-359 | With no hit in the user-language table, the English table's first matching entry decides. |
| Matcher.UnknownExactly | src/content/content.js:361-374 | `unknown` exactly when no phrase matches, the input is not a question and has no ask marker. |
| Matcher.AskExactly | src/content/content.js:361-371 | `ask` exactly when no phrase matches and the input is a question or has an ask marker; the question is non-empty. |
| Matcher.NothingMatchesSilence | src/content/content.js:328-332 | No non-empty phrase matches the empty utterance. |
| Matcher.SilenceIsUnknown | src/content/content.js:284-285 | A null or blank transcript gives `[{unknown, raw: ""}]`. |
| Matcher.UnlistedLanguageIsEnglish | src/content/content.js:324-325 | A language without a table is matched exactly as English. |
| Matcher.OwnPhraseResolvesNoLater | src/content/content.js:335-346 | Saying a table phrase exactly resolves to its own entry or an earlier one, never a later one. |
| Matcher.SameTablesSameAnswer | src/content/content.js:324-325 | Table sets that select the same two tables give the same answers. |
| Matcher.LegacyTablesAgreeOutsideHindi | content.js:263-304 | Outside Hindi, the older tables select the same tables as the newer ones. |
| Matcher.LegacyAgreesOutsideHindi | content.js:258-358 | The older matcher answers every language but Hindi exactly as the newer one. |
| Matcher.SrcMatchesHindiAsEnglish | src/content/content.js:288-325 | The newer script has no Hindi table, so Hindi speakers are matched as English. |
| Matcher.NormalByChars | src/content/content.js:329 | A non-empty phrase with no capitals and no edge white space is in normal form. |
| Matcher.EnglishWellFormed | src/content/content.js:289-296 | The English table's phrases are normal and its commands are table commands. |
| Matcher.HindiWellFormed | content.js:272-279 | The same for the older script's Hindi table. |
| Matcher.ChineseWellFormed | src/content/content.js:297-304 | The same for the Chinese table. |
| Matcher.SpanishWellFormed | src/content/content.js:305-312 | The same for the Spanish table. |
| Matcher.FrenchWellFormed | src/content/content.js:313-320 | The same for the French table. |
| Matcher.TablesWellFormed | src/content/content.js:288-321 | Both scripts' table sets are well formed. |
| Matcher.ReadEntryMatches | src/content/content.js:290 | Any utterance containing " read" hits the English `read` entry, the first in the table. |
| Matcher.StopReadingStartsReading | src/content/content.js:290-292 | "stop reading" and "end reading" resolve to `read`, in both scripts, for English and every language without a table. |
| Matcher.LongerPhraseMisses | src/content/content.js:331 | A phrase longer than the utterance never matches it. |
| Matcher.SameLengthPhraseMisses | src/content/content.js:331 | A phrase as long as the utterance matches only when equal to it. |
| Matcher.StopIsNoReadPhrase | src/content/content.js:290 | "stop" matches no `read` phrase. |
| Matcher.StopIsNoPausePhrase | src/content/content.js:291 | "stop" matches no `pause` phrase. |
| Matcher.StopIsNormal | src/content/content.js:284-285 | "stop" is its own trimmed, lower-cased form. |
| Matcher.StopMatchesStopEntry | src/content/content.js:289-292 | "stop" first matches the English `stop` entry. |
| Matcher.StopIsUnderstoodInUnlistedLanguages | src/content/content.js:348-359 | English is always consulted, so "stop" stops in a language without a table. |
| Matcher.LegacyHindiTableFirst | content.js:307-330 | In the older script, a Hindi hit decides before English is tried. |
| Matcher.CommandsTextFor | src/content/content.js:445 | `translations[lang] \|\| translations.en`: the listed language's list, else the English one. |
| Matcher.EnglishTextAdvertises | src/content/content.js:408-417 | Each English list line quotes a phrase the table files under that same command. |
| Matcher.ChineseTextAdvertises | src/content/content.js:418-421 | The same for Chinese. |
| Matcher.SpanishTextAdvertises | src/content/content.js:422-431 | The same for Spanish. |
| Matcher.FrenchTextAdvertises | src/content/content.js:432-441 | The same for French. |
| Matcher.HindiTextAdvertises | content.js:405-414 | The same for the older script's Hindi list. |
| Matcher.SrcListsMatchTables | src/content/content.js:406-446 | For every listed language, the newer command list quotes phrases its own matcher table files under those commands. |
| Matcher.LegacyListsMatchTables | content.js:389-438 | The same for the older script, Hindi included. |
| Matcher.SrcUnlistedGetsEnglishList | src/content/content.js:445 | Any language the newer script does not list, Hindi among them, gets the English list. |
| Matcher.LegacyUnlistedGetsEnglishList | content.js:438 | The older content script shows its English list for any unlisted language. |
| Matcher.OverlayUnlistedGetsEnglishList | background.js:147-192 | The older background overlay has no French list, so French gets English, with five commands. |
| Resolver.TranslateCommandText | src/content/content.js:591-625 | Never fails and always gives one named command: the classifier's command only on a successful reply carrying one, else `unknown` with the text as `raw`. |
| Resolver.Resolve | src/content/content.js:476-505 | The handler always executes exactly one command, with a non-empty name for well-formed tables. |
| Resolver.LocalMatchIsFinal | src/content/content.js:489 | A local match other than `unknown` is executed whatever the classifier would say. |
| Resolver.FailedFallbackIsUnknown | src/content/content.js:489-505 | A classifier failure of any kind leads to a lone `unknown` for the trimmed transcript. |
| Resolver.SilenceGoesToClassifier | src/content/content.js:477-492 | A blank transcript is resolved by the classifier alone. |
| Resolver.Dispatch | src/content/content.js:511-560 | Unrecognised commands and `unknown` are ignored; `ask` is asked; `summarise` summarises only in the newer script. |
| Resolver.Execute | src/content/content.js:508 | One action per command at the command's own position; exactly the unrecognised commands (and `unknown`) become no-ops. |
| Resolver.ExecuteAppend | src/content/content.js:508 | Dispatch is per command: executing a concatenation gives the first list's actions followed by the second's. |
| Resolver.ResolvedRunsOneAction | src/content/content.js:489-508 | Every transcript ends in exactly one action, the dispatch of the single resolved command. |
| Resolver.FailedFallbackIsIgnored | content.js:482-537 | A failed classifier fallback ends in a single ignored command. |
| Resolver.DispatchAsk | src/content/content.js:544-556 | `ask` is dispatched as a question about `question \|\| raw`. |
| Resolver.LocalAskCarriesQuestion | src/content/content.js:485-550 | A locally matched question is asked with its non-empty question text. |
| Reading.Exit | src/content/content.js:147-151 | After the loop the reader goes idle at index 0 unless paused, when it keeps its flags and index. |
| Reading.Advance | src/content/content.js:111-118 | The loop suspends on the first non-null segment from `i` onward (null entries are skipped), or exits. |
| Reading.AdvanceKeepsValid | src/content/content.js:111-151 | Running the loop keeps the reader's invariant. |
| Reading.StartKeepsValid | src/content/content.js:85-104 | `startReading` keeps the invariant. |
| Reading.PauseStopKeepValid | src/content/content.js:154-168 | Pause and stop keep the invariant. |
| Reading.StepKeepsValid | src/content/content.js:123-144 | Either utterance outcome keeps the invariant. |
| Reading.PauseAndStopWhenIdle | src/content/content.js:154-163 | Pausing twice equals pausing once; pause and stop do nothing on an idle reader. |
| Reading.PauseKeepsPlaceStopResets | src/content/content.js:154-168 | Pause keeps `reading` and the index; stop resets to idle at 0. |
| Reading.ResumeFromSavedIndex | src/content/content.js:87-92 | A resume re-collects nothing and restarts the loop at the saved index. |
| Reading.FreshStart | src/content/content.js:96-103 | An idle start reads the collected segments from 0; with nothing collected it stays idle. |
| Reading.StartWhileReadingIsNoop | src/content/content.js:85-104 | While reading and not paused, `startReading` does nothing. |
| Reading.StepMovesIndexOnlyOnEnd | src/content/content.js:124-136 | The index moves past the spoken segment only on `onend`; otherwise it stays, unless the reader went idle at 0. |
| Reading.StepExitResetsUnlessPaused | src/content/content.js:147-151 | Leaving the loop resets to idle unless it was left for a pause. |
| Reading.AdvanceReaches | src/content/content.js:111-114 | Over null entries the loop reaches, at the latest, the next non-null segment. |
| Reading.ResumeReplaysOnlyAfterError | content.js:125-160 | After pause and resume the interrupted segment is heard again only if the cancellation came back as `onerror`. |
| Reading.ReadingEngine.ContinueReading | src/content/content.js:106-152 | The loop method leaves the reader in `Advance`'s state. |
| Reading.ReadingEngine.StartReading | src/content/content.js:85-104 | The method leaves the reader in `StartSpec`'s state. |
| Reading.ReadingEngine.PauseReading | src/content/content.js:154-159 | The method leaves the reader in `PauseSpec`'s state. |
| Reading.ReadingEngine.StopReading | src/content/content.js:161-168 | The method leaves the reader in `StopSpec`'s state. |
| Reading.ReadingEngine.Step | src/content/content.js:123-145 | An utterance outcome leaves the reader in `StepSpec`'s state. |
| PageTranslation.WordCount | src/content/content.js:243 | The word count of a node is at least 1, as `trim().split(/\s+/)` always has a piece. |
| PageTranslation.WordCountIsSplitLength | src/content/content.js:243 | The word count is the length of `trim().split(/\s+/)`. |
| PageTranslation.Slice | src/content/content.js:245-247 | `slice(from, to)` is the in-range part: `xs[from..to]` when in range, empty past the end, never longer than the list. |
| PageTranslation.CountsByAt | src/content/content.js:243 | Entry `k` of the counts is node `k`'s word count. |
| PageTranslation.Taken | src/content/content.js:244-247 | A short node takes no words; a long node takes at most its word count. |
| PageTranslation.Placed | src/content/content.js:241-250 | Rewriting keeps the number of nodes. |
| PageTranslation.WordsHandedOutInOrder | src/content/content.js:241-250 | Node `k` receives exactly the translated words from the cursor before it to the cursor after it, clamped to the translation. With the cursor starting at 0 and never moving back, the words go out in order, none twice and none skipped. |
| PageTranslation.CursorMonotone | src/content/content.js:248 | The cursor never moves back. |
| PageTranslation.RewrittenNodeGetsItsWords | content.js:213-217 | A node with more than two words gets the next word-count words, joined by spaces. |
| PageTranslation.RewrittenNodeWhenWordsRunOut | content.js:213-217 | When the translation runs out, the node gets what remains, or the empty string. |
| PageTranslation.ShortNodeKept | src/content/content.js:244 | A node of at most two words is left unchanged. |
| PageTranslation.NoLongNodeNoChange | src/content/content.js:244 | With no long node, the page is unchanged. |
| PageTranslation.Redistribute | src/content/content.js:238-250 | The walker loop leaves the node values equal to the redistribution of the translation's words. |
| PageTranslation.VisitNode | src/content/content.js:242-249 | One iteration rewrites only its node and advances the cursor by its word count when the node is long. |
| PageTranslation.FailureMessage | src/content/content.js:222-226 | The failure text carries the error, or "Unknown error" in the newer script; the older one interpolates the raw error. |
| PageTranslation.TranslatePage | src/content/content.js:218-264 | The page changes only on a successful reply with a result, and then to the redistribution; on failure it shows the failure text. |
| Translation.DetectLanguage | src/background/background.js:22-36 | The first detected language, or `en`; the older script throws when the detector yields nothing. |
| Translation.TranslateSpec | src/background/background.js:38-94 | A translator is created only after the availability check; the cache changes only to a newly created translator for the target. |
| Translation.SameLanguageShortCircuit | src/background/background.js:48-51 | Text already in the target language comes back unchanged, with no check, no creation and the same cache. |
| Translation.LegacyChecksEvenSameLanguage | background.js:41-49 | The older script runs the availability gate even for the same language. |
| Translation.CopiesAgreeOnDifferentLanguages | background.js:35-78 | Apart from the short cut, both scripts compute the same step. |
| Translation.CacheReusedIffSamePair | src/background/background.js:64-84 | The cached translator is reused exactly when source and target both match; a new one is tagged with both. |
| Translation.GateBeforeCache | src/background/background.js:59-61 | An unusable availability fails before the cache is touched. |
| Translation.FailedCreateKeepsCache | src/background/background.js:73-88 | A failing `Translator.create` keeps the cache and asks the user to retry. |
| Translation.TargetFor | src/background/background.js:106 | The target is `request.targetLang \|\| userLanguage`. |
| Translation.Reply | src/background/background.js:108-116 | Exactly one reply: `{success: true, result}` or `{success: false, error}`. |
| Translation.LegacyVoicePathAlwaysFails | background.js:92-101 | The older voice path calls an undefined function and always fails. |
| Translation.TranslatorService.TranslateText | src/background/background.js:38-94 | The method's result and new cache are those of `TranslateSpec`. |
| Translation.TranslatorService.TranslateAuto | src/background/background.js:103-121 | The handler's reply and cache are `AutoSpec`'s; success goes with a result. |
| Broker.PolledReadyIff | src/background/background.js:188-196 | The polls report ready exactly when some poll in the window answers a ready value. |
| Broker.WaitUntilReady | src/background/background.js:188-196 | Returns ready as soon as availability is ready; otherwise returns not ready after 20 polls of 500 ms within 10000 ms. |
| Broker.PolledReadyUpTo | src/background/background.js:190-194 | A ready poll stays ready in every longer window. |
| Broker.ReadySetsDiffer | background.js:328-336 | The older wait accepts only `available` and `readily`; `after-download` is the only difference. |
| Broker.InputLanguages | src/background/background.js:201-206 | English, plus the user language only for es or ja; the older script always adds it. |
| Broker.InjectedReply | src/background/background.js:181-272 | A missing model API is reported; a model that never got ready gives each script's own not-ready reason; success holds exactly when the API is there, the model got ready and the prompt answered, and it always carries a result. |
| Broker.ClassifierMessage | src/background/background.js:166-293 | Success holds exactly when there is a tab, the injection ran, the model API exists, a poll saw it ready and the prompt answered. In the newer script: no tab gives "No active tab found", an empty frame result gives "No valid result returned", a rejected injection gives its message or "Unknown error", and a success carries the parsed answer or `unknown` with the model's words. The older script's success carries a plain-text result. |
| Broker.UnparsableAnswerBecomesUnknown | src/background/background.js:262-272 | Non-JSON model output becomes a successful `unknown` carrying the model's words, which the content script executes. |
| Broker.LegacyClassifierNeverCommands | background.js:312-387 | The older classifier answers in plain text, so the content script always falls back to `unknown`. |
| Broker.NotReadyIsReported | src/background/background.js:198-199 | A model never ready in the window gives the "not ready" reason of each script. |
| Broker.CheckGemini | src/background/background.js:414-481 | Success exactly when the script runs, both APIs are present, availability is `readily` or `after-download` and a session can be created; success reports `readily`. |
| Broker.CheckFailuresExplain | src/background/background.js:433-481 | Every failure has one of the table's reasons and keeps the availability it read. |
| Broker.AvailableIsNotReadily | src/background/background.js:476-480 | `available` is "not readily available" for the check. |
| Broker.CleanText | src/background/background.js:533 | The summarised text is exactly the words of the page text (the non-empty pieces of `split(/\s+/)`) joined by single spaces; so it is single-spaced, has no edge space and keeps every non-space character. |
| Broker.TrimKeepsSingleSpacing | src/background/background.js:533 | Trimming keeps single spacing and the non-space characters. |
| Broker.RunSummarizer | src/background/background.js:503-539 | Fails when the API is absent or `unavailable`; otherwise summarises the cleaned text. |
| Broker.SummarizerReply | src/background/background.js:371-385 | The reply carries the summary, or the fixed apology on any failure. |
| Broker.SpacingDoesNotMatter | src/background/background.js:533 | Page texts with the same words, however they are spaced, get the same reply. |
| Overlay.RemoveOverlaySpec | src/content/overlay.js:373-392 | Removal clears the timer and the loading id, keeps the element shown until the deferred removal runs, and keeps the invariant. |
| Overlay.CreateOverlaySpec | src/content/overlay.js:13-48 | A new element is shown and attached after removal; the invariant is kept. |
| Overlay.ShowSpec | src/content/overlay.js:263-325 | After any `show` the loading id is null; a timer is set exactly for auto-hiding non-loading overlays; the invariant is kept. |
| Overlay.RemoveLoadingSpec | src/content/overlay.js:394-398 | `removeLoading` removes only when its id equals the stored one. |
| Overlay.EscapeSpec | src/content/overlay.js:255-261 | Escape acts only when an overlay is shown. |
| Overlay.FireSpec | src/content/overlay.js:319-321 | A deferred removal detaches whatever is shown when it runs; the invariant is kept. |
| Overlay.RemoveLoadingNeverFires | src/content/overlay.js:274-278 | After any `show`, `removeLoading` with a non-null id does nothing. |
| Overlay.LoadingSpinnerSurvivesItsRemoval | src/content/overlay.js:394-409 | `showLoading(id)` then `removeLoading(id)` leaves the spinner shown. |
| Overlay.LoadingAndErrorNeverAutoHide | src/content/overlay.js:401-421 | Loading and error overlays set no auto-hide timer. |
| Overlay.TimedOverlayAutoHides | src/content/overlay.js:318-322 | Timed overlays queue exactly one auto-hide timer with their duration. |
| Overlay.DeferredRemovalHitsNewOverlay | src/content/overlay.js:385-390 | Replacing an overlay queues a removal that detaches the new element and leaves the old one attached. |
| Overlay.IconFor | src/content/overlay.js:327-346 | A known type gets its own icon; any other gets the info icon. |
| Overlay.Unescape | src/content/overlay.js:361 | Text without backslashes is unchanged. |
| Overlay.Lines | src/content/overlay.js:367 | `split('\n')` gives at least one piece, none containing a line break. |
| Overlay.LinesJoin | src/content/overlay.js:367 | Joining the lines again gives the text back. |
| Overlay.Kept | src/content/overlay.js:367-368 | The kept lines are non-empty, trimmed and no more than the input lines; which lines survive, and in what order, is stated by `KeptAppend` and `KeptOne`. |
| Overlay.KeptAppend | src/content/overlay.js:367-368 | Filtering blank lines distributes over concatenation: each line is kept or dropped on its own, in order. |
| Overlay.KeptOne | src/content/overlay.js:367-368 | A single line is kept, trimmed, exactly when it is not blank. |
| Overlay.Paragraphs | src/content/overlay.js:357-368 | Every paragraph is non-empty, trimmed and a single line. |
| Overlay.LinesAppend | src/content/overlay.js:367 | `split('\n')` of two texts joined by a line break gives the first's lines, then the second's. |
| Overlay.UnescapeSeparators | src/content/overlay.js:361 | In backslash-free text, a line break stays one and the two characters `\n` become one. |
| Overlay.ParagraphsAppend | src/content/overlay.js:357-368 | Backslash-free texts joined by a line break or by `\n` give the first's paragraphs, then the second's. |
| Overlay.FormatByLine | src/content/overlay.js:357-368 | `formatContent` works line by line: joined texts give the first's markup followed by the second's; with `SingleLineFormatting`, one `<p>` per non-blank line, trimmed, in order. |
| Overlay.SingleLineFormatting | src/content/overlay.js:357-371 | One non-blank line gives one `<p>` of its trimmed text; a blank one gives nothing. |
| Overlay.VoxMateOverlay.RemoveOverlay | src/content/overlay.js:373-392 | The method's new state is `RemoveOverlaySpec`'s. |
| Overlay.VoxMateOverlay.CreateOverlay | src/content/overlay.js:13-48 | The method's new state is `CreateOverlaySpec`'s. |
| Overlay.VoxMateOverlay.ArmAutoHide | src/content/overlay.js:318-322 | The new timer's number becomes the stored timeout, its auto-hide callback with the duration is queued after the earlier ones, and nothing else changes. |
| Overlay.VoxMateOverlay.Show | src/content/overlay.js:263-325 | The method's new state is `ShowSpec`'s; the body is the formatted content. |
| Overlay.VoxMateOverlay.RemoveLoading | src/content/overlay.js:394-398 | The method's new state is `RemoveLoadingSpec`'s. |
| Overlay.VoxMateOverlay.Escape | src/content/overlay.js:255-261 | The method's new state is `EscapeSpec`'s. |
| Overlay.VoxMateOverlay.Fire | src/content/overlay.js:385-390 | The method's new state is `FireSpec`'s. |
| Popup.GetMessage | src/popup/popup.js:78-80 | The stored message, else a non-empty default, else the key; never empty for a non-empty key. |
| Popup.LocaleMessageWins | src/popup/popup.js:79 | Corollary of `GetMessage`: a message present in the locale wins over any default. |
| Popup.LoadResult | src/popup/popup.js:59-72 | The requested locale, else English, else nothing. |
| Popup.Attempts | src/popup/popup.js:69 | At most two fetches; two only when a non-English locale fails. |
| Popup.PrimarySubtag | src/popup/popup.js:312 | `split("-")[0]` is the prefix before the first hyphen. |
| Popup.PreferredLanguage | src/popup/popup.js:311-312 | Saved selection, then saved user language, then browser language, then `en`; never empty. |
| Popup.BrowserRegionIgnored | src/popup/popup.js:312 | With nothing saved, `fr-FR` style tags give their language. |
| Popup.SetLoadingSpec | src/popup/popup.js:530-542 | Busy saves the HTML; idle restores the saved HTML when it is non-empty. |
| Popup.LoadingRoundTrip | src/popup/popup.js:530-542 | Busy then idle restores the button's HTML and removes `loading`. |
| Popup.EmptyHtmlNotRestored | src/popup/popup.js:538 | Empty saved HTML is not restored. |
| Popup.Button.SetLoading | src/popup/popup.js:530-542 | The method's new state is `SetLoadingSpec`'s. |
| Popup.TabStep | src/popup/popup.js:347-361 | Focus moves only when the focus test sees the first element (with Shift) or the last (without), and then to the other end; calling `focus()` on a missing element throws exactly when there are no focusable elements and the test sees `undefined`. |
| Popup.TabNavigation | src/popup/popup.js:347-361 | As written the test reads `activeElement` of the `#popupRoot` element, which is `undefined`: focus never moves when there are focusable elements, and the handler throws when there are none. |
| Popup.KeyboardShortcuts | src/popup/popup.js:329-345 | Ctrl+Shift+V toggles voice and is the only key whose default is prevented; Escape closes; focus is never moved; Tab without Shift throws exactly when nothing is focusable. |
| Popup.TabNeverMovesFocus | src/popup/popup.js:341-361 | Neither Tab nor Shift+Tab moves focus, prevents the default, toggles voice or closes. |
| Popup.DocumentTabNavigation | src/popup/popup.js:347-361 | Reading the document's focused element instead, focus wraps exactly from the last element (Tab) or the first (Shift+Tab), and nothing throws. |
| Popup.DocumentTabWraps | src/popup/popup.js:347-361 | With the document's focus, Tab on the last element goes to the first and Shift+Tab on the first goes to the last. |
| Popup.TabOnLastDoesNotWrap | src/popup/popup.js:355-361 | Tab on the last element would wrap with the document's focus, but leaves focus alone as written. |
| Popup.VoxMatePopup.LoadMessages | src/popup/popup.js:59-72 | The method returns `LoadResult` after `Attempts` fetches, and only a load changes the messages. |
| Popup.VoxMatePopup.HandleLanguageChange | src/popup/popup.js:173-195 | When messages load and storage accepts the write, the locale is saved as both settings with a success toast. A failed write shows the error toast and saves nothing. When nothing loads, the loading toast stays. |
| Popup.VoxMatePopup.LoadSavedSettings | src/popup/popup.js:304-327 | The language picked by precedence is selected and loaded; when storage cannot be read, English is loaded and the selection is kept. |
| Popup.VoxMatePopup.SendQuestion | src/popup/popup.js:473-507 | A blank question sends nothing and asks for one; otherwise the button turns busy and the trimmed question is sent exactly when a tab exists; a rejected tab query restores the button and shows "Error sending question". |
| Popup.ChosenLanguageReopens | src/popup/popup.js:186-312 | A successful language change (even through the English fallback) stores the locale as both settings, and the next `loadSavedSettings` selects and loads that locale. |
| Language.FullName | src/utils/language.js:1-18 | Always a non-empty name from the table: a listed code's name, otherwise "English". |
| Language.NamesIdentifyCodes | src/utils/language.js:2-16 | Corollary of the table: different listed codes get different names. |
| Text.Trim | src/content/content.js:284 | `trim` leaves no white space at either end. |
| Text.TrimIsSlice | src/content/content.js:284 | `trim` only cuts white space from the two ends. |
| Text.SplitOfTrimCountsWords | src/content/content.js:243 | `trim().split(/\s+/)` has one piece per run of non-space characters, or one empty piece. |
| Text.CollapseWsNormalizes | src/background/background.js:533 | `replace(/\s+/g, " ")` is single-spaced and keeps every non-space character. |
| Text.CollapseWsJoinsWords | src/background/background.js:533 | `replace(/\s+/g, " ")` turns each white-space run into exactly one space: the words joined by single spaces, with one space in front or behind exactly when the text starts or ends with white space. |
| Text.CollapseThenTrim | src/background/background.js:533 | Collapsing then trimming gives exactly the words joined by single spaces. |

## Findings

| source | as written | input that shows it | evidently intended | confidence | as-written member | corrected member |
|---|---|---|---|---|---|---|
| src/popup/popup.js:355-361 | The focus test reads `this.root.activeElement`, but `this.root` is the `#popupRoot` element (src/popup/popup.js:4, 557-558), which has no `activeElement`, so the test sees `undefined`. | Tab while the last of three focusable elements has focus: focus is not wrapped and the default is not prevented; with no focusable element, Tab throws a TypeError from `firstElement.focus()`. | Read the document's focused element, so focus wraps from the last element to the first (and with Shift from the first to the last), as the comment "Ensure focus stays within popup" says. | medium, not executed | Popup.TabOnLastDoesNotWrap | Popup.DocumentTabNavigation |

The keyboard handler `Popup.KeyboardShortcuts` models the code as written, and `Popup.DocumentTabWraps` proves the wrap of the corrected navigation.

## Left out

- DOM work is not modelled: the tree walker, `highlightNode`, visibility tests, overlay HTML and CSS, and popup text updates (`updateUIText`). A text node is a string; `None` stands for a null entry of `textNodes`, which the loop's guards skip but the tree walker never collects. A node that has left the page is still spoken: `highlightNode` returns a detached node unchanged, so the `!span` guard does not skip it.
- Speech synthesis and recognition are outcomes given as input (`onend`, `onerror`). Recognition restarts and voice toggling are UI glue.
- The `chrome.*` APIs become inputs: messaging, storage, tabs, `executeScript` in the page world, and the `return true` keep-alive of asynchronous listeners. The older classifier listener is itself `async`, so its keep-alive is not modelled either.
- The AI services are oracles: prompts, sessions, download monitors and the answers of the language model, translator, detector and summarizer.
- Only a single reading loop is modelled. A resume that starts a second loop while the first still awaits its utterance is a race between two loops.
- `ask_with_gemini` is not modelled. It reads an undefined `request` and uses variables the injected function never receives.
- The `checkGemini` / `prompt` messages are not modelled, because no background listener handles them.
- `formatContent`'s bold, italic and code substitutions are not modelled; only the line and paragraph split is.
- Case folding is ASCII-only. Objects are plain finite maps, so prototype keys such as `constructor` are not looked up.
- The root `popup.js` and `options.js` are not part of this model.
- Broker.WaitUntilReady: each poll is taken to last exactly one interval. The real loop measures wall-clock time, so a slow `availability` call gets fewer polls.
- Broker.ClassifierMessage: exceptions thrown inside the older script's injected function (a failing `create` or a failing `prompt`) are not modelled. The older script has no inner `catch` around `prompt`, so the model's `Prompt failed` reply for it stands in for whatever `executeScript` then delivers.
- Broker.ClassifierMessage: a throwing `LM.create` in the newer script's injected function is not modelled. That call sits outside the inner `try`, so in the source the injected function rejects, and the listener then answers according to how `executeScript` reports that rejection: "No valid result returned" for an empty frame result, or the caught error's message. The model has `create` always succeed, so its reply follows the prompt's outcome instead.
- Broker.InjectedReply: a failing `prompt` in the older script is given the newer script's reply (the error message or "Prompt failed"), although the older injected function has no inner `catch`.
- Overlay.FireSpec: any queued callback may run next. The real timers run in order of their delays, so the model allows more orders than occur.
- Popup: the delayed restores of `setLoading(false)` after 1500 ms, the toast timers, `saveLanguage` (never called), `animateClose`, and the Enter key in the question box are not modelled.
- Translation.TranslateSpec: the older script never stores the pair on a newly created translator. The model gives the created handle its languages, which is what the cache comparison expects.
