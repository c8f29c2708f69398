/**
  The local voice-command matcher (`mapLocalCommand`) and the spoken
  command lists (`getCommandsText`) of both content scripts. The two copies
  share one definition, parameterised by their tables: the newer script
  (src/content/content.js) knows English, Chinese, Spanish and French; the
  older one (content.js) adds Hindi.
 */
module Matcher {
  import opened Wrappers
  import opened Text

  /** A command object as the scripts pass it around: `{command, question?, raw?}`. */
  datatype Command = Command(command: string, question: Option<string>, raw: Option<string>)

  /** One language's phrase map, in the order its object literal lists the commands. */
  type PhraseTable = seq<(string, seq<string>)>

  /** All languages' phrase maps, keyed by language code. */
  type TableSet = seq<(string, PhraseTable)>

  /** `obj[key]` on an object literal: the entry under `key`, if any (keys of a literal are distinct). */
  function Lookup<T>(entries: seq<(string, T)>, key: string): (r: Option<T>)
    ensures r.None? <==> forall k :: 0 <= k < |entries| ==> entries[k].0 != key
    ensures r.Some? ==> exists k :: 0 <= k < |entries| && entries[k] == (key, r.value)
    decreases |entries|
  {
    if |entries| == 0 then None
    else if entries[0].0 == key then Some(entries[0].1)
    else Lookup(entries[1..], key)
  }

  /** The entry a lookup finds is the first one under its key. */
  lemma {:induction false} LookupFinds<T>(entries: seq<(string, T)>, k: nat, key: string)
    requires k < |entries| && entries[k].0 == key
    requires forall j :: 0 <= j < k ==> entries[j].0 != key
    ensures Lookup(entries, key) == Some(entries[k].1)
    decreases k
  {
    if k > 0 {
      LookupFinds(entries[1..], k - 1, key);
    }
  }

  // ---------------------------------------------------------------------
  // Phrase tables (src/content/content.js:288-321, content.js:263-304)
  // ---------------------------------------------------------------------

  const English: PhraseTable := [
    ("read", ["read", "start reading", "read page", "read this"]),
    ("pause", ["pause", "hold on", "wait"]),
    ("stop", ["stop", "cancel", "end reading", "stop reading"]),
    ("translate", ["translate", "translate page", "translate this"]),
    ("show commands", ["show commands", "commands", "help", "what can you say", "what can i say"]),
    ("summarise", ["summarise", "summarize", "summary", "summarize this", "summarise this"])
  ]

  /** The older script's Hindi table; its two "read" phrases differ in how the nukta letter is encoded. */
  const Hindi: PhraseTable := [
    ("read", ["\U{92a}\U{922}\U{93c}\U{94b}", "\U{92a}\U{95d}\U{94b}"]),
    ("pause", ["\U{930}\U{941}\U{915}\U{94b}", "\U{920}\U{939}\U{930}\U{94b}"]),
    ("stop", ["\U{92c}\U{902}\U{926} \U{915}\U{930}\U{94b}", "\U{930}\U{94b}\U{915} \U{926}\U{94b}"]),
    ("translate", ["\U{905}\U{928}\U{941}\U{935}\U{93e}\U{926}", "\U{905}\U{928}\U{941}\U{935}\U{93e}\U{926} \U{915}\U{930}\U{94b}",
                   "\U{905}\U{928}\U{941}\U{935}\U{93e}\U{926} \U{915}\U{930}\U{94b} \U{92a}\U{947}\U{91c}"]),
    ("show commands", ["\U{915}\U{92e}\U{93e}\U{902}\U{921} \U{926}\U{93f}\U{916}\U{93e}\U{913}", "\U{915}\U{92e}\U{93e}\U{902}\U{921}",
                       "\U{938}\U{939}\U{93e}\U{92f}\U{924}\U{93e}", "help"]),
    ("summarise", ["\U{938}\U{93e}\U{930}\U{93e}\U{902}\U{936}", "\U{938}\U{93e}\U{930}\U{93e}\U{902}\U{936} \U{92c}\U{928}\U{93e}\U{913}"])
  ]

  const Chinese: PhraseTable := [
    ("read", ["\U{8bfb}", "\U{6717}\U{8bfb}"]),
    ("pause", ["\U{6682}\U{505c}"]),
    ("stop", ["\U{505c}\U{6b62}"]),
    ("translate", ["\U{7ffb}\U{8bd1}"]),
    ("show commands", ["\U{663e}\U{793a}\U{547d}\U{4ee4}", "\U{547d}\U{4ee4}", "\U{5e2e}\U{52a9}"]),
    ("summarise", ["\U{603b}\U{7ed3}"])
  ]

  const Spanish: PhraseTable := [
    ("read", ["leer"]),
    ("pause", ["pausa"]),
    ("stop", ["detener"]),
    ("translate", ["traducir"]),
    ("show commands", ["comandos", "mostrar comandos", "ayuda"]),
    ("summarise", ["resumir"])
  ]

  const French: PhraseTable := [
    ("read", ["lire"]),
    ("pause", ["pause"]),
    ("stop", ["arr\U{ea}ter", "stop"]),
    ("translate", ["traduire"]),
    ("show commands", ["commandes", "afficher les commandes", "aide"]),
    ("summarise", ["r\U{e9}sumer"])
  ]

  /** The tables of src/content/content.js. */
  const SrcTables: TableSet := [("en", English), ("zh", Chinese), ("es", Spanish), ("fr", French)]

  /** The tables of the older content.js: Hindi sits between English and Chinese. */
  const LegacyTables: TableSet := [("en", English), ("hi", Hindi), ("zh", Chinese), ("es", Spanish), ("fr", French)]

  /** The command names a phrase table may map to. */
  predicate IsTableCommand(c: string) {
    c == "read" || c == "pause" || c == "stop" || c == "translate" || c == "show commands" || c == "summarise"
  }

  /** Every entry of `t` maps to a command of the table vocabulary. */
  predicate CommandsInVocabulary(t: PhraseTable) {
    forall k :: 0 <= k < |t| ==> IsTableCommand(t[k].0)
  }

  /** A phrase as the tables write it: non-empty, trimmed, lower case. */
  predicate NormalPhrase(p: string) {
    |p| > 0 && Trim(p) == p && Lower(p) == p
  }

  predicate PhrasesNormal(t: PhraseTable) {
    forall k, i :: 0 <= k < |t| && 0 <= i < |t[k].1| ==> NormalPhrase(t[k].1[i])
  }

  /** What the tables are in both scripts: phrases non-empty, trimmed and lower case; commands from the table vocabulary. */
  predicate WellFormedTable(t: PhraseTable) {
    CommandsInVocabulary(t) && PhrasesNormal(t)
  }

  predicate WellFormed(tables: TableSet) {
    forall k :: 0 <= k < |tables| ==> WellFormedTable(tables[k].1)
  }

  // ---------------------------------------------------------------------
  // Matching (src/content/content.js:283-375)
  // ---------------------------------------------------------------------

  /** The "word boundary-ish" test of one phrase against the lower-cased utterance. */
  predicate PhraseMatches(rawLC: string, phrase: string) {
    var p := Lower(phrase);
    Contains(rawLC, " " + p) || StartsWith(rawLC, p) || EndsWith(rawLC, p) || rawLC == p || Contains(rawLC, p + " ")
  }

  /** `phrases.some(phraseMatches)`, scanning left to right. */
  predicate SomePhraseMatches(rawLC: string, phrases: seq<string>)
    decreases |phrases|
  {
    |phrases| > 0 && (PhraseMatches(rawLC, phrases[0]) || SomePhraseMatches(rawLC, phrases[1..]))
  }

  /** The scan agrees with "some phrase of the list matches". */
  lemma {:induction false} SomePhraseMatchesIff(rawLC: string, phrases: seq<string>)
    ensures SomePhraseMatches(rawLC, phrases) <==> exists i :: 0 <= i < |phrases| && PhraseMatches(rawLC, phrases[i])
    decreases |phrases|
  {
    if |phrases| > 0 {
      SomePhraseMatchesIff(rawLC, phrases[1..]);
      if !PhraseMatches(rawLC, phrases[0]) && SomePhraseMatches(rawLC, phrases[1..]) {
        var i :| 0 <= i < |phrases[1..]| && PhraseMatches(rawLC, phrases[1..][i]);
        assert PhraseMatches(rawLC, phrases[i + 1]);
      }
      if exists i :: 0 <= i < |phrases| && PhraseMatches(rawLC, phrases[i]) {
        var i :| 0 <= i < |phrases| && PhraseMatches(rawLC, phrases[i]);
        if i > 0 { assert phrases[1..][i - 1] == phrases[i]; }
      }
    }
  }

  /**
    The `for (const [cmd, phrases] of Object.entries(map))` scan: the index of the
    first entry one of whose phrases matches.
   */
  function FirstMatch(table: PhraseTable, rawLC: string): (r: Option<nat>)
    ensures r.Some? ==> r.value < |table| && SomePhraseMatches(rawLC, table[r.value].1)
    ensures r.Some? ==> forall j :: 0 <= j < r.value ==> !SomePhraseMatches(rawLC, table[j].1)
    ensures r.None? <==> forall j :: 0 <= j < |table| ==> !SomePhraseMatches(rawLC, table[j].1)
    decreases |table|
  {
    if |table| == 0 then None
    else if SomePhraseMatches(rawLC, table[0].1) then Some(0)
    else match FirstMatch(table[1..], rawLC)
      case None => None
      case Some(k) => Some(k + 1)
  }

  const QuestionWords: seq<string> := ["what", "who", "how", "when", "why", "where", "which", "is", "are"]

  /** `w` starts `s` and is followed by `\b`: the end of `s` or a character outside `\w`. */
  predicate StartsWithWord(s: string, w: string) {
    StartsWith(s, w) && (|s| == |w| || !IsWordChar(s[|w|]))
  }

  predicate StartsWithAnyWord(s: string, words: seq<string>)
    decreases |words|
  {
    |words| > 0 && (StartsWithWord(s, words[0]) || StartsWithAnyWord(s, words[1..]))
  }

  /** `/^(what|who|how|when|why|where|which|is|are)\b/i.test(rawLC) || rawLC.endsWith("?")`. */
  predicate IsInterrogative(rawLC: string) {
    StartsWithAnyWord(rawLC, QuestionWords) || EndsWith(rawLC, "?")
  }

  /** The ask-intent markers, English first, then Hindi and Chinese equivalents. */
  const AskMarkers: seq<string> := [
    "ask", "tell me", "explain", "define",
    "\U{92c}\U{924}\U{93e}\U{913}", "\U{92c}\U{924}\U{93e}\U{907}\U{90f}",
    "\U{8bf7}\U{95ee}", "\U{8bf7}\U{544a}\U{8bc9}\U{6211}", "\U{92a}\U{941}\U{91b}\U{94b}"
  ]

  predicate ContainsAny(s: string, markers: seq<string>)
    decreases |markers|
  {
    |markers| > 0 && (Contains(s, markers[0]) || ContainsAny(s, markers[1..]))
  }

  /** The case-insensitive marker test, applied to the (ASCII) lower-cased utterance. */
  predicate HasAskMarker(rawLC: string) {
    ContainsAny(rawLC, AskMarkers)
  }

  /** The prefixes `raw.replace(/^(ask|tell me|explain|define)\s*\/i, "")` removes. */
  const AskPrefixes: seq<string> := ["ask", "tell me", "explain", "define"]

  /** Length of the first prefix in `prefixes` that `lc` starts with, or 0. */
  function PrefixLen(lc: string, prefixes: seq<string>): (n: nat)
    ensures n <= |lc|
    ensures n > 0 ==> exists k :: 0 <= k < |prefixes| && |prefixes[k]| == n && StartsWith(lc, prefixes[k])
    decreases |prefixes|
  {
    if |prefixes| == 0 then 0
    else if StartsWith(lc, prefixes[0]) then |prefixes[0]|
    else PrefixLen(lc, prefixes[1..])
  }

  /** The question left once a leading ask-prefix is cut off and the rest trimmed. */
  function StripAskPrefix(raw: string): string {
    Trim(raw[PrefixLen(Lower(raw), AskPrefixes)..])
  }

  /** `String(rawText || "").trim()`. */
  function RawOf(rawText: Option<string>): string {
    match rawText
    case None => ""
    case Some(s) => Trim(s)
  }

  /** Nothing in the fallback fires on the empty utterance: every question word and marker is non-empty. */
  lemma EmptyIsNeitherQuestionNorAsk()
    ensures !IsInterrogative("") && !HasAskMarker("")
  {
    assert !StartsWithAnyWord("", QuestionWords[8..]);
    assert !ContainsAny("", AskMarkers[8..]);
  }

  /**
    What the matcher answers once no table phrase matched: a question or an
    utterance with an ask marker becomes `ask` with a non-empty question,
    anything else `unknown`.
   */
  function Fallback(raw: string): (c: Command)
    ensures c.raw == Some(raw)
    ensures c.command == "ask" <==> IsInterrogative(Lower(raw)) || HasAskMarker(Lower(raw))
    ensures c.command == "ask" ==> c.question.Some? && |c.question.value| > 0
    ensures c.command != "ask" ==> c.command == "unknown" && c.question.None?
  {
    var rawLC := Lower(raw);
    if IsInterrogative(rawLC) || HasAskMarker(rawLC) then
      EmptyIsNeitherQuestionNorAsk();
      assert raw != [];
      if IsInterrogative(rawLC) then Command("ask", Some(raw), Some(raw))
      else
        var q := StripAskPrefix(raw);
        Command("ask", Some(if q == "" then raw else q), Some(raw))
    else Command("unknown", None, Some(raw))
  }

  /** The table a language code selects; a code with no table selects none. */
  function TableFor(tables: TableSet, lang: string): (t: PhraseTable)
    ensures WellFormed(tables) ==> WellFormedTable(t)
  {
    match Lookup(tables, lang) case Some(t) => t case None => []
  }

  /** No phrase of the user language's table nor of the English table matches the utterance. */
  predicate NoTableHit(tables: TableSet, rawLC: string, lang: string) {
    FirstMatch(TableFor(tables, lang), rawLC).None? && FirstMatch(TableFor(tables, "en"), rawLC).None?
  }

  /** The command of the first matching entry, the user language's table before the English one. */
  function TableHit(tables: TableSet, rawLC: string, lang: string): (r: Option<string>)
    ensures r.None? <==> NoTableHit(tables, rawLC, lang)
    ensures WellFormed(tables) && r.Some? ==> IsTableCommand(r.value)
  {
    var primary := TableFor(tables, lang);
    var english := TableFor(tables, "en");
    match FirstMatch(primary, rawLC)
    case Some(k) => Some(primary[k].0)
    case None =>
      match FirstMatch(english, rawLC)
      case Some(k) => Some(english[k].0)
      case None => None
  }

  /**
    `mapLocalCommand(rawText, userLang)`: the user language's table first, then
    the English table, then the question and ask-marker fallbacks, else `unknown`.
    One command always comes back, carrying the trimmed utterance as `raw`; an
    `ask` always carries a non-empty question.
   */
  function MapLocalCommand(tables: TableSet, rawText: Option<string>, userLang: string): (r: seq<Command>)
    ensures |r| == 1
    ensures r[0].raw == Some(RawOf(rawText))
    ensures r[0].question.Some? ==> r[0].command == "ask" && |r[0].question.value| > 0
  {
    var raw := RawOf(rawText);
    match TableHit(tables, Lower(raw), userLang)
    case Some(c) => [Command(c, None, Some(raw))]
    case None => [Fallback(raw)]
  }

  // ---------------------------------------------------------------------
  // Properties of the matcher
  // ---------------------------------------------------------------------

  /** With well-formed tables the matcher only ever answers a table command, `ask` or `unknown`. */
  lemma AnswersInVocabulary(tables: TableSet, rawText: Option<string>, lang: string)
    ensures var c := MapLocalCommand(tables, rawText, lang)[0].command;
      WellFormed(tables) ==> IsTableCommand(c) || c == "ask" || c == "unknown"
  {
  }

  /** The user language's table is consulted first: its first matching entry decides. */
  lemma PrimaryTableDecides(tables: TableSet, rawText: Option<string>, lang: string, k: nat)
    requires k < |TableFor(tables, lang)|
    requires SomePhraseMatches(Lower(RawOf(rawText)), TableFor(tables, lang)[k].1)
    requires forall j :: 0 <= j < k ==> !SomePhraseMatches(Lower(RawOf(rawText)), TableFor(tables, lang)[j].1)
    ensures MapLocalCommand(tables, rawText, lang) == [Command(TableFor(tables, lang)[k].0, None, Some(RawOf(rawText)))]
  {
    var r := FirstMatch(TableFor(tables, lang), Lower(RawOf(rawText)));
    assert r.Some?;
    assert r.value == k by {
      if r.value < k { } else if r.value > k { }
    }
  }

  /** With no hit in the user language's table, the English table's first matching entry decides. */
  lemma EnglishTableDecides(tables: TableSet, rawText: Option<string>, lang: string, k: nat)
    requires forall j :: 0 <= j < |TableFor(tables, lang)| ==> !SomePhraseMatches(Lower(RawOf(rawText)), TableFor(tables, lang)[j].1)
    requires k < |TableFor(tables, "en")|
    requires SomePhraseMatches(Lower(RawOf(rawText)), TableFor(tables, "en")[k].1)
    requires forall j :: 0 <= j < k ==> !SomePhraseMatches(Lower(RawOf(rawText)), TableFor(tables, "en")[j].1)
    ensures MapLocalCommand(tables, rawText, lang) == [Command(TableFor(tables, "en")[k].0, None, Some(RawOf(rawText)))]
  {
    var r := FirstMatch(TableFor(tables, "en"), Lower(RawOf(rawText)));
    assert r.Some?;
    assert r.value == k by {
      if r.value < k { } else if r.value > k { }
    }
  }

  /**
    The matcher answers `unknown` exactly when no table phrase matches, the
    utterance is not a question and it carries no ask marker.
   */
  lemma UnknownExactly(tables: TableSet, rawText: Option<string>, lang: string)
    requires WellFormed(tables)
    ensures var rawLC := Lower(RawOf(rawText));
      MapLocalCommand(tables, rawText, lang)[0].command == "unknown"
      <==> NoTableHit(tables, rawLC, lang) && !IsInterrogative(rawLC) && !HasAskMarker(rawLC)
  {
    var hit := TableHit(tables, Lower(RawOf(rawText)), lang);
    if hit.Some? {
      TableCommandIsNoFallback(hit.value);
    }
  }

  /**
    The matcher answers `ask` exactly when no table phrase matches and the
    utterance is a question or carries an ask marker; the question is then non-empty.
   */
  lemma AskExactly(tables: TableSet, rawText: Option<string>, lang: string)
    requires WellFormed(tables)
    ensures var rawLC := Lower(RawOf(rawText)); var r := MapLocalCommand(tables, rawText, lang)[0];
      (r.command == "ask" <==> NoTableHit(tables, rawLC, lang) && (IsInterrogative(rawLC) || HasAskMarker(rawLC)))
      && (r.command == "ask" ==> r.question.Some? && |r.question.value| > 0)
  {
    var hit := TableHit(tables, Lower(RawOf(rawText)), lang);
    if hit.Some? {
      TableCommandIsNoFallback(hit.value);
    }
  }

  /** A table command is never one of the fallback's answers. */
  lemma TableCommandIsNoFallback(c: string)
    requires IsTableCommand(c)
    ensures c != "ask" && c != "unknown"
  {
  }

  /** No non-empty phrase matches the empty utterance. */
  lemma {:induction false} NothingMatchesSilence(phrases: seq<string>)
    requires forall i :: 0 <= i < |phrases| ==> |phrases[i]| > 0
    ensures !SomePhraseMatches("", phrases)
    decreases |phrases|
  {
    if |phrases| > 0 {
      var p := Lower(phrases[0]);
      assert !Contains("", " " + p);
      assert !Contains("", p + " ");
      NothingMatchesSilence(phrases[1..]);
    }
  }

  /** Silence (no transcript, or only white space) is `unknown`, with an empty `raw`. */
  lemma SilenceIsUnknown(tables: TableSet, rawText: Option<string>, lang: string)
    requires WellFormed(tables)
    requires rawText.Some? ==> forall i :: 0 <= i < |rawText.value| ==> IsSpace(rawText.value[i])
    ensures MapLocalCommand(tables, rawText, lang) == [Command("unknown", None, Some(""))]
  {
    if rawText.Some? { TrimOfBlank(rawText.value); }
    assert Lower("") == "";
    EmptyIsNeitherQuestionNorAsk();
    forall t: PhraseTable, j | WellFormedTable(t) && 0 <= j < |t|
      ensures !SomePhraseMatches("", t[j].1)
    {
      NothingMatchesSilence(t[j].1);
    }
  }

  /** A language without a table of its own is matched exactly as English. */
  lemma UnlistedLanguageIsEnglish(tables: TableSet, rawText: Option<string>, lang: string)
    requires Lookup(tables, lang).None?
    ensures MapLocalCommand(tables, rawText, lang) == MapLocalCommand(tables, rawText, "en")
  {
    assert FirstMatch(TableFor(tables, lang), Lower(RawOf(rawText))).None?;
  }

  /**
    Saying a phrase of the user language's table exactly resolves to that
    phrase's entry or to an earlier one: entries are tried in order, so a
    phrase can be shadowed by an earlier entry but never resolve later.
   */
  lemma {:induction false} OwnPhraseResolvesNoLater(tables: TableSet, lang: string, k: nat, i: nat)
    requires WellFormed(tables)
    requires Lookup(tables, lang).Some?
    requires k < |TableFor(tables, lang)| && i < |TableFor(tables, lang)[k].1|
    ensures exists j :: (0 <= j <= k
      && MapLocalCommand(tables, Some(TableFor(tables, lang)[k].1[i]), lang)[0].command == TableFor(tables, lang)[j].0)
  {
    var t := TableFor(tables, lang);
    var p := t[k].1[i];
    assert Trim(p) == p && Lower(p) == p;
    assert RawOf(Some(p)) == p;
    assert PhraseMatches(p, p);
    SomePhraseMatchesIff(p, t[k].1);
    var r := FirstMatch(t, p);
    assert r.Some? && r.value <= k;
    assert MapLocalCommand(tables, Some(p), lang)[0].command == t[r.value].0;
  }

  /** Two table sets that select the same two tables for a language give the same answers. */
  lemma SameTablesSameAnswer(t1: TableSet, t2: TableSet, rawText: Option<string>, lang: string)
    requires TableFor(t1, lang) == TableFor(t2, lang) && TableFor(t1, "en") == TableFor(t2, "en")
    ensures MapLocalCommand(t1, rawText, lang) == MapLocalCommand(t2, rawText, lang)
  {
  }

  /** Outside Hindi, the older script's tables select the same tables as the newer one's. */
  lemma LegacyTablesAgreeOutsideHindi(lang: string)
    requires lang != "hi"
    ensures TableFor(LegacyTables, lang) == TableFor(SrcTables, lang)
    ensures TableFor(LegacyTables, "en") == TableFor(SrcTables, "en")
  {
    LookupFinds(SrcTables, 0, "en");
    LookupFinds(LegacyTables, 0, "en");
    if lang == "en" {
    } else if lang == "zh" {
      LookupFinds(SrcTables, 1, lang);
      LookupFinds(LegacyTables, 2, lang);
    } else if lang == "es" {
      LookupFinds(SrcTables, 2, lang);
      LookupFinds(LegacyTables, 3, lang);
    } else if lang == "fr" {
      LookupFinds(SrcTables, 3, lang);
      LookupFinds(LegacyTables, 4, lang);
    } else {
      assert Lookup(LegacyTables, lang).None? && Lookup(SrcTables, lang).None?;
    }
  }

  /** The older script matches every language but Hindi exactly as the newer one. */
  lemma LegacyAgreesOutsideHindi(rawText: Option<string>, lang: string)
    requires lang != "hi"
    ensures MapLocalCommand(LegacyTables, rawText, lang) == MapLocalCommand(SrcTables, rawText, lang)
  {
    LegacyTablesAgreeOutsideHindi(lang);
    SameTablesSameAnswer(LegacyTables, SrcTables, rawText, lang);
  }

  /** The newer script has no Hindi table: Hindi speakers are matched as English. */
  lemma SrcMatchesHindiAsEnglish(rawText: Option<string>)
    ensures MapLocalCommand(SrcTables, rawText, "hi") == MapLocalCommand(SrcTables, rawText, "en")
  {
    UnlistedLanguageIsEnglish(SrcTables, rawText, "hi");
  }

  /** A non-empty phrase without capitals and without surrounding white space is written normally. */
  lemma NormalByChars(p: string)
    requires |p| > 0 && !IsSpace(p[0]) && !IsSpace(p[|p| - 1]) && NoUpper(p)
    ensures NormalPhrase(p)
  {
    TrimOfTrimmed(p);
    LowerFixedPoints(p);
  }

  lemma EnglishWellFormed()
    ensures WellFormedTable(English)
  {
    forall k, i | 0 <= k < |English| && 0 <= i < |English[k].1| ensures NormalPhrase(English[k].1[i]) {
      NormalByChars(English[k].1[i]);
    }
  }

  lemma HindiWellFormed()
    ensures WellFormedTable(Hindi)
  {
    forall k, i | 0 <= k < |Hindi| && 0 <= i < |Hindi[k].1| ensures NormalPhrase(Hindi[k].1[i]) {
      NormalByChars(Hindi[k].1[i]);
    }
  }

  lemma ChineseWellFormed()
    ensures WellFormedTable(Chinese)
  {
    forall k, i | 0 <= k < |Chinese| && 0 <= i < |Chinese[k].1| ensures NormalPhrase(Chinese[k].1[i]) {
      NormalByChars(Chinese[k].1[i]);
    }
  }

  lemma SpanishWellFormed()
    ensures WellFormedTable(Spanish)
  {
    forall k, i | 0 <= k < |Spanish| && 0 <= i < |Spanish[k].1| ensures NormalPhrase(Spanish[k].1[i]) {
      NormalByChars(Spanish[k].1[i]);
    }
  }

  lemma FrenchWellFormed()
    ensures WellFormedTable(French)
  {
    forall k, i | 0 <= k < |French| && 0 <= i < |French[k].1| ensures NormalPhrase(French[k].1[i]) {
      NormalByChars(French[k].1[i]);
    }
  }

  /** Both scripts' tables are well formed. */
  lemma TablesWellFormed()
    ensures WellFormed(SrcTables) && WellFormed(LegacyTables)
  {
    EnglishWellFormed();
    HindiWellFormed();
    ChineseWellFormed();
    SpanishWellFormed();
    FrenchWellFormed();
  }

  // ---------------------------------------------------------------------
  // Utterances worked through
  // ---------------------------------------------------------------------

  /** An utterance containing " read" picks the English `read` entry, the table's first. */
  lemma ReadEntryMatches(s: string, at: nat)
    requires OccursAt(s, " read", at)
    ensures FirstMatch(English, s) == Some(0)
  {
    LowerFixedPoints("read");
    assert " " + Lower("read") == " read";
    assert PhraseMatches(s, English[0].1[0]);
  }

  /** `s` is its own trimmed, lower-case form and contains " read" at `at`. */
  predicate SaysRead(s: string, at: nat) {
    Lower(s) == s && RawOf(Some(s)) == s && OccursAt(s, " read", at)
  }

  lemma StopReadingSaysRead(s: string)
    requires s == "stop reading"
    ensures SaysRead(s, 4)
  {
    NormalByChars(s);
    assert s[4..9] == " read";
  }

  lemma EndReadingSaysRead(s: string)
    requires s == "end reading"
    ensures SaysRead(s, 3)
  {
    NormalByChars(s);
    assert s[3..8] == " read";
  }

  lemma ReadingSaysRead(s: string) returns (at: nat)
    requires s == "stop reading" || s == "end reading"
    ensures SaysRead(s, at)
  {
    if s == "stop reading" {
      StopReadingSaysRead(s);
      at := 4;
    } else {
      EndReadingSaysRead(s);
      at := 3;
    }
  }

  /**
    "stop reading" and "end reading" are listed as stop phrases, yet both
    scripts read the page when they hear them: the earlier `read` entry
    matches first, in English and in every language without a table.
   */
  lemma StopReadingStartsReading(tables: TableSet, s: string, lang: string)
    requires tables == SrcTables || tables == LegacyTables
    requires s == "stop reading" || s == "end reading"
    requires lang == "en" || Lookup(tables, lang).None?
    ensures MapLocalCommand(tables, Some(s), lang) == [Command("read", None, Some(s))]
  {
    EnglishListedFirst(tables);
    ReadingViaEnglish(tables, s, lang);
  }

  /** With English listed first, the stop phrases with "reading" in them hit English's `read` entry. */
  lemma ReadingViaEnglish(tables: TableSet, s: string, lang: string)
    requires |tables| > 0 && tables[0] == ("en", English)
    requires s == "stop reading" || s == "end reading"
    requires lang == "en" || Lookup(tables, lang).None?
    ensures MapLocalCommand(tables, Some(s), lang) == [Command("read", None, Some(s))]
  {
    var at := ReadingSaysRead(s);
    ReadEntryMatches(s, at);
    LookupFinds(tables, 0, "en");
    var english := TableFor(tables, "en");
    assert english == English;
    assert TableHit(tables, s, "en") == Some("read");
    if lang != "en" {
      UnlistedLanguageIsEnglish(tables, Some(s), lang);
    }
  }

  /** A phrase longer than the utterance cannot match it. */
  lemma LongerPhraseMisses(rawLC: string, p: string)
    requires |p| > |rawLC|
    ensures !PhraseMatches(rawLC, p)
  {
  }

  /** A phrase as long as the utterance matches it only when it is the utterance. */
  lemma SameLengthPhraseMisses(rawLC: string, p: string)
    requires |p| == |rawLC| && Lower(p) != rawLC
    ensures !PhraseMatches(rawLC, p)
  {
    assert rawLC[..|p|] == rawLC && rawLC[|rawLC| - |p|..] == rawLC;
  }

  /** "stop" matches no `read` phrase. */
  lemma StopIsNoReadPhrase(s: string, ps: seq<string>)
    requires s == "stop" && ps == ["read", "start reading", "read page", "read this"]
    ensures !SomePhraseMatches(s, ps)
  {
    LowerFixedPoints(ps[0]);
    SameLengthPhraseMisses(s, ps[0]);
    LongerPhraseMisses(s, ps[1]);
    LongerPhraseMisses(s, ps[2]);
    LongerPhraseMisses(s, ps[3]);
    SomePhraseMatchesIff(s, ps);
  }

  /** "stop" matches no `pause` phrase. */
  lemma StopIsNoPausePhrase(s: string, ps: seq<string>)
    requires s == "stop" && ps == ["pause", "hold on", "wait"]
    ensures !SomePhraseMatches(s, ps)
  {
    LongerPhraseMisses(s, ps[0]);
    LongerPhraseMisses(s, ps[1]);
    LowerFixedPoints(ps[2]);
    SameLengthPhraseMisses(s, ps[2]);
    SomePhraseMatchesIff(s, ps);
  }

  /** "stop" is its own trimmed, lower-case form. */
  lemma StopIsNormal(s: string)
    requires s == "stop"
    ensures Lower(s) == s && RawOf(Some(s)) == s
  {
    LowerFixedPoints(s);
    TrimOfTrimmed(s);
  }

  /** "stop" first matches the English `stop` entry. */
  lemma StopMatchesStopEntry(s: string, table: PhraseTable)
    requires s == "stop" && table == English
    ensures FirstMatch(table, s) == Some(2) && table[2].0 == "stop"
  {
    StopIsNoReadPhrase(s, table[0].1);
    StopIsNoPausePhrase(s, table[1].1);
    LowerFixedPoints(table[2].1[0]);
    assert PhraseMatches(s, table[2].1[0]);
    assert SomePhraseMatches(s, table[2].1);
    assert FirstMatch(table[2..], s) == Some(0);
    assert table[1..][1..] == table[2..];
  }

  /**
    English is always consulted after the user language's table, so "stop"
    stops reading whatever language the user has set, even one without a table.
    Both scripts' table sets list English first (`EnglishListedFirst`).
   */
  lemma StopIsUnderstoodInUnlistedLanguages(tables: TableSet, s: string, lang: string)
    requires |tables| > 0 && tables[0] == ("en", English)
    requires s == "stop" && Lookup(tables, lang).None?
    ensures MapLocalCommand(tables, Some(s), lang) == [Command("stop", None, Some(s))]
  {
    StopResolvesIn(s, English);
    UnlistedUsesEnglish(tables, Some(s), lang, 2);
  }

  /** "stop" reaches the English table as it is and first matches its `stop` entry. */
  lemma StopResolvesIn(s: string, table: PhraseTable)
    requires s == "stop" && table == English
    ensures FirstMatch(table, Lower(RawOf(Some(s)))) == Some(2) && table[2].0 == "stop" && RawOf(Some(s)) == s
  {
    StopIsNormal(s);
    var u := Lower(RawOf(Some(s)));
    assert u == s;
    StopMatchesStopEntry(u, table);
  }

  /** Both scripts list English first. */
  lemma EnglishListedFirst(tables: TableSet)
    requires tables == SrcTables || tables == LegacyTables
    ensures |tables| > 0 && tables[0] == ("en", English)
  {
  }

  /** With English listed first, a language without a table gets English's first matching entry. */
  lemma UnlistedUsesEnglish(tables: TableSet, rawText: Option<string>, lang: string, k: nat)
    requires |tables| > 0 && tables[0] == ("en", English)
    requires Lookup(tables, lang).None?
    requires FirstMatch(English, Lower(RawOf(rawText))) == Some(k)
    ensures MapLocalCommand(tables, rawText, lang) == [Command(English[k].0, None, Some(RawOf(rawText)))]
  {
    LookupFinds(tables, 0, "en");
    assert TableFor(tables, lang) == [];
    EnglishTableDecides(tables, rawText, lang, k);
  }

  /** The older script's Hindi speakers get the Hindi table first: a Hindi hit decides before English is tried. */
  lemma LegacyHindiTableFirst(rawText: Option<string>, lang: string, k: nat)
    requires lang == "hi" && FirstMatch(Hindi, Lower(RawOf(rawText))) == Some(k)
    ensures MapLocalCommand(LegacyTables, rawText, lang) == [Command(Hindi[k].0, None, Some(RawOf(rawText)))]
  {
    assert LegacyTables[0].0 != lang && LegacyTables[1] == (lang, Hindi);
    SecondTableDecides(LegacyTables, Hindi, rawText, lang, k);
  }

  /** A table listed second, after another language's, is the one consulted first for its language. */
  lemma SecondTableDecides(tables: TableSet, t: PhraseTable, rawText: Option<string>, lang: string, k: nat)
    requires |tables| >= 2 && tables[0].0 != lang && tables[1] == (lang, t)
    requires FirstMatch(t, Lower(RawOf(rawText))) == Some(k)
    ensures MapLocalCommand(tables, rawText, lang) == [Command(t[k].0, None, Some(RawOf(rawText)))]
  {
    SecondTableHit(tables, t, Lower(RawOf(rawText)), lang, k);
  }

  /** The table hit for an utterance that the second-listed table matches. */
  lemma SecondTableHit(tables: TableSet, t: PhraseTable, u: string, lang: string, k: nat)
    requires |tables| >= 2 && tables[0].0 != lang && tables[1] == (lang, t)
    requires FirstMatch(t, u) == Some(k)
    ensures TableHit(tables, u, lang) == Some(t[k].0)
  {
    LookupFinds(tables, 1, lang);
  }

  // ---------------------------------------------------------------------
  // Spoken command lists (src/content/content.js:406-446, content.js:389-439,
  // background.js:147-192)
  // ---------------------------------------------------------------------

  /** A command list as the overlay shows it: a title and one line per command. */
  datatype CommandsText = CommandsText(title: string, commands: seq<string>)

  type TextTable = seq<(string, CommandsText)>

  const EnglishText := CommandsText("Voice Commands",
    ["Say 'read'", "Say 'pause'", "Say 'stop'", "Say 'translate'", "Say 'show commands'"])
  const ChineseText := CommandsText("\U{8bed}\U{97f3}\U{547d}\U{4ee4}",
    ["\U{8bf4}\U{201c}\U{8bfb}\U{201d}", "\U{8bf4}\U{201c}\U{6682}\U{505c}\U{201d}", "\U{8bf4}\U{201c}\U{505c}\U{6b62}\U{201d}",
     "\U{8bf4}\U{201c}\U{7ffb}\U{8bd1}\U{201d}", "\U{8bf4}\U{201c}\U{663e}\U{793a}\U{547d}\U{4ee4}\U{201d}"])
  const SpanishText := CommandsText("Comandos de voz",
    ["Di 'leer'", "Di 'pausa'", "Di 'detener'", "Di 'traducir'", "Di 'mostrar comandos'"])
  const FrenchText := CommandsText("Commandes vocales",
    ["Dites 'lire'", "Dites 'pause'", "Dites 'arr\U{ea}ter'", "Dites 'traduire'", "Dites 'afficher les commandes'"])
  const HindiText := CommandsText("\U{935}\U{949}\U{92f}\U{938} \U{915}\U{92e}\U{93e}\U{902}\U{921}\U{94d}\U{938}",
    ["'\U{92a}\U{922}\U{93c}\U{94b}' \U{915}\U{939}\U{947}\U{902}", "'\U{930}\U{941}\U{915}\U{94b}' \U{915}\U{939}\U{947}\U{902}",
     "'\U{92c}\U{902}\U{926} \U{915}\U{930}\U{94b}' \U{915}\U{939}\U{947}\U{902}",
     "'\U{905}\U{928}\U{941}\U{935}\U{93e}\U{926} \U{915}\U{930}\U{94b}' \U{915}\U{939}\U{947}\U{902}",
     "'\U{915}\U{92e}\U{93e}\U{902}\U{921} \U{926}\U{93f}\U{916}\U{93e}\U{913}' \U{915}\U{939}\U{947}\U{902}"])

  /** The microphone emoji the older script puts in front of every title. */
  const Mic := "\U{1f399}\U{fe0f} "

  function WithMic(t: CommandsText): CommandsText {
    t.(title := Mic + t.title)
  }

  /** `getCommandsText`'s table in src/content/content.js. */
  const SrcTexts: TextTable := [("en", EnglishText), ("zh", ChineseText), ("es", SpanishText), ("fr", FrenchText)]

  /** `getCommandsText`'s table in the older content.js: titles carry the microphone, and Hindi is listed. */
  const LegacyTexts: TextTable := [("en", WithMic(EnglishText)), ("zh", WithMic(ChineseText)), ("hi", WithMic(HindiText)),
                                   ("es", WithMic(SpanishText)), ("fr", WithMic(FrenchText))]

  /** `showCommandOverlay`'s table in the older background.js: longer lines, and no French. */
  const OverlayTexts: TextTable := [
    ("en", CommandsText(Mic + "Voice Commands",
      ["Say 'read' to start reading", "Say 'pause' to pause", "Say 'stop' to stop reading",
       "Say 'translate' to translate this page", "Say 'show commands' to display this list"])),
    ("hi", CommandsText(Mic + HindiText.title,
      ["'\U{92a}\U{922}\U{93c}\U{94b}' \U{915}\U{939}\U{947}\U{902} \U{92a}\U{922}\U{93c}\U{928}\U{93e} \U{936}\U{941}\U{930}\U{942} \U{915}\U{930}\U{928}\U{947} \U{915}\U{947} \U{932}\U{93f}\U{90f}",
       "'\U{930}\U{941}\U{915}\U{94b}' \U{915}\U{939}\U{947}\U{902} \U{930}\U{94b}\U{915}\U{928}\U{947} \U{915}\U{947} \U{932}\U{93f}\U{90f}",
       "'\U{92c}\U{902}\U{926} \U{915}\U{930}\U{94b}' \U{915}\U{939}\U{947}\U{902} \U{938}\U{92e}\U{93e}\U{92a}\U{94d}\U{924} \U{915}\U{930}\U{928}\U{947} \U{915}\U{947} \U{932}\U{93f}\U{90f}",
       "'\U{905}\U{928}\U{941}\U{935}\U{93e}\U{926} \U{915}\U{930}\U{94b}' \U{915}\U{939}\U{947}\U{902} \U{92a}\U{943}\U{937}\U{94d}\U{920} \U{905}\U{928}\U{941}\U{935}\U{93e}\U{926} \U{915}\U{947} \U{932}\U{93f}\U{90f}",
       "'\U{915}\U{92e}\U{93e}\U{902}\U{921} \U{926}\U{93f}\U{916}\U{93e}\U{913}' \U{915}\U{939}\U{947}\U{902} \U{92f}\U{939} \U{938}\U{942}\U{91a}\U{940} \U{926}\U{93f}\U{916}\U{93e}\U{928}\U{947} \U{915}\U{947} \U{932}\U{93f}\U{90f}"])),
    ("es", CommandsText(Mic + "Comandos de voz",
      ["Di 'leer' para empezar a leer", "Di 'pausa' para pausar", "Di 'detener' para detener la lectura",
       "Di 'traducir' para traducir esta p\U{e1}gina", "Di 'mostrar comandos' para ver esta lista"])),
    ("zh", CommandsText(Mic + ChineseText.title,
      ["\U{8bf4}\U{201c}\U{8bfb}\U{201d}\U{5f00}\U{59cb}\U{6717}\U{8bfb}",
       "\U{8bf4}\U{201c}\U{6682}\U{505c}\U{201d}\U{6682}\U{505c}\U{6717}\U{8bfb}",
       "\U{8bf4}\U{201c}\U{505c}\U{6b62}\U{201d}\U{7ed3}\U{675f}\U{6717}\U{8bfb}",
       "\U{8bf4}\U{201c}\U{7ffb}\U{8bd1}\U{201d}\U{7ffb}\U{8bd1}\U{6b64}\U{9875}\U{9762}",
       "\U{8bf4}\U{201c}\U{663e}\U{793a}\U{547d}\U{4ee4}\U{201d}\U{663e}\U{793a}\U{6b64}\U{5217}\U{8868}"]))
  ]

  /**
    `translations[lang] || translations.en`: the list for a listed code, the
    English list for any other.
   */
  function CommandsTextFor(texts: TextTable, lang: string): (r: CommandsText)
    requires Lookup(texts, "en").Some?
    ensures (exists k :: 0 <= k < |texts| && texts[k] == (lang, r))
            || ((forall k :: 0 <= k < |texts| ==> texts[k].0 != lang) && r == Lookup(texts, "en").value)
  {
    match Lookup(texts, lang)
    case Some(t) => t
    case None => Lookup(texts, "en").value
  }

  /** The five commands every list advertises, in the order of the lists and of the tables. */
  const Spoken: seq<string> := ["read", "pause", "stop", "translate", "show commands"]

  /**
    Line `i` of the list names command `Spoken[i]` by quoting a phrase that
    the matcher table lists under that very command.
   */
  predicate Advertises(t: CommandsText, table: PhraseTable) {
    |t.commands| == 5 && |table| >= 5
    && forall i :: 0 <= i < 5 ==>
         table[i].0 == Spoken[i] && exists j :: 0 <= j < |table[i].1| && Contains(t.commands[i], table[i].1[j])
  }

  lemma EnglishTextAdvertises(t: CommandsText, table: PhraseTable)
    requires t == EnglishText && table == English
    ensures Advertises(t, table)
  {
    assert OccursAt(t.commands[0], table[0].1[0], 5);
    assert OccursAt(t.commands[1], table[1].1[0], 5);
    assert OccursAt(t.commands[2], table[2].1[0], 5);
    assert OccursAt(t.commands[3], table[3].1[0], 5);
    assert OccursAt(t.commands[4], table[4].1[0], 5);
  }

  lemma ChineseTextAdvertises(t: CommandsText, table: PhraseTable)
    requires t == ChineseText && table == Chinese
    ensures Advertises(t, table)
  {
    assert OccursAt(t.commands[0], table[0].1[0], 2);
    assert OccursAt(t.commands[1], table[1].1[0], 2);
    assert OccursAt(t.commands[2], table[2].1[0], 2);
    assert OccursAt(t.commands[3], table[3].1[0], 2);
    assert OccursAt(t.commands[4], table[4].1[0], 2);
  }

  lemma SpanishTextAdvertises(t: CommandsText, table: PhraseTable)
    requires t == SpanishText && table == Spanish
    ensures Advertises(t, table)
  {
    assert OccursAt(t.commands[0], table[0].1[0], 4);
    assert OccursAt(t.commands[1], table[1].1[0], 4);
    assert OccursAt(t.commands[2], table[2].1[0], 4);
    assert OccursAt(t.commands[3], table[3].1[0], 4);
    assert OccursAt(t.commands[4], table[4].1[1], 4);
  }

  lemma FrenchTextAdvertises(t: CommandsText, table: PhraseTable)
    requires t == FrenchText && table == French
    ensures Advertises(t, table)
  {
    assert OccursAt(t.commands[0], table[0].1[0], 7);
    assert OccursAt(t.commands[1], table[1].1[0], 7);
    assert OccursAt(t.commands[2], table[2].1[0], 7);
    assert OccursAt(t.commands[3], table[3].1[0], 7);
    assert OccursAt(t.commands[4], table[4].1[0], 20);
  }

  lemma HindiTextAdvertises(t: CommandsText, table: PhraseTable)
    requires t == HindiText && table == Hindi
    ensures Advertises(t, table)
  {
    assert OccursAt(t.commands[0], table[0].1[0], 1);
    assert OccursAt(t.commands[1], table[1].1[0], 1);
    assert OccursAt(t.commands[2], table[2].1[0], 1);
    assert OccursAt(t.commands[3], table[3].1[1], 1);
    assert OccursAt(t.commands[4], table[4].1[0], 1);
  }

  /**
    The newer script's command list, for every language it lists, quotes for
    each command a phrase its own matcher table files under that command.
   */
  lemma SrcListsMatchTables(lang: string)
    requires Lookup(SrcTexts, lang).Some?
    ensures Advertises(CommandsTextFor(SrcTexts, lang), TableFor(SrcTables, lang))
  {
    if lang == "en" {
      EnglishTextAdvertises(EnglishText, English);
      ListedPairAdvertises(SrcTexts, SrcTables, 0, 0, lang, EnglishText, English);
    } else if lang == "zh" {
      ChineseTextAdvertises(ChineseText, Chinese);
      ListedPairAdvertises(SrcTexts, SrcTables, 1, 1, lang, ChineseText, Chinese);
    } else if lang == "es" {
      SpanishTextAdvertises(SpanishText, Spanish);
      ListedPairAdvertises(SrcTexts, SrcTables, 2, 2, lang, SpanishText, Spanish);
    } else {
      assert lang == "fr";
      FrenchTextAdvertises(FrenchText, French);
      ListedPairAdvertises(SrcTexts, SrcTables, 3, 3, lang, FrenchText, French);
    }
  }

  /** The same holds for the older script, Hindi included; the microphone in the titles changes no line. */
  lemma LegacyListsMatchTables(lang: string)
    requires Lookup(LegacyTexts, lang).Some?
    ensures Advertises(CommandsTextFor(LegacyTexts, lang), TableFor(LegacyTables, lang))
  {
    if lang == "en" {
      EnglishTextAdvertises(EnglishText, English);
      ListedPairAdvertises(LegacyTexts, LegacyTables, 0, 0, lang, EnglishText, English);
    } else if lang == "zh" {
      ChineseTextAdvertises(ChineseText, Chinese);
      ListedPairAdvertises(LegacyTexts, LegacyTables, 1, 2, lang, ChineseText, Chinese);
    } else if lang == "hi" {
      HindiTextAdvertises(HindiText, Hindi);
      ListedPairAdvertises(LegacyTexts, LegacyTables, 2, 1, lang, HindiText, Hindi);
    } else if lang == "es" {
      SpanishTextAdvertises(SpanishText, Spanish);
      ListedPairAdvertises(LegacyTexts, LegacyTables, 3, 3, lang, SpanishText, Spanish);
    } else {
      assert lang == "fr";
      FrenchTextAdvertises(FrenchText, French);
      ListedPairAdvertises(LegacyTexts, LegacyTables, 4, 4, lang, FrenchText, French);
    }
  }

  /** A language with an entry in both a list table and a table set is shown its own list, checked against its own table. */
  lemma ListedPairAdvertises(texts: TextTable, tables: TableSet, i: nat, j: nat, lang: string, t: CommandsText, table: PhraseTable)
    requires |texts| > 0 && texts[0].0 == "en"
    requires i < |texts| && texts[i].0 == lang && texts[i].1.commands == t.commands && forall x :: 0 <= x < i ==> texts[x].0 != lang
    requires j < |tables| && tables[j] == (lang, table) && forall x :: 0 <= x < j ==> tables[x].0 != lang
    requires Advertises(t, table)
    ensures Lookup(texts, "en").Some? && Advertises(CommandsTextFor(texts, lang), TableFor(tables, lang))
  {
    LookupFinds(texts, 0, "en");
    LookupFinds(texts, i, lang);
    LookupFinds(tables, j, lang);
  }

  /** A language the newer script does not list is shown the English list; Hindi is one of them. */
  lemma SrcUnlistedGetsEnglishList(lang: string)
    requires lang != "en" && lang != "zh" && lang != "es" && lang != "fr"
    ensures CommandsTextFor(SrcTexts, lang) == EnglishText
  {
    LookupFinds(SrcTexts, 0, "en");
  }

  /** The older content script shows the English list for any language it does not list. */
  lemma LegacyUnlistedGetsEnglishList(lang: string)
    requires lang != "en" && lang != "zh" && lang != "hi" && lang != "es" && lang != "fr"
    ensures CommandsTextFor(LegacyTexts, lang) == WithMic(EnglishText)
  {
    LookupFinds(LegacyTexts, 0, "en");
  }

  /** The older background overlay has no French list: French speakers, like any unlisted language, get English. */
  lemma OverlayUnlistedGetsEnglishList(lang: string)
    requires lang != "en" && lang != "hi" && lang != "es" && lang != "zh"
    ensures CommandsTextFor(OverlayTexts, lang) == OverlayTexts[0].1
    ensures |CommandsTextFor(OverlayTexts, lang).commands| == 5
  {
    LookupFinds(OverlayTexts, 0, "en");
  }
}
