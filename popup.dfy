/**
  The toolbar popup (`VoxMatePopup`): message lookup in the loaded locale,
  loading a locale with an English fallback, the saved language and its
  precedence, the busy state of a button, the question box and keyboard
  focus. Storage, the locale files and the tab are inputs.
 */
module Popup {
  import opened Wrappers
  import opened Text

  /** A locale's `messages.json`: each key's `message`, "" where it has none. */
  type Messages = map<string, string>

  /**
    `getMessage(key, defaultValue)` (src/popup/popup.js:78-80): the message
    when it is there and not empty, else the default when that is not
    empty, else the key itself.
   */
  function GetMessage(messages: Messages, key: string, defaultValue: string): (r: string)
    ensures key in messages && messages[key] != "" ==> r == messages[key]
    ensures (key !in messages || messages[key] == "") && defaultValue != "" ==> r == defaultValue
    ensures (key !in messages || messages[key] == "") && defaultValue == "" ==> r == key
    ensures key != "" ==> r != ""
  {
    var m := if key in messages then messages[key] else "";
    if m != "" then m else if defaultValue != "" then defaultValue else key
  }

  /** An English message is only shown when the loaded locale lacks the key. */
  lemma LocaleMessageWins(messages: Messages, key: string, d1: string, d2: string)
    requires key in messages && messages[key] != ""
    ensures GetMessage(messages, key, d1) == GetMessage(messages, key, d2) == messages[key]
  {
  }

  /**
    What `loadMessages(locale)` resolves to, given the locale files that
    load (src/popup/popup.js:59-72): the requested locale, else English,
    else nothing.
   */
  function LoadResult(locales: map<string, Messages>, locale: string): (r: Option<Messages>)
    ensures r.Some? <==> locale in locales || "en" in locales
    ensures locale in locales ==> r == Some(locales[locale])
    ensures locale !in locales && "en" in locales ==> r == Some(locales["en"])
  {
    if locale in locales then Some(locales[locale])
    else if locale != "en" && "en" in locales then Some(locales["en"])
    else None
  }

  /** How many locale files `loadMessages(locale)` fetches. */
  function Attempts(locales: map<string, Messages>, locale: string): (n: nat)
    ensures 1 <= n <= 2
    ensures n == 2 <==> locale !in locales && locale != "en"
  {
    if locale in locales || locale == "en" then 1 else 2
  }

  /** `navigator.language.split("-")[0]`: the language before the first hyphen. */
  function PrimarySubtag(tag: string): (r: string)
    ensures |r| <= |tag| && r == tag[..|r|]
    ensures '-' !in r
    ensures |r| < |tag| ==> tag[|r|] == '-'
  {
    if |tag| == 0 || tag[0] == '-' then "" else [tag[0]] + PrimarySubtag(tag[1..])
  }

  /**
    The language the popup opens in (src/popup/popup.js:311-312): the saved
    selection, then the saved user language, then the browser's language,
    then English.
   */
  function PreferredLanguage(selected: string, user: string, browser: string): (r: string)
    ensures r != ""
    ensures selected != "" ==> r == selected
    ensures selected == "" && user != "" ==> r == user
    ensures selected == "" && user == "" && PrimarySubtag(browser) != "" ==> r == PrimarySubtag(browser)
    ensures selected == "" && user == "" && PrimarySubtag(browser) == "" ==> r == "en"
  {
    if selected != "" then selected
    else if user != "" then user
    else if PrimarySubtag(browser) != "" then PrimarySubtag(browser)
    else "en"
  }

  /** A browser tag such as `fr-FR` opens the popup in its language when nothing is saved. */
  lemma {:induction false} BrowserRegionIgnored(lang: string, region: string)
    requires lang != "" && '-' !in lang
    ensures PreferredLanguage("", "", lang + "-" + region) == lang
  {
    var tag := lang + "-" + region;
    var p := PrimarySubtag(tag);
    assert tag[..|lang|] == lang && tag[|lang|] == '-';
    assert p == tag[..|lang|];
  }

  /** `setLoading` acts on a button's `loading` class, its HTML and its `data-original-html`. */
  datatype ButtonState = ButtonState(loading: bool, html: string, savedHtml: Option<string>)

  /**
    `setLoading(button, isLoading)` (src/popup/popup.js:530-542): entering
    the busy state saves the HTML; leaving it restores the saved HTML when
    that is not empty.
   */
  function SetLoadingSpec(b: ButtonState, isLoading: bool): (r: ButtonState)
    ensures r.loading == isLoading
    ensures isLoading ==> r.savedHtml == Some(b.html) && r.html == b.html
    ensures !isLoading ==> r.savedHtml == b.savedHtml
  {
    if isLoading then b.(loading := true, savedHtml := Some(b.html))
    else if b.savedHtml.Some? && b.savedHtml.value != "" then b.(loading := false, html := b.savedHtml.value)
    else b.(loading := false)
  }

  /**
    Busy then idle gives the button back as it was, whatever its HTML
    became in between, provided it had some HTML to save.
   */
  lemma LoadingRoundTrip(b: ButtonState, during: string)
    requires b.html != "" && !b.loading
    ensures var busy := SetLoadingSpec(b, true);
      SetLoadingSpec(busy.(html := during), false) == b.(savedHtml := Some(b.html))
  {
  }

  /** A button whose HTML was empty keeps whatever HTML it was given while busy. */
  lemma EmptyHtmlNotRestored(b: ButtonState, during: string)
    requires b.html == ""
    ensures SetLoadingSpec(SetLoadingSpec(b, true).(html := during), false).html == during
  {
  }

  /** A button of the popup. */
  class Button {
    var loading: bool
    var html: string
    var savedHtml: Option<string>

    function State(): ButtonState
      reads this
    {
      ButtonState(loading, html, savedHtml)
    }

    constructor (html0: string)
      ensures State() == ButtonState(false, html0, None)
    {
      loading, html, savedHtml := false, html0, None;
    }

    method SetLoading(isLoading: bool)
      modifies this
      ensures State() == SetLoadingSpec(old(State()), isLoading)
    {
      if isLoading {
        loading := true;
        savedHtml := Some(html);
      } else {
        loading := false;
        if savedHtml.Some? && savedHtml.value != "" {
          html := savedHtml.value;
        }
      }
    }
  }

  /** A key press: its `key` and whether Ctrl and Shift were held. */
  datatype KeyPress = KeyPress(key: string, ctrl: bool, shift: bool)

  /**
    What a key press in the popup does (src/popup/popup.js:329-345):
    toggle voice mode, close, where focus moves (None: left to the
    browser), whether the default is prevented, and whether the handler
    throws before it is done.
   */
  datatype KeyEffects = KeyEffects(toggleVoice: bool, close: bool, focus: Option<nat>, preventDefault: bool, throws: bool)

  /**
    What the focus test compares with the focusable elements: `undefined`,
    some element that is not one of them, or the element at an index.
   */
  datatype Focused = Undefined | Elsewhere | Item(index: nat)

  /** `focusableElements[k]` among `count` elements: out of range it is `undefined`. */
  function ElementAt(count: nat, k: int): (f: Focused)
    ensures f.Item? <==> 0 <= k < count
    ensures f.Item? ==> f.index == k
    ensures !f.Item? ==> f == Undefined
  {
    if 0 <= k < count then Item(k) else Undefined
  }

  /** The outcome of tab navigation: focus moved to an index, nothing done, or a TypeError. */
  datatype TabOutcome = Moved(to: nat) | Unchanged | Throws

  /**
    The two guarded branches of `handleTabNavigation` (src/popup/popup.js:347-362)
    among `count` focusable elements, with `seen` what the focus test reads:
    with Shift, when `seen` is the first element, focus the last; without,
    when it is the last, focus the first. Calling `focus()` on `undefined`
    throws.
   */
  function TabStep(shift: bool, seen: Focused, count: nat): (r: TabOutcome)
    ensures r.Throws? <==> count == 0 && seen == Undefined
    ensures r.Moved? <==> count > 0 && seen == Item(if shift then 0 else count - 1)
    ensures r.Moved? ==> r.to == if shift then count - 1 else 0
  {
    var first, last := ElementAt(count, 0), ElementAt(count, count - 1);
    if shift && seen == first then
      (if last.Item? then Moved(last.index) else Throws)
    else if !shift && seen == last then
      (if first.Item? then Moved(first.index) else Throws)
    else Unchanged
  }

  /** The element focus moves to, if any. */
  function FocusTarget(t: TabOutcome): (f: Option<nat>)
    ensures f.Some? <==> t.Moved?
  {
    match t
    case Moved(to) => Some(to)
    case _ => None
  }

  /**
    `handleTabNavigation` as written: the test reads `this.root.activeElement`,
    and `this.root` is the `#popupRoot` element (src/popup/popup.js:4, 557-558),
    which has no `activeElement`, so the test sees `undefined`. Focus is never
    moved; with no focusable element `firstElement.focus()` throws.
   */
  function TabNavigation(shift: bool, count: nat): (r: TabOutcome)
    ensures count > 0 ==> r == Unchanged
    ensures count == 0 ==> r == Throws
  {
    TabStep(shift, Undefined, count)
  }

  /**
    `handleTabNavigation` as its comment intends ("focus stays within
    popup"), reading the document's focused element: `focused` is the index
    of the focused element when it is one of the focusable ones.
   */
  function DocumentTabNavigation(shift: bool, focused: Option<nat>, count: nat): (r: TabOutcome)
    ensures !r.Throws?
    ensures r.Moved? <==> count > 0 && focused == Some(if shift then 0 else count - 1)
  {
    TabStep(shift, if focused.Some? then Item(focused.value) else Elsewhere, count)
  }

  /** With the document's focus, focus wraps at both ends of the focusable elements. */
  lemma DocumentTabWraps(count: nat)
    requires count > 0
    ensures DocumentTabNavigation(false, Some(count - 1), count) == Moved(0)
    ensures DocumentTabNavigation(true, Some(0), count) == Moved(count - 1)
  {
  }

  /**
    The wrap the comment promises does not happen as written: Tab on the
    last focusable element leaves focus to the browser, where reading the
    document's focus would have wrapped it to the first element.
   */
  lemma TabOnLastDoesNotWrap(count: nat)
    requires count > 0
    ensures DocumentTabNavigation(false, Some(count - 1), count) == Moved(0)
    ensures TabNavigation(false, count) == Unchanged
  {
  }

  /**
    `handleKeyboardShortcuts(e)` (src/popup/popup.js:329-345) among `count`
    focusable elements: Ctrl+Shift+V prevents the default and toggles voice,
    Escape closes, Tab without Shift runs the tab navigation as written.
   */
  function KeyboardShortcuts(e: KeyPress, count: nat): (r: KeyEffects)
    ensures r.toggleVoice <==> e.ctrl && e.shift && e.key == "V"
    ensures r.close <==> e.key == "Escape"
    ensures r.focus.None?
    ensures r.preventDefault <==> e.ctrl && e.shift && e.key == "V"
    ensures r.throws <==> e.key == "Tab" && !e.shift && count == 0
  {
    var toggle := e.ctrl && e.shift && e.key == "V";
    var tab := if e.key == "Tab" && !e.shift then TabNavigation(false, count) else Unchanged;
    KeyEffects(toggle, e.key == "Escape", FocusTarget(tab), toggle || tab.Moved?, tab.Throws?)
  }

  /**
    Neither Tab nor Shift+Tab ever moves focus or prevents the default:
    Shift+Tab never reaches the tab navigation, and Tab reaches it only
    to find nothing focused.
   */
  lemma TabNeverMovesFocus(e: KeyPress, count: nat)
    requires e.key == "Tab"
    ensures KeyboardShortcuts(e, count).focus.None? && !KeyboardShortcuts(e, count).preventDefault
    ensures !KeyboardShortcuts(e, count).toggleVoice && !KeyboardShortcuts(e, count).close
  {
  }

  /** The popup's state: the loaded messages, the language select, what storage holds and the toast. */
  class VoxMatePopup {
    var currentMessages: Messages
    var selectValue: string
    /** The stored `selectedLanguage` and `userLanguage`, "" when unset. */
    var storedSelected: string
    var storedUser: string
    var toast: string
    const askSendBtn: Button

    constructor (askHtml: string, selected: string, user: string)
      ensures currentMessages == map[] && storedSelected == selected && storedUser == user
      ensures toast == "" && fresh(askSendBtn) && askSendBtn.State() == ButtonState(false, askHtml, None)
    {
      currentMessages, selectValue, toast := map[], "", "";
      storedSelected, storedUser := selected, user;
      askSendBtn := new Button(askHtml);
    }

    /** `loadMessages(locale)`: the loaded messages become current; `attempts` counts the fetches. */
    method LoadMessages(locales: map<string, Messages>, locale: string) returns (r: Option<Messages>, attempts: nat)
      modifies this
      ensures r == LoadResult(locales, locale) && attempts == Attempts(locales, locale)
      ensures currentMessages == (if r.Some? then r.value else old(currentMessages))
      ensures selectValue == old(selectValue) && storedSelected == old(storedSelected)
      ensures storedUser == old(storedUser) && toast == old(toast)
      decreases if locale == "en" then 0 else 1
    {
      if locale in locales {
        currentMessages := locales[locale];
        return Some(locales[locale]), 1;
      }
      if locale != "en" {
        r, attempts := LoadMessages(locales, "en");
        attempts := attempts + 1;
        return;
      }
      return None, 1;
    }

    /**
      `handleLanguageChange(locale)` (src/popup/popup.js:173-195): the
      requested locale is saved as both languages whenever some messages
      loaded, even the English fallback; when none load, the loading toast
      stays and nothing is saved.
     */
    method HandleLanguageChange(locales: map<string, Messages>, locale: string, storageWriteOk: bool)
      modifies this
      ensures var loaded := LoadResult(locales, locale);
        && currentMessages == (if loaded.Some? then loaded.value else old(currentMessages))
        && (loaded.Some? && storageWriteOk ==>
              (storedSelected == locale && storedUser == locale
               && toast == GetMessage(currentMessages, "languageUpdated", "Language updated successfully!")))
        && (loaded.Some? && !storageWriteOk ==> toast == GetMessage(currentMessages, "errorLoading", "Error loading language"))
        && (loaded.None? ==> toast == "Loading language...")
        && (!(loaded.Some? && storageWriteOk) ==> storedSelected == old(storedSelected) && storedUser == old(storedUser))
    {
      toast := "Loading language...";
      var messages, _ := LoadMessages(locales, locale);
      if messages.Some? {
        if storageWriteOk {
          storedSelected, storedUser := locale, locale;
          toast := GetMessage(currentMessages, "languageUpdated", "Language updated successfully!");
        } else {
          toast := GetMessage(currentMessages, "errorLoading", "Error loading language");
        }
      }
    }

    /**
      `loadSavedSettings()` (src/popup/popup.js:304-327): choose the
      language by precedence, show it in the select and load it; when
      storage cannot be read, load English.
     */
    method LoadSavedSettings(locales: map<string, Messages>, storageReadOk: bool, browserLanguage: string)
      modifies this
      ensures var lang := if storageReadOk then PreferredLanguage(storedSelected, storedUser, browserLanguage) else "en";
        var loaded := LoadResult(locales, lang);
        && currentMessages == (if loaded.Some? then loaded.value else old(currentMessages))
        && selectValue == (if storageReadOk then lang else old(selectValue))
      ensures storedSelected == old(storedSelected) && storedUser == old(storedUser)
    {
      if storageReadOk {
        var lang := PreferredLanguage(storedSelected, storedUser, browserLanguage);
        selectValue := lang;
        var _, _ := LoadMessages(locales, lang);
      } else {
        var _, _ := LoadMessages(locales, "en");
      }
    }

    /**
      `sendQuestion()` (src/popup/popup.js:473-507): a blank question sends
      nothing and asks for one; otherwise the send button turns busy and the
      trimmed question goes to the page when there is an active tab. When the
      tab query rejects, the button is restored and an error toast shown.
     */
    method SendQuestion(input: string, query: TabQuery) returns (sent: Option<string>)
      modifies this, askSendBtn
      ensures sent.Some? <==> Trim(input) != "" && query.ActiveTab?
      ensures sent.Some? ==> sent.value == Trim(input) && sent.value != ""
      ensures Trim(input) == "" ==> toast == GetMessage(currentMessages, "enterQuestion", "Please enter a question")
                                    && askSendBtn.State() == old(askSendBtn.State())
      ensures Trim(input) != "" && !query.QueryRejected?
              ==> askSendBtn.State() == SetLoadingSpec(old(askSendBtn.State()), true) && toast == old(toast)
      ensures Trim(input) != "" && query.QueryRejected?
              ==> askSendBtn.State() == SetLoadingSpec(SetLoadingSpec(old(askSendBtn.State()), true), false)
                  && toast == GetMessage(currentMessages, "errorSending", "Error sending question")
      ensures Trim(input) != "" && query.QueryRejected? && old(askSendBtn.State()).html != ""
              ==> !askSendBtn.loading && askSendBtn.html == old(askSendBtn.html)
      ensures currentMessages == old(currentMessages)
    {
      var question := Trim(input);
      if question == "" {
        toast := GetMessage(currentMessages, "enterQuestion", "Please enter a question");
        return None;
      }
      askSendBtn.SetLoading(true);
      match query
      case ActiveTab => return Some(question);
      case NoTab => return None;
      case QueryRejected =>
        askSendBtn.SetLoading(false);
        toast := GetMessage(currentMessages, "errorSending", "Error sending question");
        return None;
    }
  }

  /** How `chrome.tabs.query` ends: a tab with an id, no such tab, or a rejection. */
  datatype TabQuery = ActiveTab | NoTab | QueryRejected

  /**
    A locale chosen in the popup (and loaded, possibly through the English
    fallback, and saved) is the language the popup opens in next time.
   */
  method ChosenLanguageReopens(p: VoxMatePopup, locales: map<string, Messages>, locale: string, browserLanguage: string)
    requires locale != "" && (locale in locales || "en" in locales)
    modifies p
    ensures p.storedSelected == locale && p.storedUser == locale
    ensures p.selectValue == locale
    ensures p.currentMessages == LoadResult(locales, locale).value
  {
    p.HandleLanguageChange(locales, locale, true);
    p.LoadSavedSettings(locales, true, browserLanguage);
  }
}
