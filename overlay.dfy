/**
  The page overlay (`VoxMateOverlay`): one overlay element at a time, an
  auto-hide timer, the id of the loading overlay on show, and the deferred
  removal that takes the element out of the page 300 ms after it fades.
  Elements are numbered in creation order; `mounted` is the set of those
  still attached to the page; the browser's timer queue is the list of
  callbacks still `pending`, any of which may fire next.
 */
module Overlay {
  import opened Wrappers
  import opened Text

  /** A scheduled callback: the auto-hide timer (cancellable by its id) or a deferred removal. */
  datatype Timer = AutoHide(id: nat, duration: nat) | DeferredRemoval

  /** The options `show` destructures, with their defaults filled in by the callers below. */
  datatype Options = Options(title: string, kind: string, autoHide: bool, duration: nat, showClose: bool, loadingId: Option<string>)

  /** The overlay's fields plus the page and the timer queue they act on. */
  datatype State = State(
    overlay: Option<nat>,
    mounted: set<nat>,
    timeoutId: Option<nat>,
    currentLoadingId: Option<string>,
    pending: seq<Timer>,
    nextNode: nat,
    nextTimer: nat)

  /** A freshly constructed overlay: nothing shown, nothing scheduled. */
  const Initial := State(None, {}, None, None, [], 0, 1)

  /** How many auto-hide timers are queued. */
  function AutoHideCount(p: seq<Timer>): nat {
    if |p| == 0 then 0 else (if p[0].AutoHide? then 1 else 0) + AutoHideCount(p[1..])
  }

  /**
    The overlay's invariant: the only queued auto-hide timer is the one
    `timeoutId` names, and there is one exactly when `timeoutId` is set; the
    shown element is attached to the page; every id was handed out.
   */
  predicate Valid(s: State) {
    AutoHideCount(s.pending) == (if s.timeoutId.Some? then 1 else 0) && Tracked(s) && Shaped(s)
  }

  /** Every queued auto-hide timer is the one `timeoutId` names. */
  predicate Tracked(s: State) {
    forall i :: 0 <= i < |s.pending| && s.pending[i].AutoHide? ==> s.timeoutId == Some(s.pending[i].id)
  }

  /** The shown element is attached to the page, and every id was handed out. */
  predicate Shaped(s: State) {
    && 0 < s.nextTimer
    && (s.timeoutId.Some? ==> 0 < s.timeoutId.value < s.nextTimer)
    && (s.overlay.Some? ==> s.overlay.value in s.mounted)
    && (forall n :: n in s.mounted ==> n < s.nextNode)
  }

  /** `clearTimeout(id)`: the queue without the auto-hide timer `id`. */
  function Cancel(p: seq<Timer>, id: nat): (r: seq<Timer>)
    ensures |r| <= |p|
    ensures forall i :: 0 <= i < |r| ==> r[i] in p && !(r[i].AutoHide? && r[i].id == id)
  {
    if |p| == 0 then []
    else (if p[0].AutoHide? && p[0].id == id then [] else [p[0]]) + Cancel(p[1..], id)
  }

  /** A queue of deferred removals only has no auto-hide timer. */
  lemma {:induction false} RemovalsOnly(p: seq<Timer>)
    requires forall i :: 0 <= i < |p| ==> !p[i].AutoHide?
    ensures AutoHideCount(p) == 0
  {
    if |p| > 0 {
      RemovalsOnly(p[1..]);
    }
  }

  lemma {:induction false} CountAppend(p: seq<Timer>, q: seq<Timer>)
    ensures AutoHideCount(p + q) == AutoHideCount(p) + AutoHideCount(q)
  {
    if |p| == 0 {
      assert p + q == q;
    } else {
      CountAppend(p[1..], q);
      assert (p + q)[1..] == p[1..] + q;
    }
  }

  /** The queue after the callback at `k` has run. */
  function RemoveAt(p: seq<Timer>, k: nat): (r: seq<Timer>)
    requires k < |p|
    ensures |r| == |p| - 1
    ensures AutoHideCount(r) == AutoHideCount(p) - (if p[k].AutoHide? then 1 else 0)
    ensures forall i :: 0 <= i < |r| ==> r[i] == (if i < k then p[i] else p[i + 1])
  {
    assert p == p[..k] + [p[k]] + p[k + 1..];
    CountAppend(p[..k] + [p[k]], p[k + 1..]);
    CountAppend(p[..k], [p[k]]);
    CountAppend(p[..k], p[k + 1..]);
    p[..k] + p[k + 1..]
  }

  /**
    `removeOverlay` (src/content/overlay.js:373-392): cancel the auto-hide
    timer, forget the loading id, and if an element is shown, fade it and
    queue its removal. The element stays in `overlay` until that removal runs.
   */
  function RemoveOverlaySpec(s: State): (r: State)
    ensures r.timeoutId.None? && r.currentLoadingId.None?
    ensures r.overlay == s.overlay && r.mounted == s.mounted
    ensures r.nextNode == s.nextNode && r.nextTimer == s.nextTimer
    ensures Tracked(s) && Shaped(s) ==> Valid(r)
  {
    var p := if s.timeoutId.Some? then Cancel(s.pending, s.timeoutId.value) else s.pending;
    var r := s.(timeoutId := None, currentLoadingId := None,
                pending := p + (if s.overlay.Some? then [DeferredRemoval] else []));
    assert Tracked(s) && Shaped(s) ==> Valid(r) by {
      if Tracked(s) && Shaped(s) {
        assert forall i :: 0 <= i < |p| ==> !p[i].AutoHide?;
        RemovalsOnly(r.pending);
      }
    }
    r
  }

  /** `createOverlay` (src/content/overlay.js:13-48): remove the current overlay, then attach a new element. */
  function CreateOverlaySpec(s: State): (r: State)
    ensures r.overlay == Some(s.nextNode) && r.nextNode == s.nextNode + 1
    ensures r.mounted == s.mounted + {s.nextNode} && r.nextTimer == s.nextTimer
    ensures r.timeoutId.None? && r.currentLoadingId.None?
    ensures Valid(s) ==> Valid(r)
  {
    var t := RemoveOverlaySpec(s);
    t.(overlay := Some(t.nextNode), mounted := t.mounted + {t.nextNode}, nextNode := t.nextNode + 1)
  }

  /** JavaScript truthiness of an optional id: present and not the empty string. */
  predicate Truthy(id: Option<string>) {
    id.Some? && id.value != ""
  }

  /**
    `show(content, options)` (src/content/overlay.js:263-325): the loading id
    is stored first, then `createOverlay` clears it again; an auto-hide
    timer is queued only for an auto-hiding overlay that is not a loading one.
   */
  function ShowSpec(s: State, o: Options): (r: State)
    ensures r.currentLoadingId.None?
    ensures r.overlay == Some(s.nextNode) && r.mounted == s.mounted + {s.nextNode}
    ensures r.timeoutId.Some? <==> o.autoHide && o.kind != "loading"
    ensures Valid(s) ==> Valid(r)
  {
    var s1 := if o.kind == "loading" && Truthy(o.loadingId) then s.(currentLoadingId := o.loadingId) else s;
    var s2 := CreateOverlaySpec(s1);
    if o.autoHide && o.kind != "loading" then
      var r := s2.(timeoutId := Some(s2.nextTimer), pending := s2.pending + [AutoHide(s2.nextTimer, o.duration)], nextTimer := s2.nextTimer + 1);
      assert Valid(s) ==> Valid(r) by {
        if Valid(s) {
          assert Valid(s1);
          CountAppend(s2.pending, [AutoHide(s2.nextTimer, o.duration)]);
        }
      }
      r
    else s2
  }

  /** `removeLoading(id)` (src/content/overlay.js:394-398): remove only when `id` is the stored loading id. */
  function RemoveLoadingSpec(s: State, id: Option<string>): (r: State)
    ensures s.currentLoadingId != id ==> r == s
    ensures s.currentLoadingId == id ==> r == RemoveOverlaySpec(s)
    ensures Valid(s) ==> Valid(r)
  {
    if s.currentLoadingId == id then RemoveOverlaySpec(s) else s
  }

  /** The Escape key (src/content/overlay.js:255-261): remove the overlay when one is shown. */
  function EscapeSpec(s: State): (r: State)
    ensures s.overlay.None? ==> r == s
    ensures Valid(s) ==> Valid(r)
  {
    if s.overlay.Some? then RemoveOverlaySpec(s) else s
  }

  /**
    The callback at position `k` of the queue runs: an auto-hide timer calls
    `removeOverlay`; a deferred removal detaches whatever element is shown
    at that moment (src/content/overlay.js:319-321, 385-390).
   */
  function FireSpec(s: State, k: nat): (r: State)
    requires k < |s.pending|
    ensures Valid(s) ==> Valid(r)
    ensures Valid(s) && s.pending[k].DeferredRemoval? ==> r.overlay.None? && r.mounted == (if s.overlay.Some? then s.mounted - {s.overlay.value} else s.mounted)
  {
    var rest := RemoveAt(s.pending, k);
    match s.pending[k]
    case AutoHide(_, _) =>
      assert Valid(s) ==> Tracked(s.(pending := rest));
      RemoveOverlaySpec(s.(pending := rest))
    case DeferredRemoval =>
      if s.overlay.Some? && s.overlay.value in s.mounted
      then s.(pending := rest, mounted := s.mounted - {s.overlay.value}, overlay := None)
      else s.(pending := rest)
  }

  // ---------------------------------------------------------------------
  // What the content script relies on
  // ---------------------------------------------------------------------

  /** `showLoading(message, title, loadingId)` (src/content/overlay.js:401-409). */
  function LoadingOptions(title: string, loadingId: Option<string>): Options {
    Options(title, "loading", false, 60000, true, loadingId)
  }

  /** `showError(content, title)` (src/content/overlay.js:419-421). */
  function ErrorOptions(title: string): Options {
    Options(title, "error", false, 60000, true, None)
  }

  /** `showInfo`, `showSuccess`, `showWarning`, `showCommands` (src/content/overlay.js:411-443). */
  function TimedOptions(title: string, kind: string, duration: nat): Options {
    Options(title, kind, true, duration, true, None)
  }

  /**
    After any `show` the stored loading id is null, so the content script's
    `removeLoading(loadingId)` with the id it just passed to `showLoading`
    never removes anything: the spinner stays until the next `show` replaces it.
   */
  lemma RemoveLoadingNeverFires(s: State, o: Options, id: Option<string>)
    requires id.Some?
    ensures RemoveLoadingSpec(ShowSpec(s, o), id) == ShowSpec(s, o)
  {
  }

  /** The same holds for the exact sequence the content script runs. */
  lemma LoadingSpinnerSurvivesItsRemoval(s: State, title: string, loadingId: string)
    requires Valid(s)
    ensures var t := RemoveLoadingSpec(ShowSpec(s, LoadingOptions(title, Some(loadingId))), Some(loadingId));
      t.overlay == Some(s.nextNode) && s.nextNode in t.mounted && t.timeoutId.None?
  {
  }

  /** Loading and error overlays never queue an auto-hide timer, and cancel any earlier one. */
  lemma {:induction false} LoadingAndErrorNeverAutoHide(s: State, title: string, loadingId: Option<string>)
    requires Valid(s)
    ensures var t := ShowSpec(s, LoadingOptions(title, loadingId));
      t.timeoutId.None? && AutoHideCount(t.pending) == 0
    ensures var t := ShowSpec(s, ErrorOptions(title));
      t.timeoutId.None? && AutoHideCount(t.pending) == 0
  {
  }

  /** Timed overlays queue exactly one auto-hide timer, with their own duration. */
  lemma TimedOverlayAutoHides(s: State, title: string, kind: string, duration: nat)
    requires Valid(s) && kind != "loading"
    ensures var t := ShowSpec(s, TimedOptions(title, kind, duration));
      t.timeoutId == Some(s.nextTimer) && AutoHideCount(t.pending) == 1
      && t.pending[|t.pending| - 1] == AutoHide(s.nextTimer, duration)
  {
  }

  /**
    Replacing a shown overlay queues the old element's removal, but the
    removal acts on whatever is shown when it runs: it detaches the new
    element and leaves the old, faded one attached to the page.
   */
  lemma {:induction false} DeferredRemovalHitsNewOverlay(s: State, o: Options)
    requires Valid(s) && s.overlay.Some?
    ensures var t := ShowSpec(s, o);
      exists k :: 0 <= k < |t.pending| && t.pending[k] == DeferredRemoval
    ensures var t := ShowSpec(s, o);
      forall k :: 0 <= k < |t.pending| && t.pending[k] == DeferredRemoval ==>
        var u := FireSpec(t, k);
        u.overlay.None? && s.nextNode !in u.mounted && s.overlay.value in u.mounted
  {
    ShowQueuesRemoval(s, o);
    var t := ShowSpec(s, o);
    forall k | 0 <= k < |t.pending| && t.pending[k] == DeferredRemoval
      ensures var u := FireSpec(t, k);
        u.overlay.None? && s.nextNode !in u.mounted && s.overlay.value in u.mounted
    {
      assert s.overlay.value < s.nextNode;
    }
  }

  /** Showing over a shown overlay queues a deferred removal. */
  lemma ShowQueuesRemoval(s: State, o: Options)
    requires s.overlay.Some?
    ensures var t := ShowSpec(s, o);
      exists k :: 0 <= k < |t.pending| && t.pending[k] == DeferredRemoval
  {
    var s1 := if o.kind == "loading" && Truthy(o.loadingId) then s.(currentLoadingId := o.loadingId) else s;
    var p := if s1.timeoutId.Some? then Cancel(s1.pending, s1.timeoutId.value) else s1.pending;
    assert RemoveOverlaySpec(s1).pending == p + [DeferredRemoval];
    assert ShowSpec(s, o).pending[|p|] == DeferredRemoval;
  }

  // ---------------------------------------------------------------------
  // getIcon and formatContent
  // ---------------------------------------------------------------------

  /** The overlay types that have an icon of their own. */
  const IconNames: seq<string> := ["info", "success", "warning", "error", "loading"]

  /** `getIcon(type)` (src/content/overlay.js:327-346), naming the icon chosen. */
  function IconFor(kind: string): (r: string)
    ensures r in IconNames
    ensures kind in IconNames <==> r == kind
  {
    if kind in IconNames then kind else "info"
  }

  /** What `show` is given to display: a string, or content of another kind passed through as it is. */
  datatype Content = Text(text: string) | Markup(html: string)

  /** `replace(/\\n/g, '\n')`: every backslash followed by `n` becomes a line break. */
  function Unescape(s: string): (r: string)
    ensures |r| <= |s|
    ensures (forall i :: 0 <= i < |s| ==> s[i] != '\\') ==> r == s
  {
    if |s| == 0 then ""
    else if |s| >= 2 && s[0] == '\\' && s[1] == 'n' then "\n" + Unescape(s[2..])
    else [s[0]] + Unescape(s[1..])
  }

  /** `split('\n')`: the pieces between line breaks; always at least one. */
  function Lines(s: string): (r: seq<string>)
    ensures |r| >= 1
    ensures forall i :: 0 <= i < |r| ==> '\n' !in r[i]
  {
    if |s| == 0 then [""]
    else if s[0] == '\n' then [""] + Lines(s[1..])
    else var rest := Lines(s[1..]); [[s[0]] + rest[0]] + rest[1..]
  }

  /** Splitting on line breaks loses nothing: joining the lines again gives the text back. */
  lemma {:induction false} LinesJoin(s: string)
    ensures Join(Lines(s), "\n") == s
  {
    if |s| > 0 {
      LinesJoin(s[1..]);
      var rest := Lines(s[1..]);
      if s[0] == '\n' {
        assert Lines(s) == [""] + rest;
        assert Join(Lines(s), "\n") == "" + "\n" + Join(rest, "\n");
      } else {
        JoinExtendsHead([s[0]], rest, "\n");
      }
    }
  }

  lemma JoinExtendsHead(c: string, rest: seq<string>, sep: string)
    requires |rest| >= 1
    ensures Join([c + rest[0]] + rest[1..], sep) == c + Join(rest, sep)
  {
    var xs := [c + rest[0]] + rest[1..];
    assert xs[1..] == rest[1..];
    if |rest| > 1 {
      assert Join(xs, sep) == xs[0] + sep + Join(rest[1..], sep);
    }
  }

  /** Non-empty, with no white space at either end. */
  predicate Tight(p: string) {
    |p| > 0 && !IsSpace(p[0]) && !IsSpace(p[|p| - 1])
  }

  /** Every piece is non-empty with no white space at either end. */
  predicate AllTight(ps: seq<string>) {
    forall i :: 0 <= i < |ps| ==> Tight(ps[i])
  }

  /** No piece holds a line break. */
  predicate NoBreaks(ps: seq<string>) {
    forall i :: 0 <= i < |ps| ==> '\n' !in ps[i]
  }

  lemma ConsKeepsShape(t: string, rest: seq<string>)
    requires Tight(t) && AllTight(rest)
    ensures AllTight([t] + rest)
    ensures '\n' !in t && NoBreaks(rest) ==> NoBreaks([t] + rest)
  {
    forall i | 0 < i < |[t] + rest| ensures ([t] + rest)[i] == rest[i - 1] { }
  }

  lemma TailNoBreaks(lines: seq<string>)
    requires |lines| > 0
    ensures NoBreaks(lines) ==> NoBreaks(lines[1..]) && '\n' !in lines[0]
  {
    if NoBreaks(lines) {
      forall i | 0 <= i < |lines[1..]| ensures '\n' !in lines[1..][i] {
        assert lines[1..][i] == lines[i + 1];
      }
    }
  }

  /** The trimmed non-blank lines, in order. */
  function Kept(lines: seq<string>): (r: seq<string>)
    ensures |r| <= |lines|
    ensures AllTight(r)
    ensures NoBreaks(lines) ==> NoBreaks(r)
  {
    if |lines| == 0 then []
    else
      var t := Trim(lines[0]);
      var rest := Kept(lines[1..]);
      TailNoBreaks(lines);
      KeepsNoNewline(lines[0]);
      if t == "" then rest
      else
        ConsKeepsShape(t, rest);
        [t] + rest
  }

  lemma KeepsNoNewline(s: string)
    ensures '\n' !in s ==> '\n' !in Trim(s)
  {
    var a := TrimIsSlice(s);
    if '\n' !in s {
      forall i | 0 <= i < |Trim(s)| ensures Trim(s)[i] != '\n' {
        assert Trim(s)[i] == s[a + i];
      }
    }
  }

  /** The paragraphs `formatContent` makes of a string. */
  function Paragraphs(s: string): (r: seq<string>)
    ensures forall i :: 0 <= i < |r| ==> Tight(r[i]) && '\n' !in r[i]
  {
    Kept(Lines(Unescape(s)))
  }

  function Wrapped(ps: seq<string>): string {
    if |ps| == 0 then "" else "<p>" + ps[0] + "</p>" + Wrapped(ps[1..])
  }

  /** `formatContent(content)` (src/content/overlay.js:357-371), without the bold, italic and code markup. */
  function FormatContent(content: Content): string {
    match content
    case Text(s) => Wrapped(Paragraphs(s))
    case Markup(html) => html
  }

  /** Lines are kept or dropped one at a time, in order: filtering distributes over concatenation. */
  lemma {:induction false} KeptAppend(a: seq<string>, b: seq<string>)
    ensures Kept(a + b) == Kept(a) + Kept(b)
    decreases |a|
  {
    if |a| == 0 {
      assert a + b == b;
    } else {
      assert (a + b)[0] == a[0];
      assert (a + b)[1..] == a[1..] + b;
      KeptAppend(a[1..], b);
    }
  }

  /** One line is kept, trimmed, exactly when it is not blank. */
  lemma KeptOne(line: string)
    ensures Kept([line]) == if Trim(line) == "" then [] else [Trim(line)]
  {
    assert [line][1..] == [];
  }

  /** `split('\n')` of a text with one character in front. */
  lemma LinesCons(c: char, y: string)
    ensures Lines([c] + y) == if c == '\n' then [""] + Lines(y) else [[c] + Lines(y)[0]] + Lines(y)[1..]
  {
    assert ([c] + y)[0] == c && ([c] + y)[1..] == y;
  }

  /** `split('\n')` of two texts joined by a line break: the lines of the first, then those of the second. */
  lemma {:induction false} LinesAppend(a: string, b: string)
    ensures Lines(a + "\n" + b) == Lines(a) + Lines(b)
    decreases |a|
  {
    if |a| == 0 {
      LinesAppendFirstEmpty(a, b);
    } else {
      LinesAppend(a[1..], b);
      LinesAppendStep(a, b);
    }
  }

  lemma LinesAppendFirstEmpty(a: string, b: string)
    requires |a| == 0
    ensures Lines(a + "\n" + b) == Lines(a) + Lines(b)
  {
    assert a + "\n" + b == ['\n'] + b;
    LinesCons('\n', b);
    assert Lines(a) == [""];
  }

  lemma LinesAppendStep(a: string, b: string)
    requires |a| > 0
    requires Lines(a[1..] + "\n" + b) == Lines(a[1..]) + Lines(b)
    ensures Lines(a + "\n" + b) == Lines(a) + Lines(b)
  {
    var c, y := a[0], a[1..];
    assert a == [c] + y;
    assert a + "\n" + b == [c] + (y + "\n" + b);
    LinesCons(c, y + "\n" + b);
    LinesCons(c, y);
    if c == '\n' {
      LinesRegroup([""], Lines(y), Lines(b));
    } else {
      LinesTail(c, Lines(y), Lines(b));
    }
  }

  lemma LinesRegroup(p: seq<string>, q: seq<string>, r: seq<string>)
    ensures p + (q + r) == p + q + r
  {
  }

  /** Putting a character in front of the first line commutes with appending more lines. */
  lemma LinesTail(c: char, ly: seq<string>, lb: seq<string>)
    requires |ly| >= 1
    ensures (ly + lb)[0] == ly[0] && (ly + lb)[1..] == ly[1..] + lb
    ensures [[c] + ly[0]] + ly[1..] + lb == [[c] + (ly + lb)[0]] + (ly + lb)[1..]
  {
  }

  /** `replace(/\\n/g, '\n')` on a text with one character in front that is not a backslash. */
  lemma UnescapeCons(c: char, y: string)
    requires c != '\\'
    ensures Unescape([c] + y) == [c] + Unescape(y)
  {
    assert ([c] + y)[0] == c && ([c] + y)[1..] == y;
  }

  /** `replace(/\\n/g, '\n')` passes over backslash-free text unchanged. */
  lemma {:induction false} UnescapePlain(a: string, x: string)
    requires forall i :: 0 <= i < |a| ==> a[i] != '\\'
    ensures Unescape(a + x) == a + Unescape(x)
    decreases |a|
  {
    if |a| == 0 {
      assert a + x == x;
    } else {
      UnescapePlain(a[1..], x);
      UnescapePlainStep(a, x);
    }
  }

  lemma UnescapePlainStep(a: string, x: string)
    requires |a| > 0 && a[0] != '\\'
    requires Unescape(a[1..] + x) == a[1..] + Unescape(x)
    ensures Unescape(a + x) == a + Unescape(x)
  {
    var c, y := a[0], a[1..];
    assert a == [c] + y;
    Regroup([c], y, x);
    UnescapeCons(c, y + x);
    Regroup([c], y, Unescape(x));
  }

  /** In backslash-free text a line break stays a line break. */
  lemma UnescapeBreak(a: string, b: string)
    requires forall i :: 0 <= i < |a| ==> a[i] != '\\'
    requires forall i :: 0 <= i < |b| ==> b[i] != '\\'
    ensures Unescape(a + "\n" + b) == a + "\n" + b
  {
    Regroup(a, "\n", b);
    UnescapePlain(a, "\n" + b);
    UnescapeCons('\n', b);
    assert "\n" + b == ['\n'] + b;
  }

  /** In backslash-free text the two characters `\n` become a line break. */
  lemma UnescapeEscapedBreak(a: string, b: string)
    requires forall i :: 0 <= i < |a| ==> a[i] != '\\'
    requires forall i :: 0 <= i < |b| ==> b[i] != '\\'
    ensures Unescape(a + "\\n" + b) == a + "\n" + b
  {
    Regroup(a, "\\n", b);
    UnescapePlain(a, "\\n" + b);
    var x := "\\n" + b;
    assert x[0] == '\\' && x[1] == 'n' && x[2..] == b;
    assert Unescape(x) == "\n" + Unescape(b);
    Regroup(a, "\n", b);
  }

  /** The two separators `formatContent` splits at, a line break or the two characters `\n`, turn into a line break. */
  lemma UnescapeSeparators(a: string, b: string)
    requires forall i :: 0 <= i < |a| ==> a[i] != '\\'
    requires forall i :: 0 <= i < |b| ==> b[i] != '\\'
    ensures Unescape(a + "\n" + b) == a + "\n" + b
    ensures Unescape(a + "\\n" + b) == a + "\n" + b
  {
    UnescapeBreak(a, b);
    UnescapeEscapedBreak(a, b);
  }

  /** A text that unescapes to `a`, a line break and `b` has the paragraphs of `a`, then those of `b`. */
  lemma ParagraphsJoined(a: string, b: string, x: string)
    requires Unescape(x) == a + "\n" + b && Unescape(a) == a && Unescape(b) == b
    ensures Paragraphs(x) == Paragraphs(a) + Paragraphs(b)
  {
    LinesAppend(a, b);
    KeptAppend(Lines(a), Lines(b));
  }

  /**
    Backslash-free texts joined by a line break, or by the two characters
    `\n`, give the paragraphs of the first text followed by those of the
    second.
   */
  lemma ParagraphsAppend(a: string, b: string)
    requires forall i :: 0 <= i < |a| ==> a[i] != '\\'
    requires forall i :: 0 <= i < |b| ==> b[i] != '\\'
    ensures Paragraphs(a + "\n" + b) == Paragraphs(a) + Paragraphs(b)
    ensures Paragraphs(a + "\\n" + b) == Paragraphs(a) + Paragraphs(b)
  {
    UnescapeSeparators(a, b);
    assert Unescape(a) == a && Unescape(b) == b;
    ParagraphsJoined(a, b, a + "\n" + b);
    ParagraphsJoined(a, b, a + "\\n" + b);
  }

  lemma {:induction false} WrappedAppend(ps: seq<string>, qs: seq<string>)
    ensures Wrapped(ps + qs) == Wrapped(ps) + Wrapped(qs)
    decreases |ps|
  {
    if |ps| == 0 {
      assert ps + qs == qs;
    } else {
      assert (ps + qs)[0] == ps[0];
      assert (ps + qs)[1..] == ps[1..] + qs;
      WrappedAppend(ps[1..], qs);
    }
  }

  /**
    `formatContent` works line by line: for backslash-free texts joined by a
    line break or by `\n`, the markup is that of the first text followed by
    that of the second. With `SingleLineFormatting` this gives one `<p>` per
    non-blank line, trimmed, in order.
   */
  lemma FormatByLine(a: string, b: string)
    requires forall i :: 0 <= i < |a| ==> a[i] != '\\'
    requires forall i :: 0 <= i < |b| ==> b[i] != '\\'
    ensures FormatContent(Text(a + "\n" + b)) == FormatContent(Text(a)) + FormatContent(Text(b))
    ensures FormatContent(Text(a + "\\n" + b)) == FormatContent(Text(a)) + FormatContent(Text(b))
  {
    ParagraphsAppend(a, b);
    WrappedAppend(Paragraphs(a), Paragraphs(b));
  }

  /** A single non-blank line becomes one paragraph holding its trimmed text; a blank one, nothing. */
  lemma SingleLineFormatting(s: string)
    requires forall i :: 0 <= i < |s| ==> s[i] != '\\' && s[i] != '\n'
    ensures Trim(s) != "" ==> FormatContent(Text(s)) == "<p>" + Trim(s) + "</p>"
    ensures Trim(s) == "" ==> FormatContent(Text(s)) == ""
  {
    assert Unescape(s) == s;
    LinesOfOneLine(s);
    var ps := if Trim(s) != "" then [Trim(s)] else [];
    assert [s][1..] == [];
    assert Kept([s]) == ps + [];
    assert Paragraphs(s) == ps;
    if Trim(s) != "" {
      assert Wrapped(ps) == "<p>" + Trim(s) + "</p>" + Wrapped([]);
    }
  }

  lemma {:induction false} LinesOfOneLine(s: string)
    requires '\n' !in s
    ensures Lines(s) == [s]
  {
    if |s| > 0 {
      LinesOfOneLine(s[1..]);
      assert [s[0]] + s[1..] == s;
    }
  }

  /** The overlay as the page holds it (src/content/overlay.js:4-444). */
  class VoxMateOverlay {
    var overlay: Option<nat>
    var mounted: set<nat>
    var timeoutId: Option<nat>
    var currentLoadingId: Option<string>
    var pending: seq<Timer>
    var nextNode: nat
    var nextTimer: nat

    function Snapshot(): State
      reads this
    {
      State(overlay, mounted, timeoutId, currentLoadingId, pending, nextNode, nextTimer)
    }

    constructor ()
      ensures Snapshot() == Initial && Valid(Snapshot())
    {
      overlay, mounted, timeoutId, currentLoadingId := None, {}, None, None;
      pending, nextNode, nextTimer := [], 0, 1;
    }

    method RemoveOverlay()
      modifies this
      ensures Snapshot() == RemoveOverlaySpec(old(Snapshot()))
    {
      if timeoutId.Some? {
        pending := Cancel(pending, timeoutId.value);
        timeoutId := None;
      }
      currentLoadingId := None;
      if overlay.Some? {
        pending := pending + [DeferredRemoval];
      }
    }

    method CreateOverlay() returns (node: nat)
      modifies this
      ensures Snapshot() == CreateOverlaySpec(old(Snapshot())) && overlay == Some(node)
    {
      RemoveOverlay();
      node := nextNode;
      overlay := Some(node);
      mounted := mounted + {node};
      nextNode := nextNode + 1;
    }

    /** Arm the auto-hide timer: its number becomes the stored timeout and its callback is queued. */
    method ArmAutoHide(duration: nat)
      modifies this
      ensures Snapshot() == old(Snapshot()).(timeoutId := Some(old(nextTimer)), pending := old(pending) + [AutoHide(old(nextTimer), duration)], nextTimer := old(nextTimer) + 1)
    {
      timeoutId := Some(nextTimer);
      pending := pending + [AutoHide(nextTimer, duration)];
      nextTimer := nextTimer + 1;
    }

    /** Show `content`; the element's rendered body is returned alongside its number. */
    method Show(content: Content, o: Options) returns (node: nat, body: string)
      modifies this
      ensures Snapshot() == ShowSpec(old(Snapshot()), o) && overlay == Some(node)
      ensures o.kind != "loading" ==> body == FormatContent(content)
    {
      body := if o.kind == "loading" then (match content case Text(s) => s case Markup(h) => h) else FormatContent(content);
      if o.kind == "loading" && Truthy(o.loadingId) {
        currentLoadingId := o.loadingId;
      }
      node := CreateOverlay();
      if o.autoHide && o.kind != "loading" {
        ArmAutoHide(o.duration);
      }
    }

    method RemoveLoading(id: Option<string>)
      modifies this
      ensures Snapshot() == RemoveLoadingSpec(old(Snapshot()), id)
    {
      if currentLoadingId == id {
        RemoveOverlay();
      }
    }

    method Escape()
      modifies this
      ensures Snapshot() == EscapeSpec(old(Snapshot()))
    {
      if overlay.Some? {
        RemoveOverlay();
      }
    }

    /** The browser runs the queued callback at position `k`. */
    method Fire(k: nat)
      requires k < |pending|
      modifies this
      ensures Snapshot() == FireSpec(old(Snapshot()), k)
    {
      var t := pending[k];
      pending := RemoveAt(pending, k);
      match t
      case AutoHide(_, _) =>
        RemoveOverlay();
      case DeferredRemoval =>
        if overlay.Some? && overlay.value in mounted {
          mounted := mounted - {overlay.value};
          overlay := None;
        }
    }
  }
}
