/**
  How `translatePage` writes a translation back into the page: the
  translated text is split into words, and the page's text nodes, in
  document order, are rewritten one by one. A node is rewritten only when
  its trimmed text has more than two words; it then receives as many of the
  next translated words as it had words of its own (fewer when the
  translation runs out), joined by single spaces, and the cursor into the
  translation moves on by its own word count. Both content scripts do this
  alike. A text node is modelled by its `nodeValue`; the tree walk is the
  array's index order.
 */
module PageTranslation {
  import opened Wrappers
  import opened Text

  /**
    `node.nodeValue.trim().split(/\s+/).length`: the node's number of words,
    or 1 for a blank node (see `WordCountIsSplitLength`).
   */
  function WordCount(value: string): (n: nat)
    ensures n >= 1
  {
    var r := Runs(value);
    if r == 0 then 1 else r
  }

  /** The word count is the length of the list the script splits the trimmed value into. */
  lemma WordCountIsSplitLength(value: string)
    ensures WordCount(value) == |SplitWs(Trim(value))|
  {
    SplitOfTrimCountsWords(value);
  }

  /** `words.length > 2`: the node takes part in the redistribution. */
  predicate Eligible(value: string) {
    WordCount(value) > 2
  }

  /** `Array.prototype.slice(from, to)` on a list of words, with both ends clamped to its length. */
  function Slice(xs: seq<string>, from: nat, to: nat): (r: seq<string>)
    ensures |r| <= |xs|
    ensures from <= to <= |xs| ==> r == xs[from..to]
    ensures |xs| <= from ==> r == []
    ensures from <= |xs| && to <= |xs| && from <= to ==> |r| == to - from
  {
    var a := if from <= |xs| then from else |xs|;
    var b := if to <= |xs| then to else |xs|;
    if a <= b then xs[a..b] else []
  }

  /** `count` applied to every node value, in walk order. */
  function CountsBy(values: seq<string>, count: string -> nat): (r: seq<nat>)
    ensures |r| == |values|
    decreases |values|
  {
    if |values| == 0 then [] else CountsBy(values[..|values| - 1], count) + [count(values[|values| - 1])]
  }

  lemma {:induction false} CountsByAt(values: seq<string>, count: string -> nat, k: nat)
    requires k < |values|
    ensures CountsBy(values, count)[k] == count(values[k])
    decreases |values|
  {
    var m := |values| - 1;
    if k < m {
      CountsByAt(values[..m], count, k);
      assert values[..m][k] == values[k];
    }
  }

  /** The word count of every node, in walk order. */
  function Counts(values: seq<string>): seq<nat> {
    CountsBy(values, WordCount)
  }

  /**
    The cursor `index` when the walk reaches node `k`, given each node's word
    count: the counts of the rewritten nodes (those above two) before it.
   */
  function CursorBefore(counts: seq<nat>, k: nat): nat
    requires k <= |counts|
  {
    if k == 0 then 0
    else CursorBefore(counts, k - 1) + (if counts[k - 1] > 2 then counts[k - 1] else 0)
  }

  /** The translated words node `k` receives: none when it is left alone. */
  function Taken(counts: seq<nat>, words: seq<string>, k: nat): (r: seq<string>)
    requires k < |counts|
    ensures counts[k] <= 2 ==> r == []
    ensures |r| <= counts[k]
  {
    if counts[k] > 2 then
      var c := CursorBefore(counts, k);
      Slice(words, c, c + counts[k])
    else []
  }

  /** Node `k`'s value after the walk. */
  function NewValue(values: seq<string>, counts: seq<nat>, words: seq<string>, k: nat): string
    requires |counts| == |values| && k < |values|
  {
    if counts[k] > 2 then
      var c := CursorBefore(counts, k);
      Join(Slice(words, c, c + counts[k]), " ")
    else values[k]
  }

  /** The node values after the walk, given each node's word count. */
  function Placed(values: seq<string>, counts: seq<nat>, words: seq<string>): (r: seq<string>)
    requires |counts| == |values|
    ensures |r| == |values|
  {
    seq(|values|, k requires 0 <= k < |values| => NewValue(values, counts, words, k))
  }

  lemma PlacedAll(values: seq<string>, counts: seq<nat>, words: seq<string>)
    requires |counts| == |values|
    ensures forall k :: 0 <= k < |values| ==> Placed(values, counts, words)[k] == NewValue(values, counts, words, k)
  {
  }

  /** The node values after redistributing `words` over `values`. */
  function Redistributed(values: seq<string>, words: seq<string>): seq<string> {
    Placed(values, Counts(values), words)
  }

  function Min(a: nat, b: nat): nat {
    if a <= b then a else b
  }

  /**
    The translated words are handed out in order, each at most once and none
    skipped: node `k` receives exactly the words from the cursor before it up
    to the cursor after it (both clamped to the translation's length). The
    cursor starts at 0 and never moves back (`CursorMonotone`), so the pieces
    follow one another through the translation.
   */
  lemma WordsHandedOutInOrder(counts: seq<nat>, words: seq<string>, k: nat)
    requires k < |counts|
    ensures Min(CursorBefore(counts, k), |words|) <= Min(CursorBefore(counts, k + 1), |words|)
    ensures Taken(counts, words, k) == words[Min(CursorBefore(counts, k), |words|)..Min(CursorBefore(counts, k + 1), |words|)]
  {
    if counts[k] > 2 {
      SliceClamped(words, CursorBefore(counts, k), CursorBefore(counts, k + 1));
    }
  }

  /** Both ends of `slice` are clamped to the length. */
  lemma SliceClamped(xs: seq<string>, from: nat, to: nat)
    requires from <= to
    ensures Slice(xs, from, to) == xs[Min(from, |xs|)..Min(to, |xs|)]
  {
  }

  /** The cursor never moves backwards. */
  lemma {:induction false} CursorMonotone(counts: seq<nat>, j: nat, k: nat)
    requires j <= k <= |counts|
    ensures CursorBefore(counts, j) <= CursorBefore(counts, k)
    decreases k - j
  {
    if j < k {
      CursorMonotone(counts, j, k - 1);
    }
  }

  /** The words a rewritten node takes, while the translation lasts, start at the cursor. */
  lemma TakenFromCursor(counts: seq<nat>, words: seq<string>, k: nat)
    requires k < |counts| && counts[k] > 2
    requires CursorBefore(counts, k) + counts[k] <= |words|
    ensures Taken(counts, words, k) == words[CursorBefore(counts, k)..CursorBefore(counts, k) + counts[k]]
  {
  }

  /**
    A rewritten node (one whose word count is above two) receives exactly
    its own word count of translated words while the translation lasts, the
    words starting at the cursor.
   */
  lemma RewrittenNodeGetsItsWords(values: seq<string>, counts: seq<nat>, words: seq<string>, k: nat)
    requires |counts| == |values| && k < |values| && counts[k] > 2
    requires CursorBefore(counts, k) + counts[k] <= |words|
    ensures Placed(values, counts, words)[k]
            == Join(words[CursorBefore(counts, k)..CursorBefore(counts, k) + counts[k]], " ")
  {
    TakenFromCursor(counts, words, k);
  }

  /** With a translation too short, a rewritten node gets only the words that are left, and none past the end. */
  lemma RewrittenNodeWhenWordsRunOut(values: seq<string>, counts: seq<nat>, words: seq<string>, k: nat)
    requires |counts| == |values| && k < |values| && counts[k] > 2
    requires |words| < CursorBefore(counts, k) + counts[k]
    ensures CursorBefore(counts, k) <= |words| ==> Placed(values, counts, words)[k] == Join(words[CursorBefore(counts, k)..], " ")
    ensures |words| <= CursorBefore(counts, k) ==> Placed(values, counts, words)[k] == ""
  {
    var c := CursorBefore(counts, k);
    var t := Taken(counts, words, k);
    if c <= |words| {
      assert t == words[c..];
    } else {
      assert t == [];
    }
  }

  /** A node of at most two words keeps its text. */
  lemma ShortNodeKept(values: seq<string>, words: seq<string>, k: nat)
    requires k < |values| && !Eligible(values[k])
    ensures Redistributed(values, words)[k] == values[k]
  {
    CountsByAt(values, WordCount, k);
    PlacedAll(values, Counts(values), words);
  }

  /** A page with no node of more than two words is left exactly as it was, whatever the translation. */
  lemma NoLongNodeNoChange(values: seq<string>, words: seq<string>)
    requires forall k :: 0 <= k < |values| ==> !Eligible(values[k])
    ensures Redistributed(values, words) == values
  {
    forall k | 0 <= k < |values|
      ensures Redistributed(values, words)[k] == values[k]
    {
      ShortNodeKept(values, words, k);
    }
  }

  /**
    The walker loop (src/content/content.js:238-250, content.js:208-219):
    `index` is the cursor into `translatedText.split(/\s+/)`.
   */
  method Redistribute(nodes: array<string>, translatedText: string)
    modifies nodes
    ensures nodes[..] == Redistributed(old(nodes[..]), SplitWs(translatedText))
  {
    var translatedWords := SplitWs(translatedText);
    ghost var values := nodes[..];
    ghost var counts := Counts(values);
    var index := 0;
    var i := 0;
    while i < nodes.Length
      invariant 0 <= i <= nodes.Length
      invariant index == CursorBefore(counts, i)
      invariant forall k :: 0 <= k < i ==> nodes[k] == NewValue(values, counts, translatedWords, k)
      invariant forall k :: i <= k < nodes.Length ==> nodes[k] == values[k]
    {
      CountsByAt(values, WordCount, i);
      index := VisitNode(nodes, i, index, translatedWords, values, counts);
      i := i + 1;
    }
    PlacedAll(values, counts, translatedWords);
    assert nodes[..] == Placed(values, counts, translatedWords);
  }

  /** One step of the walk: rewrite node `i` if it has more than two words, and return the moved cursor. */
  method VisitNode(nodes: array<string>, i: nat, index: nat, translatedWords: seq<string>,
                   ghost values: seq<string>, ghost counts: seq<nat>) returns (next: nat)
    requires i < nodes.Length == |values| == |counts| && counts[i] == WordCount(values[i])
    requires nodes[i] == values[i] && index == CursorBefore(counts, i)
    modifies nodes
    ensures next == CursorBefore(counts, i + 1)
    ensures nodes[i] == NewValue(values, counts, translatedWords, i)
    ensures forall k :: 0 <= k < nodes.Length && k != i ==> nodes[k] == old(nodes[k])
  {
    var n := WordCount(nodes[i]);
    next := index;
    if n > 2 {
      nodes[i] := Join(Slice(translatedWords, index, index + n), " ");
      next := index + n;
    }
  }

  /** The background's answer to `translate_auto`, as the callback sees it. */
  datatype Response = Response(success: bool, result: Option<string>, error: Option<string>)

  /** Which content script translates. */
  datatype Copy = Src | Legacy

  /** What the user is told at the end. */
  datatype Notice = Completed | TranslationFailed(message: string) | ApplicationError | Silent

  /**
    The failure text: `Translation failed: ${response?.error || 'Unknown error'}`
    in the newer script; the older one interpolates `response?.error` as is,
    so a missing error reads "undefined".
   */
  function FailureMessage(copy: Copy, response: Option<Response>): (m: string)
    ensures response.Some? && response.value.error.Some? && response.value.error.value != ""
            ==> m == "Translation failed: " + response.value.error.value
    ensures (response.None? || response.value.error.None?)
            ==> m == "Translation failed: " + (if copy.Src? then "Unknown error" else "undefined")
  {
    var prefix := "Translation failed: ";
    match response
    case Some(Response(_, _, Some(e))) =>
      if e != "" || copy.Legacy? then prefix + e else prefix + "Unknown error"
    case _ => prefix + (if copy.Src? then "Unknown error" else "undefined")
  }

  /**
    The `translate_auto` callback of `translatePage`. The page is rewritten
    only on a successful reply that carries a text; `ok` is what the newer
    script resolves with. A successful reply without a text makes `split`
    throw before any node changes: the newer script reports an application
    error, the older one stays silent. The older script reports a failure
    through `alert`, modelled as the same notice, and says nothing on success.
   */
  method TranslatePage(copy: Copy, nodes: array<string>, response: Option<Response>) returns (ok: bool, notice: Notice)
    modifies nodes
    ensures ok <==> response.Some? && response.value.success && response.value.result.Some?
    ensures ok ==> nodes[..] == Redistributed(old(nodes[..]), SplitWs(response.value.result.value))
    ensures ok ==> notice == if copy.Src? then Completed else Silent
    ensures !ok ==> nodes[..] == old(nodes[..])
    ensures (response.None? || !response.value.success) ==> notice == TranslationFailed(FailureMessage(copy, response))
    ensures response.Some? && response.value.success && response.value.result.None?
            ==> notice == (if copy.Src? then ApplicationError else Silent)
  {
    if response.None? || !response.value.success {
      return false, TranslationFailed(FailureMessage(copy, response));
    }
    if response.value.result.None? {
      return false, if copy.Src? then ApplicationError else Silent;
    }
    Redistribute(nodes, response.value.result.value);
    return true, if copy.Src? then Completed else Silent;
  }
}
