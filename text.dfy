/**
  String primitives the extension's scripts rely on, written out with the
  meaning JavaScript gives them: `String.prototype.trim`, `toLowerCase`
  (ASCII letters only), `includes`, `startsWith`, `endsWith`,
  `split(/\s+/)`, `join` and `replace(/\s+/g, " ")`.
 */
module Text {

  /** The characters JavaScript's `trim` and the regular-expression class `\s` treat as white space. */
  predicate IsSpace(c: char) {
    c == ' ' || c == '\t' || c == '\n' || c == '\r' || c == '\U{b}' || c == '\U{c}'
    || c == '\U{a0}' || c == '\U{1680}' || ('\U{2000}' <= c <= '\U{200a}')
    || c == '\U{2028}' || c == '\U{2029}' || c == '\U{202f}' || c == '\U{205f}'
    || c == '\U{3000}' || c == '\U{feff}'
  }

  /** The characters of the regular-expression class `\w`; `\b` sits between one of these and anything else. */
  predicate IsWordChar(c: char) {
    ('a' <= c <= 'z') || ('A' <= c <= 'Z') || ('0' <= c <= '9') || c == '_'
  }

  function LowerChar(c: char): (r: char)
    ensures 'A' <= c <= 'Z' ==> 'a' <= r <= 'z'
    ensures !('A' <= c <= 'Z') ==> r == c
  {
    if 'A' <= c <= 'Z' then (c as int + 32) as char else c
  }

  /** `toLowerCase`, folding ASCII letters only. */
  function Lower(s: string): (r: string)
    ensures |r| == |s|
    ensures forall i :: 0 <= i < |s| ==> r[i] == LowerChar(s[i])
  {
    seq(|s|, i requires 0 <= i < |s| => LowerChar(s[i]))
  }

  /** `s` has no ASCII capital, so `toLowerCase` leaves it alone. */
  predicate NoUpper(s: string) {
    forall i :: 0 <= i < |s| ==> !('A' <= s[i] <= 'Z')
  }

  /** Lower-casing is idempotent, and leaves exactly the capital-free strings unchanged. */
  lemma LowerFixedPoints(s: string)
    ensures Lower(s) == s <==> NoUpper(s)
    ensures Lower(Lower(s)) == Lower(s)
  {
    if Lower(s) == s {
      forall i | 0 <= i < |s| ensures !('A' <= s[i] <= 'Z') {
        assert s[i] == LowerChar(s[i]);
      }
    }
  }

  predicate StartsWith(s: string, p: string) {
    |p| <= |s| && s[..|p|] == p
  }

  predicate EndsWith(s: string, p: string) {
    |p| <= |s| && s[|s| - |p|..] == p
  }

  /** `p` occurs in `s` starting at position `i`. */
  predicate OccursAt(s: string, p: string, i: nat) {
    i + |p| <= |s| && s[i..i + |p|] == p
  }

  /** `s.includes(p)`: `p` occurs at some position of `s`. */
  predicate Contains(s: string, p: string) {
    exists i: nat | i <= |s| :: OccursAt(s, p, i)
  }

  /** Drops the leading white space; what is left is a suffix of `s`. */
  function TrimStart(s: string): (r: string)
    ensures |r| <= |s| && r == s[|s| - |r|..]
    ensures |r| > 0 ==> !IsSpace(r[0])
    ensures forall i :: 0 <= i < |s| - |r| ==> IsSpace(s[i])
    decreases |s|
  {
    if |s| > 0 && IsSpace(s[0]) then TrimStart(s[1..]) else s
  }

  /** Drops the trailing white space; what is left is a prefix of `s`. */
  function TrimEnd(s: string): (r: string)
    ensures |r| <= |s| && r == s[..|r|]
    ensures |r| > 0 ==> !IsSpace(r[|r| - 1])
    ensures forall i :: |r| <= i < |s| ==> IsSpace(s[i])
    decreases |s|
  {
    if |s| > 0 && IsSpace(s[|s| - 1]) then TrimEnd(s[..|s| - 1]) else s
  }

  /** `trim()`: a slice of `s` that neither starts nor ends with white space. */
  function Trim(s: string): (r: string)
    ensures |r| <= |s|
    ensures |r| > 0 ==> !IsSpace(r[0]) && !IsSpace(r[|r| - 1])
  {
    TrimEnd(TrimStart(s))
  }

  /** `Trim` cuts only white space: `s` is `r` with some white space around it. */
  lemma TrimIsSlice(s: string) returns (a: nat)
    ensures a + |Trim(s)| <= |s| && Trim(s) == s[a..a + |Trim(s)|]
    ensures forall i :: 0 <= i < a ==> IsSpace(s[i])
    ensures forall i :: a + |Trim(s)| <= i < |s| ==> IsSpace(s[i])
  {
    var t := TrimStart(s);
    a := |s| - |t|;
    var r := TrimEnd(t);
    assert Trim(s) == r;
    SuffixOfSuffix(s, t, r, a);
  }

  /** A prefix `r` of the suffix `t` of `s` that starts at `a`, followed by white space only in `t`. */
  lemma SuffixOfSuffix(s: string, t: string, r: string, a: nat)
    requires a <= |s| && t == s[a..] && |r| <= |t| && r == t[..|r|]
    requires forall i :: |r| <= i < |t| ==> IsSpace(t[i])
    ensures r == s[a..a + |r|]
    ensures forall i :: a + |r| <= i < |s| ==> IsSpace(s[i])
  {
    forall i | a + |r| <= i < |s|
      ensures IsSpace(s[i])
    {
      assert s[i] == t[i - a];
    }
  }

  /** A string that neither starts nor ends with white space trims to itself. */
  lemma TrimOfTrimmed(s: string)
    requires |s| > 0 ==> !IsSpace(s[0]) && !IsSpace(s[|s| - 1])
    ensures Trim(s) == s
  {
  }

  /** A string of white space only trims to the empty string. */
  lemma {:induction false} TrimOfBlank(s: string)
    requires forall i :: 0 <= i < |s| ==> IsSpace(s[i])
    ensures Trim(s) == ""
    decreases |s|
  {
    if |s| > 0 {
      TrimOfBlank(s[1..]);
    }
  }

  /** Trimming twice is trimming once. */
  lemma {:induction false} TrimIdempotent(s: string)
    ensures Trim(Trim(s)) == Trim(s)
  {
    var r := Trim(s);
    if |r| > 0 {
      assert TrimStart(r) == r;
      assert TrimEnd(r) == r;
    }
  }

  /** A string whose first character is white space trims to something strictly shorter. */
  lemma TrimStartShrinks(s: string)
    requires |s| > 0 && IsSpace(s[0])
    ensures |TrimStart(s)| < |s|
  {
  }

  /** Length of the longest prefix of `s` free of white space. */
  function WordLen(s: string): (n: nat)
    ensures n <= |s|
    ensures forall i :: 0 <= i < n ==> !IsSpace(s[i])
    ensures n < |s| ==> IsSpace(s[n])
    decreases |s|
  {
    if |s| == 0 || IsSpace(s[0]) then 0 else 1 + WordLen(s[1..])
  }

  predicate NoSpace(w: string) {
    forall i :: 0 <= i < |w| ==> !IsSpace(w[i])
  }

  /**
    `s.split(/\s+/)`: the pieces between maximal runs of white space. A
    leading run gives an empty first piece, a trailing run an empty last
    piece, and the empty string splits into one empty piece.
   */
  function SplitWs(s: string): (r: seq<string>)
    ensures |r| >= 1
    ensures forall k :: 0 <= k < |r| ==> NoSpace(r[k])
    decreases |s|
  {
    var n := WordLen(s);
    PrefixNoSpace(s, n);
    if n == |s| then
      assert s[..n] == s;
      [s]
    else
      TrimStartShrinks(s[n..]);
      var rest := SplitWs(TrimStart(s[n..]));
      ConsNoSpace(s[..n], rest);
      [s[..n]] + rest
  }

  /** A piece free of white space in front of pieces free of it. */
  lemma ConsNoSpace(w: string, rest: seq<string>)
    requires NoSpace(w) && forall k :: 0 <= k < |rest| ==> NoSpace(rest[k])
    ensures forall k :: 0 <= k < |[w] + rest| ==> NoSpace(([w] + rest)[k])
  {
  }

  /** A prefix free of white space, as a string of its own. */
  lemma PrefixNoSpace(s: string, n: nat)
    requires n <= |s| && forall i :: 0 <= i < n ==> !IsSpace(s[i])
    ensures NoSpace(s[..n])
  {
  }

  /** Splitting a trimmed, non-empty string gives no empty piece. */
  lemma {:induction false} SplitTrimmedHasNoEmptyPiece(s: string)
    requires |s| > 0 && !IsSpace(s[0]) && !IsSpace(s[|s| - 1])
    ensures forall k :: 0 <= k < |SplitWs(s)| ==> |SplitWs(s)[k]| > 0
    decreases |s|
  {
    var n := WordLen(s);
    if n < |s| {
      var rest := TrimStart(s[n..]);
      assert |rest| > 0 by {
        assert !IsSpace(s[n..][|s| - n - 1]);
      }
      assert rest[|rest| - 1] == s[|s| - 1];
      SplitTrimmedHasNoEmptyPiece(rest);
    }
  }

  /**
    How many maximal runs of non-space characters `s` holds; `prevSpace`
    says whether the character before `s` was white space (or there was none).
   */
  function RunsFrom(s: string, prevSpace: bool): nat
    decreases |s|
  {
    if |s| == 0 then 0
    else (if !IsSpace(s[0]) && prevSpace then 1 else 0) + RunsFrom(s[1..], IsSpace(s[0]))
  }

  /** The number of words in `s`: its maximal runs of non-space characters. */
  function Runs(s: string): nat {
    RunsFrom(s, true)
  }

  lemma {:induction false} RunsOfBlank(s: string, p: bool)
    requires forall i :: 0 <= i < |s| ==> IsSpace(s[i])
    ensures RunsFrom(s, p) == 0
    decreases |s|
  {
    if |s| > 0 {
      RunsOfBlank(s[1..], true);
    }
  }

  lemma {:induction false} RunsAfterWord(w: string, rest: string)
    requires NoSpace(w)
    ensures RunsFrom(w + rest, false) == RunsFrom(rest, false)
    decreases |w|
  {
    if |w| == 0 {
      assert w + rest == rest;
    } else {
      assert (w + rest)[1..] == w[1..] + rest;
      RunsAfterWord(w[1..], rest);
    }
  }

  lemma {:induction false} RunsOfTrimStart(s: string)
    ensures Runs(TrimStart(s)) == Runs(s)
    decreases |s|
  {
    if |s| > 0 && IsSpace(s[0]) {
      RunsOfTrimStart(s[1..]);
    }
  }

  lemma {:induction false} RunsOfTrailingBlank(a: string, b: string, p: bool)
    requires forall i :: 0 <= i < |b| ==> IsSpace(b[i])
    ensures RunsFrom(a + b, p) == RunsFrom(a, p)
    decreases |a|
  {
    if |a| == 0 {
      assert a + b == b;
      RunsOfBlank(b, p);
    } else {
      assert (a + b)[1..] == a[1..] + b;
      RunsOfTrailingBlank(a[1..], b, IsSpace(a[0]));
    }
  }

  lemma RunsOfTrimEnd(s: string, p: bool)
    ensures RunsFrom(TrimEnd(s), p) == RunsFrom(s, p)
  {
    var r := TrimEnd(s);
    assert s == r + s[|r|..];
    RunsOfTrailingBlank(r, s[|r|..], p);
  }

  /** A string that opens with a word of length `n` holds one word more than what follows it. */
  lemma RunsOfLeadingWord(t: string, n: nat)
    requires 0 < n <= |t| && NoSpace(t[..n])
    ensures Runs(t) == 1 + RunsFrom(t[n..], false)
  {
    assert t[1..] == t[1..n] + t[n..];
    assert NoSpace(t[1..n]) by {
      assert forall i :: 0 <= i < n - 1 ==> t[1..n][i] == t[..n][i + 1];
    }
    RunsAfterWord(t[1..n], t[n..]);
    assert !IsSpace(t[..n][0]);
  }

  /** Splitting a trimmed, non-empty string gives one piece per word. */
  lemma {:induction false} SplitCountsRuns(t: string)
    requires |t| > 0 && !IsSpace(t[0]) && !IsSpace(t[|t| - 1])
    ensures |SplitWs(t)| == Runs(t)
    decreases |t|
  {
    var n := WordLen(t);
    RunsOfLeadingWord(t, n);
    if n < |t| {
      var tail := t[n..];
      var rest := TrimStart(tail);
      assert RunsFrom(tail, false) == Runs(tail);
      RunsOfTrimStart(tail);
      assert |rest| > 0 by {
        assert !IsSpace(tail[|tail| - 1]);
      }
      assert rest[|rest| - 1] == t[|t| - 1];
      SplitCountsRuns(rest);
      assert SplitWs(t) == [t[..n]] + SplitWs(rest);
    }
  }

  /**
    `s.trim().split(/\s+/).length` is the number of words in `s`, or 1 when
    there is none (the empty string splits into one empty piece).
   */
  lemma SplitOfTrimCountsWords(s: string)
    ensures |SplitWs(Trim(s))| == if Runs(s) == 0 then 1 else Runs(s)
  {
    RunsOfTrimStart(s);
    RunsOfTrimEnd(TrimStart(s), true);
    var t := Trim(s);
    assert Runs(t) == Runs(s);
    if |t| == 0 {
      assert SplitWs(t) == [t];
    } else {
      SplitCountsRuns(t);
    }
  }

  /** The non-empty pieces of `ps`, in order. */
  function NonEmptyPieces(ps: seq<string>): (r: seq<string>)
    ensures |r| <= |ps|
    decreases |ps|
  {
    if |ps| == 0 then [] else (if ps[0] == "" then [] else [ps[0]]) + NonEmptyPieces(ps[1..])
  }

  /** The words of `s`: the non-empty pieces of `s.split(/\s+/)`. */
  function Words(s: string): seq<string> {
    NonEmptyPieces(SplitWs(s))
  }

  /** The non-empty pieces of a list with a first piece in front. */
  lemma NonEmptyCons(w: string, ps: seq<string>)
    ensures NonEmptyPieces([w] + ps) == (if w == "" then [] else [w]) + NonEmptyPieces(ps)
  {
    assert ([w] + ps)[1..] == ps;
  }

  /** How `split` proceeds past the first white-space run. */
  lemma SplitWsStep(u: string)
    requires WordLen(u) < |u|
    ensures SplitWs(u) == [u[..WordLen(u)]] + SplitWs(TrimStart(u[WordLen(u)..]))
  {
  }

  /** A string without white space splits into itself. */
  lemma SplitWsWhole(u: string)
    requires WordLen(u) == |u|
    ensures SplitWs(u) == [u]
  {
    assert u[..|u|] == u;
  }

  /** Leading white space contributes no word. */
  lemma WordsAfterSpace(s: string)
    requires |s| > 0 && IsSpace(s[0])
    ensures Words(s) == Words(TrimStart(s))
  {
    assert WordLen(s) == 0;
    SplitWsStep(s);
    assert s[0..] == s && s[..0] == "";
    NonEmptyCons("", SplitWs(TrimStart(s)));
  }

  /** A blank string has no words. */
  lemma WordsOfBlank(s: string)
    requires forall i :: 0 <= i < |s| ==> IsSpace(s[i])
    ensures Words(s) == []
  {
    if |s| == 0 {
      SplitWsWhole(s);
      NonEmptyCons(s, []);
    } else {
      WordsAfterSpace(s);
      var t := TrimStart(s);
      assert |t| == 0;
      SplitWsWhole(t);
      NonEmptyCons(t, []);
    }
  }

  /** A string opening with a word has that word first, then the words of what follows. */
  lemma WordsOfWordStart(u: string)
    requires |u| > 0 && !IsSpace(u[0])
    ensures WordLen(u) > 0
    ensures Words(u) == [u[..WordLen(u)]] + Words(u[WordLen(u)..])
  {
    var n := WordLen(u);
    var w := u[..n];
    if n == |u| {
      SplitWsWhole(u);
      assert w == u && u[n..] == "";
      WordsOfBlank(u[n..]);
      NonEmptyCons(u, []);
    } else {
      SplitWsStep(u);
      NonEmptyCons(w, SplitWs(TrimStart(u[n..])));
      WordsAfterSpace(u[n..]);
    }
  }

  /** `words.join(sep)`. */
  function Join(words: seq<string>, sep: string): string
    decreases |words|
  {
    if |words| == 0 then ""
    else if |words| == 1 then words[0]
    else words[0] + sep + Join(words[1..], sep)
  }

  /** `s.replace(/\s+/g, " ")`: every maximal run of white space becomes one space. */
  function CollapseWs(s: string): (r: string)
    ensures |r| <= |s|
    ensures |r| > 0 <==> |s| > 0
    ensures |s| > 0 ==> (r[0] == ' ' <==> IsSpace(s[0]))
    decreases |s|
  {
    if |s| == 0 then ""
    else if IsSpace(s[0]) then
      TrimStartShrinks(s);
      " " + CollapseWs(TrimStart(s))
    else [s[0]] + CollapseWs(s[1..])
  }

  /** A word in front collapses to itself. */
  lemma {:induction false} CollapseWord(u: string, n: nat)
    requires n <= |u| && forall i :: 0 <= i < n ==> !IsSpace(u[i])
    ensures CollapseWs(u) == u[..n] + CollapseWs(u[n..])
    decreases n
  {
    if n == 0 {
      assert u[..0] == "" && u[0..] == u;
    } else {
      var y := u[1..];
      CollapseWord(y, n - 1);
      assert y[..n - 1] == u[1..n] && y[n - 1..] == u[n..];
      var c := CollapseWs(u[n..]);
      assert CollapseWs(y) == u[1..n] + c;
      assert CollapseWs(u) == [u[0]] + CollapseWs(y);
      Regroup([u[0]], u[1..n], c);
      assert [u[0]] + u[1..n] == u[..n];
    }
  }

  /** A word, then a white-space run: the run collapses to one space. */
  lemma CollapseAfterWord(u: string, n: nat)
    requires n == WordLen(u) < |u|
    ensures CollapseWs(u) == u[..n] + " " + CollapseWs(TrimStart(u[n..]))
  {
    CollapseWord(u, n);
    var t := u[n..];
    assert IsSpace(t[0]);
    var c := CollapseWs(TrimStart(t));
    assert CollapseWs(t) == " " + c;
    Regroup(u[..n], " ", c);
  }

  /** Joining a word in front of a non-empty list puts one separator between them. */
  lemma JoinCons(w: string, ws: seq<string>, sep: string)
    requires |ws| > 0
    ensures Join([w] + ws, sep) == w + sep + Join(ws, sep)
  {
    assert ([w] + ws)[1..] == ws;
  }

  /** The last character of a non-empty trimmed tail is the last character of the whole. */
  lemma LastOfTail(u: string, n: nat)
    requires n <= |u|
    ensures var v := TrimStart(u[n..]);
      (|v| > 0 ==> v[|v| - 1] == u[|u| - 1])
      && (|v| == 0 && n < |u| ==> IsSpace(u[|u| - 1]))
  {
    var t := u[n..];
    var v := TrimStart(t);
    if |v| > 0 {
      assert v[|v| - 1] == t[|t| - 1];
    } else if n < |u| {
      assert IsSpace(t[|t| - 1]);
    }
  }

  /** A word, one space and a tight string make a tight string, whatever follows. */
  lemma WordThenJoined(w: string, jv: string, tl: string)
    requires |w| > 0 && !IsSpace(w[0]) && |jv| > 0 && !IsSpace(jv[|jv| - 1])
    ensures var j := w + " " + jv;
      && |j| > 0 && !IsSpace(j[0]) && !IsSpace(j[|j| - 1])
      && w + " " + (jv + tl) == j + tl
  {
    var j := w + " " + jv;
    assert j[0] == w[0];
    assert j[|j| - 1] == jv[|jv| - 1];
  }

  /**
    Collapsing the white space of `u` gives its words joined by single
    spaces (a non-empty string with no white space at either end), followed
    by one space when `u` ends in white space.
   */
  predicate CollapsesToWords(u: string)
    requires |u| > 0
  {
    var j := Join(Words(u), " ");
    && |j| > 0 && !IsSpace(j[0]) && !IsSpace(j[|j| - 1])
    && CollapseWs(u) == j + (if IsSpace(u[|u| - 1]) then " " else "")
  }

  /** For text that opens with a word, collapsing its white space joins its words with single spaces. */
  lemma {:induction false} CollapseWordStart(u: string)
    requires |u| > 0 && !IsSpace(u[0])
    ensures CollapsesToWords(u)
    decreases |u|
  {
    var n := WordLen(u);
    if n == |u| {
      CollapseWholeWord(u);
    } else {
      var v := TrimStart(u[n..]);
      if |v| == 0 {
        CollapseWordThenBlank(u, n);
      } else {
        CollapseWordStart(v);
        CollapseWordThenMore(u, n, v);
      }
    }
  }

  lemma CollapseWholeWord(u: string)
    requires |u| > 0 && WordLen(u) == |u|
    ensures CollapsesToWords(u)
  {
    var n := |u|;
    CollapseWord(u, n);
    assert u[..n] == u && u[n..] == "";
    WordsOfWordStart(u);
    WordsOfBlank(u[n..]);
    assert Words(u) == [u];
    assert CollapseWs(u) == u + "";
  }

  lemma CollapseWordThenBlank(u: string, n: nat)
    requires 0 < n == WordLen(u) < |u| && |TrimStart(u[n..])| == 0
    ensures CollapsesToWords(u)
  {
    var w := u[..n];
    WordsOfWordStart(u);
    CollapseAfterWord(u, n);
    WordsAfterSpace(u[n..]);
    LastOfTail(u, n);
    WordsOfBlank(TrimStart(u[n..]));
    assert Words(u) == [w];
    assert CollapseWs(u) == w + " " + "";
    assert w[0] == u[0] && w[n - 1] == u[n - 1];
  }

  lemma CollapseWordThenMore(u: string, n: nat, v: string)
    requires 0 < n == WordLen(u) < |u| && v == TrimStart(u[n..]) && |v| > 0
    requires CollapsesToWords(v)
    ensures CollapsesToWords(u)
  {
    var w := u[..n];
    WordsOfWordStart(u);
    CollapseAfterWord(u, n);
    WordsAfterSpace(u[n..]);
    LastOfTail(u, n);
    WordsOfWordStart(v);
    var jv := Join(Words(v), " ");
    var tl := if IsSpace(u[|u| - 1]) then " " else "";
    assert CollapseWs(v) == jv + tl;
    JoinCons(w, Words(v), " ");
    assert Join(Words(u), " ") == w + " " + jv;
    assert CollapseWs(u) == w + " " + (jv + tl);
    assert w[0] == u[0];
    WordThenJoined(w, jv, tl);
  }

  /**
    `replace(/\s+/g, " ")` turns every white-space run into exactly one
    space: the result is the words joined by single spaces, with one space
    in front when the text starts with white space and one behind when it
    ends with it (a blank text becomes one space, the empty text stays empty).
   */
  lemma CollapseWsJoinsWords(s: string)
    ensures CollapseJoins(s)
  {
    if |s| == 0 {
      WordsOfBlank(s);
    } else if !IsSpace(s[0]) {
      CollapseJoinsFromWord(s);
    } else if |TrimStart(s)| == 0 {
      CollapseBlank(s);
    } else {
      CollapseJoinsFromSpace(s);
    }
  }

  /** The shape `CollapseWsJoinsWords` states. */
  predicate CollapseJoins(s: string) {
    && (Words(s) == [] ==> CollapseWs(s) == (if |s| > 0 then " " else ""))
    && (Words(s) != [] ==>
          CollapseWs(s) == (if IsSpace(s[0]) then " " else "") + Join(Words(s), " ")
                           + (if IsSpace(s[|s| - 1]) then " " else ""))
  }

  lemma CollapseJoinsFromWord(s: string)
    requires |s| > 0 && !IsSpace(s[0])
    ensures CollapseJoins(s)
  {
    CollapseWordStart(s);
    WordsOfWordStart(s);
    var j := Join(Words(s), " ");
    assert "" + j == j;
  }

  lemma CollapseJoinsFromSpace(s: string)
    requires |s| > 0 && IsSpace(s[0]) && |TrimStart(s)| > 0
    ensures CollapseJoins(s)
  {
    CollapseSpaceThenWord(s);
  }

  lemma CollapseBlank(s: string)
    requires |s| > 0 && IsSpace(s[0]) && |TrimStart(s)| == 0
    ensures Words(s) == [] && CollapseWs(s) == " "
  {
    WordsAfterSpace(s);
    WordsOfBlank(TrimStart(s));
    assert CollapseWs(s) == " " + CollapseWs(TrimStart(s));
  }

  /** Text opening with white space, then a word: one space in front of the collapsed rest. */
  lemma CollapseSpaceThenWord(s: string)
    requires |s| > 0 && IsSpace(s[0]) && |TrimStart(s)| > 0
    ensures Words(s) != [] && Words(s) == Words(TrimStart(s))
    ensures CollapsesToWords(TrimStart(s))
    ensures CollapseWs(s) == " " + Join(Words(s), " ") + (if IsSpace(s[|s| - 1]) then " " else "")
  {
    var v := TrimStart(s);
    WordsAfterSpace(s);
    CollapseWordStart(v);
    WordsOfWordStart(v);
    LastOfTail(s, 0);
    assert s[0..] == s;
    assert CollapseWs(s) == " " + CollapseWs(v);
    var j := Join(Words(v), " ");
    var tl := if IsSpace(s[|s| - 1]) then " " else "";
    assert CollapseWs(v) == j + tl;
    Regroup(" ", j, tl);
  }

  lemma Regroup(a: string, b: string, c: string)
    ensures a + (b + c) == a + b + c
  {
  }

  /** Collapsing then trimming leaves exactly the words joined by single spaces. */
  lemma CollapseThenTrim(s: string)
    ensures Trim(CollapseWs(s)) == Join(Words(s), " ")
  {
    if |s| == 0 {
      WordsOfBlank(s);
    } else if !IsSpace(s[0]) {
      TrimCollapsedFromWord(s);
    } else if |TrimStart(s)| == 0 {
      CollapseBlank(s);
      assert TrimStart(" ") == "";
    } else {
      TrimCollapsedFromSpace(s);
    }
  }

  lemma TrimCollapsedFromWord(s: string)
    requires |s| > 0 && !IsSpace(s[0])
    ensures Trim(CollapseWs(s)) == Join(Words(s), " ")
  {
    CollapseWordStart(s);
    var j := Join(Words(s), " ");
    TrimPadded("", j, if IsSpace(s[|s| - 1]) then " " else "");
    assert "" + j == j;
  }

  lemma TrimCollapsedFromSpace(s: string)
    requires |s| > 0 && IsSpace(s[0]) && |TrimStart(s)| > 0
    ensures Trim(CollapseWs(s)) == Join(Words(s), " ")
  {
    CollapseSpaceThenWord(s);
    var j := Join(Words(s), " ");
    TrimPadded(" ", j, if IsSpace(s[|s| - 1]) then " " else "");
  }

  /** Trimming a tight string padded by at most one space on either side gives it back. */
  lemma TrimPadded(a: string, j: string, b: string)
    requires a == "" || a == " "
    requires b == "" || b == " "
    requires |j| > 0 && !IsSpace(j[0]) && !IsSpace(j[|j| - 1])
    ensures Trim(a + j + b) == j
  {
    var x := a + j + b;
    if a == " " {
      assert x[1..] == j + b;
    } else {
      assert x == j + b;
    }
    assert TrimStart(x) == j + b;
    if b == " " {
      assert (j + b)[..|j + b| - 1] == j;
    } else {
      assert j + b == j;
    }
  }

  /** The only white space in `s` is single spaces. */
  predicate SingleSpaced(s: string) {
    (forall i :: 0 <= i < |s| ==> IsSpace(s[i]) ==> s[i] == ' ')
    && (forall i :: 0 <= i < |s| - 1 ==> !(s[i] == ' ' && s[i + 1] == ' '))
  }

  /** The characters of `s` that are not white space, in order. */
  function NonSpace(s: string): string
    decreases |s|
  {
    if |s| == 0 then "" else (if IsSpace(s[0]) then "" else [s[0]]) + NonSpace(s[1..])
  }

  lemma {:induction false} NonSpaceOfAllSpace(s: string)
    requires forall i :: 0 <= i < |s| ==> IsSpace(s[i])
    ensures NonSpace(s) == ""
    decreases |s|
  {
    if |s| > 0 { NonSpaceOfAllSpace(s[1..]); }
  }

  lemma {:induction false} NonSpaceAppend(a: string, b: string)
    ensures NonSpace(a + b) == NonSpace(a) + NonSpace(b)
    decreases |a|
  {
    if |a| > 0 {
      assert (a + b)[1..] == a[1..] + b;
      NonSpaceAppend(a[1..], b);
    } else {
      assert a + b == b;
    }
  }

  /** Collapsing white space leaves single spaces and keeps every other character, in order. */
  lemma {:induction false} CollapseWsNormalizes(s: string)
    ensures SingleSpaced(CollapseWs(s))
    ensures NonSpace(CollapseWs(s)) == NonSpace(s)
    decreases |s|
  {
    if |s| > 0 {
      if IsSpace(s[0]) {
        var t := TrimStart(s);
        CollapseWsNormalizes(t);
        var r := CollapseWs(t);
        assert CollapseWs(s) == " " + r;
        NonSpaceAppend(" ", r);
        assert s == s[..|s| - |t|] + t;
        NonSpaceAppend(s[..|s| - |t|], t);
        NonSpaceOfAllSpace(s[..|s| - |t|]);
      } else {
        CollapseWsNormalizes(s[1..]);
        var r := CollapseWs(s[1..]);
        assert CollapseWs(s) == [s[0]] + r;
        NonSpaceAppend([s[0]], r);
      }
    }
  }

  /** Cutting white space off both ends keeps the non-space characters. */
  lemma NonSpaceOfPadded(s: string, a: nat, b: nat)
    requires a <= b <= |s|
    requires forall i :: 0 <= i < a ==> IsSpace(s[i])
    requires forall i :: b <= i < |s| ==> IsSpace(s[i])
    ensures NonSpace(s[a..b]) == NonSpace(s)
  {
    SplitInThree(s, a, b);
    NonSpaceAppend3(s[..a], s[a..b], s[b..]);
    BlankSlice(s, 0, a);
    BlankSlice(s, b, |s|);
  }

  lemma SplitInThree(s: string, a: nat, b: nat)
    requires a <= b <= |s|
    ensures s == s[..a] + s[a..b] + s[b..]
    ensures s[..a] == s[0..a] && s[b..] == s[b..|s|]
  {
  }

  lemma NonSpaceAppend3(l: string, m: string, r: string)
    ensures NonSpace(l + m + r) == NonSpace(l) + NonSpace(m) + NonSpace(r)
  {
    NonSpaceAppend(l + m, r);
    NonSpaceAppend(l, m);
  }

  lemma BlankSlice(s: string, lo: nat, hi: nat)
    requires lo <= hi <= |s|
    requires forall i :: lo <= i < hi ==> IsSpace(s[i])
    ensures NonSpace(s[lo..hi]) == ""
  {
    forall i | 0 <= i < hi - lo ensures IsSpace(s[lo..hi][i]) {
      assert s[lo..hi][i] == s[lo + i];
    }
    NonSpaceOfAllSpace(s[lo..hi]);
  }

  /** A slice of a single-spaced string is single-spaced. */
  lemma SingleSpacedSlice(s: string, a: nat, b: nat)
    requires a <= b <= |s| && SingleSpaced(s)
    ensures SingleSpaced(s[a..b])
  {
    var t := s[a..b];
    assert forall i :: 0 <= i < |t| ==> t[i] == s[a + i];
  }
}
