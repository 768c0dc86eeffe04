/**
 * Word-limited truncation of an answer (`limitar_resposta`): the text is split
 * on whitespace, the first `maxWords` words are joined again with single
 * spaces, and the marker "..." is glued to the end when words were dropped.
 */
module Truncation {

  /** The characters Python's `str.split()` (without arguments) separates on:
      exactly those for which `str.isspace()` holds. */
  predicate IsSpace(c: char) {
    ('\t' <= c <= '\r') || ('\U{1C}' <= c <= '\U{1F}') || c == ' '
    || c == '\U{85}' || c == '\U{A0}' || c == '\U{1680}'
    || ('\U{2000}' <= c <= '\U{200A}') || c == '\U{2028}' || c == '\U{2029}'
    || c == '\U{202F}' || c == '\U{205F}' || c == '\U{3000}'
  }

  /** A token produced by splitting: non-empty and free of whitespace. */
  predicate IsWord(w: string) {
    w != [] && forall i :: 0 <= i < |w| ==> !IsSpace(w[i])
  }

  predicate AllWords(ws: seq<string>) {
    forall i :: 0 <= i < |ws| ==> IsWord(ws[i])
  }

  /** Length of the run of non-space characters that starts `s`. */
  function WordLength(s: string): (n: nat)
    ensures n <= |s|
    ensures forall i :: 0 <= i < n ==> !IsSpace(s[i])
    ensures n < |s| ==> IsSpace(s[n])
  {
    if s == [] || IsSpace(s[0]) then 0 else 1 + WordLength(s[1..])
  }

  /** `s.split()`: the maximal runs of non-space characters, in order. */
  function Words(s: string): (ws: seq<string>)
    ensures AllWords(ws)
    decreases |s|
  {
    if s == [] then []
    else if IsSpace(s[0]) then Words(s[1..])
    else
      var n := WordLength(s);
      [s[..n]] + Words(s[n..])
  }

  /** The characters of `s` with every whitespace character removed. */
  function NonSpace(s: string): string {
    if s == [] then []
    else if IsSpace(s[0]) then NonSpace(s[1..])
    else [s[0]] + NonSpace(s[1..])
  }

  /** The words laid end to end, with nothing between them. */
  function Concat(ws: seq<string>): string {
    if ws == [] then [] else ws[0] + Concat(ws[1..])
  }

  /** Splitting loses nothing but whitespace: the words, laid end to end, are
      exactly the non-space characters of `s` in their original order. */
  lemma {:induction false} WordsKeepNonSpace(s: string)
    ensures Concat(Words(s)) == NonSpace(s)
    decreases |s|
  {
    if s == [] {
    } else if IsSpace(s[0]) {
      WordsKeepNonSpace(s[1..]);
    } else {
      var n := WordLength(s);
      var ws := Words(s);
      assert ws == [s[..n]] + Words(s[n..]);
      assert ws[0] == s[..n] && ws[1..] == Words(s[n..]);
      WordsKeepNonSpace(s[n..]);
      NonSpaceOfRun(s, n);
    }
  }

  /** A leading run of `n` non-space characters passes through unchanged. */
  lemma {:induction false} NonSpaceOfRun(s: string, n: nat)
    requires n <= |s| && forall i :: 0 <= i < n ==> !IsSpace(s[i])
    ensures NonSpace(s) == s[..n] + NonSpace(s[n..])
    decreases n
  {
    if n > 0 {
      NonSpaceOfRun(s[1..], n - 1);
      assert s[1..][n - 1..] == s[n..];
      assert s[..n] == [s[0]] + s[1..][..n - 1];
    }
  }

  /** `' '.join(ws)` */
  function Join(ws: seq<string>): string {
    if |ws| == 0 then ""
    else if |ws| == 1 then ws[0]
    else ws[0] + " " + Join(ws[1..])
  }

  function Min(a: int, b: int): int { if a <= b then a else b }
  function Max(a: int, b: int): int { if a <= b then b else a }

  /** Python's `xs[:k]`: a negative `k` counts from the end of `xs`. */
  function SliceTo<T>(xs: seq<T>, k: int): (r: seq<T>)
    ensures |r| == if k >= 0 then Min(k, |xs|) else Max(0, |xs| + k)
    ensures r == xs[..|r|]
  {
    if k >= 0 then xs[..Min(k, |xs|)] else xs[..Max(0, |xs| + k)]
  }

  const Marker: string := "..."

  predicate EndsWithMarker(s: string) {
    |s| >= |Marker| && s[|s| - |Marker|..] == Marker
  }

  /** `limitar_resposta(resposta, max_palavras)` */
  function LimitWords(text: string, maxWords: int): (r: string)
    ensures |Words(text)| > maxWords ==> EndsWithMarker(r)
    ensures |Words(text)| <= maxWords ==> r == Join(Words(text))
  {
    var ws := Words(text);
    var kept := Join(SliceTo(ws, maxWords));
    assert |ws| <= maxWords ==> SliceTo(ws, maxWords) == ws;
    assert |ws| > maxWords ==> (kept + Marker)[|kept + Marker| - |Marker|..] == Marker;
    kept + (if |ws| > maxWords then Marker else "")
  }

  // ---------------------------------------------------------------------
  // Splitting undoes joining

  lemma {:induction false} WordLengthOfWord(w: string, rest: string)
    requires IsWord(w) && (rest == [] || IsSpace(rest[0]))
    ensures WordLength(w + rest) == |w|
  {
    assert (w + rest)[0] == w[0];
    if |w| == 1 {
      assert (w + rest)[1..] == rest;
    } else {
      assert (w + rest)[1..] == w[1..] + rest;
      WordLengthOfWord(w[1..], rest);
    }
  }

  lemma {:induction false} WordsOfWordThen(w: string, rest: string)
    requires IsWord(w) && (rest == [] || IsSpace(rest[0]))
    ensures Words(w + rest) == [w] + Words(rest)
  {
    WordLengthOfWord(w, rest);
    var s := w + rest;
    assert s[0] == w[0];
    assert s[..|w|] == w && s[|w|..] == rest;
  }

  /** Any whitespace character separates words: nothing before it and
      nothing after it end up in the same word. With `Words` of a run of
      non-space characters being that run, this fixes `Words` on every text. */
  lemma {:induction false} WordsSplitAtSpace(a: string, c: char, b: string)
    requires IsSpace(c)
    ensures Words(a + [c] + b) == Words(a) + Words(b)
    decreases |a|
  {
    var s := a + [c] + b;
    if a == [] {
      assert s == [c] + b && s[1..] == b;
    } else if IsSpace(a[0]) {
      assert s[0] == a[0] && s[1..] == a[1..] + [c] + b;
      WordsSplitAtSpace(a[1..], c, b);
    } else {
      var n := WordLength(a);
      assert s == a + ([c] + b);
      WordLengthThen(a, [c] + b);
      assert s[0] == a[0] && s[..n] == a[..n];
      assert s[n..] == a[n..] + [c] + b;
      WordsSplitAtSpace(a[n..], c, b);
    }
  }

  /** The first word of `a` is not extended by text that starts with a space. */
  lemma {:induction false} WordLengthThen(a: string, t: string)
    requires t == [] || IsSpace(t[0])
    ensures WordLength(a + t) == WordLength(a)
    decreases |a|
  {
    if a == [] {
      assert a + t == t;
    } else {
      assert (a + t)[0] == a[0] && (a + t)[1..] == a[1..] + t;
      WordLengthThen(a[1..], t);
    }
  }

  lemma WordsSkipSpace(t: string)
    ensures Words(" " + t) == Words(t)
  {
    assert (" " + t)[0] == ' ' && (" " + t)[1..] == t;
  }

  lemma JoinCons(w: string, rest: seq<string>)
    requires |rest| > 0
    ensures Join([w] + rest) == w + " " + Join(rest)
  {
    var ws := [w] + rest;
    assert ws[0] == w && ws[1..] == rest;
  }

  /** Splitting a joined list of words gives back the same words. */
  lemma {:induction false} WordsOfJoin(ws: seq<string>)
    requires AllWords(ws)
    ensures Words(Join(ws)) == ws
  {
    if |ws| == 1 {
      assert ws[0] + "" == ws[0];
      WordsOfWordThen(ws[0], "");
    } else if |ws| > 1 {
      var w, rest := ws[0], ws[1..];
      assert ws == [w] + rest;
      assert AllWords(rest) by {
        forall i | 0 <= i < |rest| ensures IsWord(rest[i]) { assert rest[i] == ws[i + 1]; }
      }
      WordsOfJoin(rest);
      WordsOfJoinStep(w, rest);
    }
  }

  lemma WordsOfJoinStep(w: string, rest: seq<string>)
    requires IsWord(w) && |rest| > 0 && Words(Join(rest)) == rest
    ensures Words(Join([w] + rest)) == [w] + rest
  {
    var tail := Join(rest);
    JoinCons(w, rest);
    assert w + " " + tail == w + (" " + tail);
    WordsSkipSpace(tail);
    WordsOfWordThen(w, " " + tail);
  }

  /** Text appended to a join sticks to the last word. */
  lemma {:induction false} JoinAppend(ws: seq<string>, t: string)
    requires |ws| > 0
    ensures Join(ws) + t == Join(ws[..|ws| - 1] + [ws[|ws| - 1] + t])
  {
    var ws' := ws[..|ws| - 1] + [ws[|ws| - 1] + t];
    if |ws| == 1 {
      assert ws' == [ws[0] + t];
    } else {
      JoinAppend(ws[1..], t);
      assert ws'[0] == ws[0];
      assert ws'[1..] == ws[1..][..|ws| - 2] + [ws[1..][|ws| - 2] + t];
      assert Join(ws) + t == ws[0] + " " + (Join(ws[1..]) + t);
    }
  }

  /** The last word of a join follows a single space. */
  lemma {:induction false} JoinSnoc(ws: seq<string>)
    requires |ws| >= 2
    ensures Join(ws) == Join(ws[..|ws| - 1]) + " " + ws[|ws| - 1]
  {
    if |ws| > 2 {
      JoinSnoc(ws[1..]);
      assert ws[1..][..|ws| - 2] == ws[..|ws| - 1][1..];
    }
  }

  lemma {:induction false} JoinEndsWithMarker(ws: seq<string>)
    requires AllWords(ws) && EndsWithMarker(Join(ws))
    ensures |ws| > 0 && EndsWithMarker(ws[|ws| - 1])
  {
    var last := ws[|ws| - 1];
    if |ws| >= 2 {
      JoinSnoc(ws);
      var j := Join(ws);
      var init := Join(ws[..|ws| - 1]);
      assert j == init + " " + last;
      var p := |j| - |last| - 1;
      assert j[p] == ' ';
      assert forall k :: |j| - |Marker| <= k < |j| ==> j[k] == j[|j| - |Marker|..][k - (|j| - |Marker|)];
      assert |last| >= |Marker|;
      assert j[|j| - |Marker|..] == last[|last| - |Marker|..];
    }
  }

  lemma MarkerIsWord()
    ensures IsWord(Marker) && Words(Marker) == [Marker]
  {
    WordsOfJoin([Marker]);
  }

  // ---------------------------------------------------------------------
  // Properties of LimitWords

  /** With a limit of zero or more words the result, split again, is the
      first Min(#words, maxWords) words of the text in order; when words were
      dropped the marker is glued to the last kept word (or stands alone when
      nothing is kept). */
  lemma {:induction false} LimitWordsKeepsPrefix(text: string, maxWords: int)
    requires maxWords >= 0
    ensures var ws := Words(text); var r := LimitWords(text, maxWords);
      && (|ws| <= maxWords ==> Words(r) == ws)
      && (0 < maxWords < |ws| ==>
            Words(r) == ws[..maxWords - 1] + [ws[maxWords - 1] + Marker])
      && (maxWords == 0 < |ws| ==> r == Marker)
  {
    var ws := Words(text);
    if |ws| <= maxWords {
      assert SliceTo(ws, maxWords) == ws;
      WordsOfJoin(ws);
    } else if maxWords > 0 {
      assert SliceTo(ws, maxWords) == ws[..maxWords];
      WordsOfCut(ws, maxWords);
    }
  }

  /** Cutting a list of words after n of them and gluing the marker on. */
  lemma WordsOfCut(ws: seq<string>, n: int)
    requires AllWords(ws) && 0 < n <= |ws|
    ensures Words(Join(ws[..n]) + Marker) == ws[..n - 1] + [ws[n - 1] + Marker]
  {
    var kept := ws[..n];
    assert kept[..n - 1] == ws[..n - 1];
    JoinAppend(kept, Marker);
    MarkerIsWord();
    var ws' := kept[..n - 1] + [kept[n - 1] + Marker];
    assert IsWord(kept[n - 1] + Marker);
    assert AllWords(ws');
    WordsOfJoin(ws');
  }

  /** A negative limit drops words from the END of the text (Python slice
      semantics) and the marker is always appended, even to empty text. */
  lemma {:induction false} NegativeLimitCountsFromEnd(text: string, maxWords: int)
    requires maxWords < 0
    ensures var ws := Words(text); var r := LimitWords(text, maxWords);
      && EndsWithMarker(r)
      && (|ws| + maxWords <= 0 ==> r == Marker)
      && (|ws| + maxWords > 0 ==>
            Words(r) == ws[..|ws| + maxWords - 1] + [ws[|ws| + maxWords - 1] + Marker])
  {
    var ws := Words(text);
    var n := |ws| + maxWords;
    if n > 0 {
      assert SliceTo(ws, maxWords) == ws[..n];
      WordsOfCut(ws, n);
    }
  }

  /** Truncating an already truncated answer with the same limit changes
      nothing: the marker is part of the last kept word. */
  lemma {:induction false} LimitWordsIdempotent(text: string, maxWords: int)
    requires maxWords >= 0
    ensures LimitWords(LimitWords(text, maxWords), maxWords) == LimitWords(text, maxWords)
  {
    var ws := Words(text);
    if |ws| <= maxWords {
      LimitWordsKeepsPrefix(text, maxWords);
    } else if maxWords == 0 {
      LimitWordsKeepsPrefix(text, maxWords);
      MarkerIsWord();
      assert SliceTo(Words(Marker), 0) == [];
    } else {
      ReapplyAfterCut(text, maxWords);
    }
  }

  lemma ReapplyAfterCut(text: string, maxWords: int)
    requires 0 < maxWords < |Words(text)|
    ensures LimitWords(LimitWords(text, maxWords), maxWords) == LimitWords(text, maxWords)
  {
    var ws := Words(text);
    var r := LimitWords(text, maxWords);
    var kept := ws[..maxWords];
    assert r == Join(kept) + Marker by {
      assert SliceTo(ws, maxWords) == kept;
    }
    LimitWordsKeepsPrefix(text, maxWords);
    var ws' := Words(r);
    assert ws' == kept[..maxWords - 1] + [kept[maxWords - 1] + Marker];
    assert |ws'| == maxWords;
    JoinAppend(kept, Marker);
    assert Join(ws') == r;
  }

  /** The result ends with the marker exactly when words were dropped,
      provided the text's own last word does not already end with it. */
  lemma {:induction false} MarkerIffTruncated(text: string, maxWords: int)
    requires Words(text) == [] || !EndsWithMarker(Words(text)[|Words(text)| - 1])
    ensures EndsWithMarker(LimitWords(text, maxWords)) <==> |Words(text)| > maxWords
  {
    var ws := Words(text);
    if |ws| <= maxWords && EndsWithMarker(LimitWords(text, maxWords)) {
      JoinEndsWithMarker(ws);
    }
  }

  /** A single word (text without whitespace) comes back unchanged. */
  lemma {:induction false} SingleWordUnchanged(text: string, maxWords: int)
    requires IsWord(text) && maxWords >= 1
    ensures LimitWords(text, maxWords) == text
  {
    WordsOfJoin([text]);
  }

  /** The result is empty exactly when the text has no words and the limit
      is not negative. */
  lemma {:induction false} LimitWordsBlank(text: string, maxWords: int)
    ensures LimitWords(text, maxWords) == "" <==> Words(text) == [] && maxWords >= 0
  {
    var ws := Words(text);
    if ws != [] && |ws| <= maxWords {
      assert IsWord(ws[0]);
      assert |Join(ws)| > 0 by {
        if |ws| >= 2 { assert Join(ws) == ws[0] + " " + Join(ws[1..]); }
      }
    }
  }

  /** With a positive limit the result never holds more than `maxWords` words. */
  lemma WordsWithinLimit(text: string, maxWords: int)
    requires maxWords >= 1
    ensures |Words(LimitWords(text, maxWords))| <= maxWords
  {
    LimitWordsKeepsPrefix(text, maxWords);
  }
}
