/**
 * The name a test gets when it is declared with a function and no explicit
 * name: the function's own name when it has one, otherwise a slug made from
 * the text of the function's body (every run of non-word characters becomes
 * one space, then the ends are trimmed).
 */
module Names {

  /** Membership of the regular-expression class `\w` (ASCII letters, digits, underscore). */
  predicate IsWordChar(c: char) {
    ('a' <= c <= 'z') || ('A' <= c <= 'Z') || ('0' <= c <= '9') || c == '_'
  }

  /** The number of word characters that `s` starts with. */
  function WordRun(s: string): (n: nat)
    ensures n <= |s|
    ensures forall i :: 0 <= i < n ==> IsWordChar(s[i])
    ensures n < |s| ==> !IsWordChar(s[n])
  {
    if s == [] || !IsWordChar(s[0]) then 0 else 1 + WordRun(s[1..])
  }

  /** The number of non-word characters that `s` starts with. */
  function GapRun(s: string): (n: nat)
    ensures n <= |s|
    ensures forall i :: 0 <= i < n ==> !IsWordChar(s[i])
    ensures n < |s| ==> IsWordChar(s[n])
  {
    if s == [] || IsWordChar(s[0]) then 0 else 1 + GapRun(s[1..])
  }

  /** `s.replace(/\W+/g, ' ')`: each maximal run of non-word characters is replaced by one space. */
  function CollapseGaps(s: string): (r: string)
    decreases |s|
  {
    if s == [] then []
    else if IsWordChar(s[0]) then [s[0]] + CollapseGaps(s[1..])
    else [' '] + CollapseGaps(s[GapRun(s)..])
  }

  /** Leading spaces removed. */
  function TrimStart(s: string): (r: string) {
    if s != [] && s[0] == ' ' then TrimStart(s[1..]) else s
  }

  /** Trailing spaces removed. */
  function TrimEnd(s: string): (r: string) {
    if s != [] && s[|s| - 1] == ' ' then TrimEnd(s[..|s| - 1]) else s
  }

  /**
   * `String.prototype.trim`. After `CollapseGaps` the only white space left is
   * the plain space (every other white-space character is a non-word
   * character and has been replaced), so trimming spaces is trimming white space.
   */
  function Trim(s: string): (r: string) {
    TrimEnd(TrimStart(s))
  }

  /** `fnContents.replace(/\W+/gi, ' ').trim()`. */
  function Normalise(contents: string): (r: string) {
    Trim(CollapseGaps(contents))
  }

  /**
   * The name of a test declared by a function alone: `fn.name` if it is
   * non-empty, otherwise the normalised text of the function's body.
   */
  function ExtractName(fnName: string, contents: string): (r: string) {
    if fnName != "" then fnName else Normalise(contents)
  }

  // ----- An independent description of the slug: the words, joined by single spaces -----

  /** The maximal runs of word characters of `s`, in order. */
  function Words(s: string): (r: seq<string>)
    decreases |s|
  {
    if s == [] then []
    else if !IsWordChar(s[0]) then Words(s[GapRun(s)..])
    else [s[..WordRun(s)]] + Words(s[WordRun(s)..])
  }

  /** The words joined with one space between neighbours. */
  function Unwords(ws: seq<string>): (r: string) {
    if ws == [] then []
    else if |ws| == 1 then ws[0]
    else ws[0] + " " + Unwords(ws[1..])
  }

  /** A proper word: non-empty and made of word characters only. */
  predicate IsWord(w: string) {
    w != [] && forall i :: 0 <= i < |w| ==> IsWordChar(w[i])
  }

  lemma {:induction false} WordsAreWords(s: string)
    ensures forall i :: 0 <= i < |Words(s)| ==> IsWord(Words(s)[i])
    decreases |s|
  {
    if s == [] {
    } else if !IsWordChar(s[0]) {
      WordsAreWords(s[GapRun(s)..]);
    } else {
      WordsAreWords(s[WordRun(s)..]);
    }
  }

  lemma TrimStartOfWordStart(s: string)
    requires s != [] && IsWordChar(s[0])
    ensures TrimStart(s) == s
  {
  }

  /** Trimming the end of `a + b` only touches `b`, when `b` has something other than spaces. */
  lemma {:induction false} TrimEndAppend(a: string, b: string)
    requires TrimEnd(b) != []
    ensures TrimEnd(a + b) == a + TrimEnd(b)
    decreases |b|
  {
    if b != [] && b[|b| - 1] == ' ' {
      assert (a + b)[..|a + b| - 1] == a + b[..|b| - 1];
      TrimEndAppend(a, b[..|b| - 1]);
    }
  }

  lemma {:induction false} TrimEndAllSpaces(s: string)
    requires forall i :: 0 <= i < |s| ==> s[i] == ' '
    ensures TrimEnd(s) == []
    decreases |s|
  {
    if s != [] {
      TrimEndAllSpaces(s[..|s| - 1]);
    }
  }

  lemma {:induction false} TrimEndOfWordEnd(s: string)
    requires s != [] && IsWordChar(s[|s| - 1])
    ensures TrimEnd(s) == s
  {
  }

  /** A word followed by the collapse of the rest of the text. */
  lemma {:induction false} CollapseWordPrefix(s: string)
    requires s != [] && IsWordChar(s[0])
    ensures CollapseGaps(s) == s[..WordRun(s)] + CollapseGaps(s[WordRun(s)..])
    decreases |s|
  {
    var t := s[1..];
    assert CollapseGaps(s) == [s[0]] + CollapseGaps(t);
    if t != [] && IsWordChar(t[0]) {
      var m := WordRun(t);
      CollapseWordPrefix(t);
      assert WordRun(s) == 1 + m;
      assert t[m..] == s[1 + m..];
      assert [s[0]] + t[..m] == s[..1 + m];
    } else {
      assert WordRun(s) == 1;
      assert s[..1] == [s[0]];
    }
  }

  /** The collapse of a text that starts with a word character starts with it too. */
  lemma CollapseStart(s: string)
    requires s != [] && IsWordChar(s[0])
    ensures CollapseGaps(s) != [] && CollapseGaps(s)[0] == s[0]
  {
  }

  /** The collapse is empty exactly when the text is. */
  lemma CollapseEmpty(s: string)
    ensures (CollapseGaps(s) == []) == (s == [])
  {
  }

  /** The trimmed collapse of a text that starts with a word character. */
  lemma {:induction false} NormaliseFromWord(s: string)
    requires s == [] || IsWordChar(s[0])
    ensures Normalise(s) == TrimEnd(CollapseGaps(s))
  {
    if s != [] {
      CollapseStart(s);
      TrimStartOfWordStart(CollapseGaps(s));
    }
  }

  /**
   * The slug of a function body is its words joined by single spaces: a
   * description of `Normalise` that does not mention replacing or trimming.
   */
  lemma {:induction false} NormaliseIsUnwords(s: string)
    ensures Normalise(s) == Unwords(Words(s))
    decreases |s|, 1
  {
    if s == [] {
    } else if !IsWordChar(s[0]) {
      NormaliseFromGap(s);
    } else {
      NormaliseFromWordStart(s);
    }
  }

  /** The case of `NormaliseIsUnwords` where the text starts with a gap. */
  lemma {:induction false} NormaliseFromGap(s: string)
    requires s != [] && !IsWordChar(s[0])
    ensures Normalise(s) == Unwords(Words(s))
    decreases |s|, 0
  {
    var rest := s[GapRun(s)..];
    assert CollapseGaps(s) == [' '] + CollapseGaps(rest);
    NormaliseIsUnwords(rest);
    NormaliseFromWord(rest);
    if rest == [] {
      assert TrimStart(CollapseGaps(s)) == [];
    } else {
      CollapseStart(rest);
      assert TrimStart(CollapseGaps(s)) == TrimStart(CollapseGaps(rest));
      TrimStartOfWordStart(CollapseGaps(rest));
    }
  }

  /** The case of `NormaliseIsUnwords` where the text starts with a word. */
  lemma {:induction false} NormaliseFromWordStart(s: string)
    requires s != [] && IsWordChar(s[0])
    ensures Normalise(s) == Unwords(Words(s))
    decreases |s|, 0
  {
    var n := WordRun(s);
    var w, rest := s[..n], s[n..];
    CollapseWordPrefix(s);
    NormaliseFromWord(s);
    assert Words(s) == [w] + Words(rest);
    if rest == [] {
      assert w == s;
      TrimEndOfWordEnd(w);
      assert CollapseGaps(rest) == [];
      assert CollapseGaps(s) == w;
    } else {
      var rest' := rest[GapRun(rest)..];
      assert CollapseGaps(rest) == [' '] + CollapseGaps(rest');
      assert Words(rest) == Words(rest');
      NormaliseIsUnwords(rest');
      NormaliseFromWord(rest');
      assert CollapseGaps(s) == (w + " ") + CollapseGaps(rest');
      if rest' == [] {
        assert CollapseGaps(s) == w + " ";
        assert TrimEnd(w + " ") == TrimEnd(w);
        TrimEndOfWordEnd(w);
        assert Words(rest') == [];
      } else {
        WordsNonEmpty(rest');
        TrimEndAppend(w + " ", CollapseGaps(rest'));
      }
    }
  }

  /** A text that starts with a word character has a word, and its slug is not empty. */
  lemma WordsNonEmpty(s: string)
    requires s != [] && IsWordChar(s[0]) && Normalise(s) == Unwords(Words(s))
    ensures Words(s) != [] && TrimEnd(CollapseGaps(s)) != []
  {
    CollapseStart(s);
    WordsAreWords(s);
    assert Words(s) == [s[..WordRun(s)]] + Words(s[WordRun(s)..]);
    UnwordsNonEmpty(Words(s));
    NormaliseFromWord(s);
  }

  lemma UnwordsNonEmpty(ws: seq<string>)
    requires ws != [] && forall i :: 0 <= i < |ws| ==> IsWord(ws[i])
    ensures Unwords(ws) != []
  {
  }

  lemma {:induction false} WordRunOfWord(w: string, tail: string)
    requires IsWord(w)
    requires tail == [] || !IsWordChar(tail[0])
    ensures WordRun(w + tail) == |w|
    decreases |w|
  {
    if |w| > 1 {
      assert (w + tail)[1..] == w[1..] + tail;
      WordRunOfWord(w[1..], tail);
    } else {
      assert (w + tail)[1..] == tail;
    }
  }

  /** Splitting joined words gives the words back. */
  lemma {:induction false} WordsOfUnwords(ws: seq<string>)
    requires forall i :: 0 <= i < |ws| ==> IsWord(ws[i])
    ensures Words(Unwords(ws)) == ws
  {
    if ws == [] {
    } else if |ws| == 1 {
      WordRunOfWord(ws[0], []);
      assert ws[0] + [] == ws[0];
      assert ws[0][|ws[0]|..] == [];
    } else {
      var w, u := ws[0], Unwords(ws[1..]);
      WordsOfUnwords(ws[1..]);
      UnwordsNonEmpty(ws[1..]);
      UnwordsStart(ws[1..]);
      var s := w + " " + u;
      assert s == w + (" " + u);
      WordRunOfWord(w, " " + u);
      assert s[..|w|] == w;
      assert s[|w|..] == " " + u;
      assert GapRun(" " + u) == 1;
      assert (" " + u)[1..] == u;
    }
  }

  lemma UnwordsStart(ws: seq<string>)
    requires ws != [] && forall i :: 0 <= i < |ws| ==> IsWord(ws[i])
    ensures Unwords(ws) != [] && IsWordChar(Unwords(ws)[0])
  {
  }

  /** Normalising a name that is already normalised changes nothing. */
  lemma NormaliseIdempotent(s: string)
    ensures Normalise(Normalise(s)) == Normalise(s)
  {
    NormaliseIsUnwords(s);
    WordsAreWords(s);
    WordsOfUnwords(Words(s));
    NormaliseIsUnwords(Normalise(s));
  }
}
