/**
 * Text-fragment cleaning of the spider (`_clean_strings`), and the pieces of
 * Python string handling it is built from: `str.strip()`, `re.sub(r'[\s:]+', ' ', _)`,
 * `str.split(' ')` and `' '.join(_)`.
 *
 * Each Python operation is modelled by its own function, in the order the spider
 * applies them. `Tokens` is an independent reference definition (the maximal runs
 * of characters that are neither whitespace nor a colon), and the main theorem
 * `CleanTextIsJoinedTokens` says that the cleaning pipeline returns exactly these
 * runs joined by single spaces.
 */
module Text {

  // ---------------------------------------------------------------------------
  // Character classes
  // ---------------------------------------------------------------------------

  /** Python's `str.isspace()`; a `str` pattern's `\s` matches the same characters. */
  predicate IsWs(c: char) {
    || ('\t' <= c <= '\r')
    || ('\U{1C}' <= c <= '\U{1F}')
    || c == ' '
    || c == '\U{85}'
    || c == '\U{A0}'
    || c == '\U{1680}'
    || ('\U{2000}' <= c <= '\U{200A}')
    || c == '\U{2028}'
    || c == '\U{2029}'
    || c == '\U{202F}'
    || c == '\U{205F}'
    || c == '\U{3000}'
  }

  /** A character of the regular-expression class `[\s:]`. */
  predicate IsSep(c: char) {
    IsWs(c) || c == ':'
  }

  predicate SepFree(s: string) {
    forall i | 0 <= i < |s| :: !IsSep(s[i])
  }

  // ---------------------------------------------------------------------------
  // str.strip()
  // ---------------------------------------------------------------------------

  /** `s.lstrip()`: the suffix of `s` after its leading whitespace. */
  function TrimStart(s: string): (r: string)
    ensures |r| <= |s|
    ensures forall i | 0 <= i < |s| - |r| :: IsWs(s[i])
    ensures r == [] || !IsWs(r[0])
  {
    if s != [] && IsWs(s[0]) then TrimStart(s[1..]) else s
  }

  /** What `lstrip` keeps is the rest of `s` after the whitespace it drops. */
  lemma {:induction false} TrimStartIsSuffix(s: string)
    ensures TrimStart(s) == s[|s| - |TrimStart(s)|..]
  {
    if s != [] && IsWs(s[0]) {
      TrimStartIsSuffix(s[1..]);
    }
  }

  /** `s.rstrip()`: the prefix of `s` before its trailing whitespace. */
  function TrimEnd(s: string): (r: string)
    ensures |r| <= |s|
    ensures forall i | |r| <= i < |s| :: IsWs(s[i])
    ensures r == [] || !IsWs(r[|r| - 1])
  {
    if s != [] && IsWs(s[|s| - 1]) then TrimEnd(s[..|s| - 1]) else s
  }

  /** What `rstrip` keeps is the part of `s` before the whitespace it drops. */
  lemma {:induction false} TrimEndIsPrefix(s: string)
    ensures TrimEnd(s) == s[..|TrimEnd(s)|]
    decreases |s|
  {
    if s != [] && IsWs(s[|s| - 1]) {
      TrimEndIsPrefix(s[..|s| - 1]);
    }
  }

  /** `s.strip()`. */
  function Strip(s: string): (r: string)
    ensures r == [] || (!IsWs(r[0]) && !IsWs(r[|r| - 1]))
    ensures r == [] <==> forall i | 0 <= i < |s| :: IsWs(s[i])
  {
    TrimStartIsSuffix(s);
    TrimEndIsPrefix(TrimStart(s));
    TrimEnd(TrimStart(s))
  }

  /** A fragment Python treats as falsy after `.strip()`. */
  predicate IsBlank(s: string) {
    Strip(s) == []
  }

  // ---------------------------------------------------------------------------
  // re.sub(r'[\s:]+', ' ', s)
  // ---------------------------------------------------------------------------

  /**
   * Replaces every maximal run of separators by one space. `inRun` holds when
   * the character just before `s` was a separator whose run has already been
   * replaced.
   */
  function CollapseSeps(s: string, inRun: bool): string
  {
    if s == [] then []
    else if IsSep(s[0]) then (if inRun then [] else " ") + CollapseSeps(s[1..], true)
    else [s[0]] + CollapseSeps(s[1..], false)
  }

  function Collapse(s: string): string {
    CollapseSeps(s, false)
  }

  // ---------------------------------------------------------------------------
  // s.split(' ') and ' '.join(words)
  // ---------------------------------------------------------------------------

  function IndexOf(s: string, c: char): (k: nat)
    requires c in s
    ensures k < |s| && s[k] == c && c !in s[..k]
  {
    if s[0] == c then 0
    else
      var k := 1 + IndexOf(s[1..], c);
      assert s[..k] == [s[0]] + s[1..][..k - 1];
      k
  }

  /** `' '.join(words)`. */
  function JoinWords(words: seq<string>): string
  {
    if |words| == 0 then []
    else if |words| == 1 then words[0]
    else words[0] + " " + JoinWords(words[1..])
  }

  /** `s.split(' ')`: never empty; joining the pieces with spaces gives `s` back. */
  function SplitOnSpace(s: string): (pieces: seq<string>)
    ensures |pieces| >= 1
    ensures JoinWords(pieces) == s
    ensures forall k | 0 <= k < |pieces| :: ' ' !in pieces[k]
    decreases |s|
  {
    if ' ' !in s then [s]
    else
      var k := IndexOf(s, ' ');
      var rest := SplitOnSpace(s[k + 1..]);
      assert s == s[..k] + " " + s[k + 1..];
      assert ([s[..k]] + rest)[1..] == rest;
      [s[..k]] + rest
  }

  /** `[w for w in words if w]`. */
  function NonEmptyWords(words: seq<string>): seq<string>
  {
    if words == [] then []
    else (if words[0] == [] then [] else [words[0]]) + NonEmptyWords(words[1..])
  }

  // ---------------------------------------------------------------------------
  // _clean_strings
  // ---------------------------------------------------------------------------

  /** The cleaning of one fragment: collapse, strip, split on spaces, drop empty pieces, re-join. */
  function CleanText(text: string): string
  {
    JoinWords(NonEmptyWords(SplitOnSpace(Strip(Collapse(text)))))
  }

  /** `_clean_strings`: drop the blank fragments, clean the others, keep the order. */
  function CleanStrings(texts: seq<string>): (r: seq<string>)
    ensures |r| <= |texts|
  {
    if texts == [] then []
    else
      var last := texts[|texts| - 1];
      CleanStrings(texts[..|texts| - 1]) + (if IsBlank(last) then [] else [CleanText(last)])
  }

  /** The number of fragments that are not blank. */
  function CountNonBlank(texts: seq<string>): nat
  {
    if texts == [] then 0
    else CountNonBlank(texts[..|texts| - 1]) + (if IsBlank(texts[|texts| - 1]) then 0 else 1)
  }

  // ---------------------------------------------------------------------------
  // Reference definition: the words of a fragment
  // ---------------------------------------------------------------------------

  /** The number of leading characters of `s` that are not separators. */
  function WordLength(s: string): (n: nat)
    ensures n <= |s|
    ensures forall i | 0 <= i < n :: !IsSep(s[i])
    ensures n == |s| || IsSep(s[n])
  {
    if s == [] || IsSep(s[0]) then 0 else 1 + WordLength(s[1..])
  }

  /** The suffix of `s` after its leading separators. */
  function DropSeps(s: string): (r: string)
    ensures |r| <= |s|
    ensures forall i | 0 <= i < |s| - |r| :: IsSep(s[i])
    ensures r == [] || !IsSep(r[0])
  {
    if s != [] && IsSep(s[0]) then DropSeps(s[1..]) else s
  }

  /** `DropSeps` keeps the rest of `s` after its leading separators. */
  lemma {:induction false} DropSepsIsSuffix(s: string)
    ensures DropSeps(s) == s[|s| - |DropSeps(s)|..]
    decreases |s|
  {
    if s != [] && IsSep(s[0]) {
      DropSepsIsSuffix(s[1..]);
    }
  }

  /** The maximal runs of non-separator characters of `s`, in order. */
  function Tokens(s: string): (ts: seq<string>)
    ensures forall k | 0 <= k < |ts| :: ts[k] != [] && SepFree(ts[k])
    decreases |s|
  {
    var d := DropSeps(s);
    if d == [] then []
    else
      var n := WordLength(d);
      [d[..n]] + Tokens(d[n..])
  }

  /** The characters of `s` that are neither whitespace nor a colon, in order. */
  function Letters(s: string): string
  {
    if s == [] then [] else (if IsSep(s[0]) then [] else [s[0]]) + Letters(s[1..])
  }

  function Concat(ws: seq<string>): string
  {
    if ws == [] then [] else ws[0] + Concat(ws[1..])
  }

  /** No space at either end and never two spaces in a row. */
  predicate Spaced(x: string) {
    && (x == [] || (x[0] != ' ' && x[|x| - 1] != ' '))
    && forall i | 0 <= i < |x| - 1 :: !(x[i] == ' ' && x[i + 1] == ' ')
  }

  /** The shape of a cleaned fragment: the only separator left is a single interior space. */
  predicate Clean(x: string) {
    && Spaced(x)
    && forall i | 0 <= i < |x| :: IsSep(x[i]) ==> x[i] == ' '
  }

  predicate GoodWords(ws: seq<string>) {
    forall k | 0 <= k < |ws| :: ws[k] != [] && SepFree(ws[k])
  }

  // ---------------------------------------------------------------------------
  // Lemmas: collapsing
  // ---------------------------------------------------------------------------

  /** Inside a run, leading separators produce nothing. */
  lemma {:induction false} CollapseSkipsRun(s: string)
    ensures CollapseSeps(s, true) == CollapseSeps(DropSeps(s), true)
    decreases |s|
  {
    if s != [] && IsSep(s[0]) {
      CollapseSkipsRun(s[1..]);
    }
  }

  /** A word is copied unchanged and ends any run. */
  lemma {:induction false} CollapseCopiesWord(w: string, rest: string, inRun: bool)
    requires w != [] && SepFree(w)
    ensures CollapseSeps(w + rest, inRun) == w + CollapseSeps(rest, false)
    decreases |w|
  {
    assert (w + rest)[0] == w[0];
    assert (w + rest)[1..] == w[1..] + rest;
    if |w| > 1 {
      CollapseCopiesWord(w[1..], rest, false);
    }
  }

  /** Inside a run the output never starts with a separator. */
  lemma {:induction false} CollapseInRunStart(s: string)
    ensures CollapseSeps(s, true) == [] || !IsSep(CollapseSeps(s, true)[0])
    decreases |s|
  {
    if s != [] && IsSep(s[0]) {
      CollapseInRunStart(s[1..]);
    }
  }

  /** Stripping the collapsed text equals collapsing as if inside a run and trimming the end. */
  lemma StripCollapse(s: string)
    ensures Strip(Collapse(s)) == TrimEnd(CollapseSeps(s, true))
  {
    if s == [] {
    } else if IsSep(s[0]) {
      var x := CollapseSeps(s[1..], true);
      CollapseInRunStart(s[1..]);
      assert CollapseSeps(s, true) == x;
      assert Collapse(s) == " " + x;
      assert (" " + x)[1..] == x;
      assert TrimStart(" " + x) == TrimStart(x);
      assert TrimStart(x) == x;
    } else {
      var x := [s[0]] + CollapseSeps(s[1..], false);
      assert Collapse(s) == x && CollapseSeps(s, true) == x;
      assert !IsWs(x[0]);
      assert TrimStart(x) == x;
    }
  }

  // ---------------------------------------------------------------------------
  // Lemmas: trimming the end
  // ---------------------------------------------------------------------------

  lemma {:induction false} TrimEndAppend(a: string, b: string)
    ensures TrimEnd(a + b) == if TrimEnd(b) == [] then TrimEnd(a) else a + TrimEnd(b)
    decreases |b|
  {
    if b == [] {
      assert a + b == a;
    } else if IsWs(b[|b| - 1]) {
      assert (a + b)[..|a + b| - 1] == a + b[..|b| - 1];
      TrimEndAppend(a, b[..|b| - 1]);
    }
  }

  /** The cleaning without the split and re-join is already the joined words. */
  lemma {:induction false} TrimCollapseIsJoinedTokens(s: string)
    ensures TrimEnd(CollapseSeps(s, true)) == JoinWords(Tokens(s))
    decreases |s|, 1
  {
    CollapseSkipsRun(s);
    if DropSeps(s) != [] {
      TrimCollapseFirstWord(s);
    }
  }

  /** The induction step above, for a fragment that has a first word. */
  lemma {:induction false} TrimCollapseFirstWord(s: string)
    requires DropSeps(s) != []
    ensures TrimEnd(CollapseSeps(DropSeps(s), true)) == JoinWords(Tokens(s))
    decreases |s|, 0
  {
    var d := DropSeps(s);
    var n := WordLength(d);
    var w, rest := d[..n], d[n..];
    assert d == w + rest;
    assert Tokens(s) == [w] + Tokens(rest);
    CollapseCopiesWord(w, rest, true);
    if rest == [] {
      assert CollapseSeps(d, true) == w;
      assert !IsWs(w[|w| - 1]);
      assert Tokens(s) == [w];
    } else {
      TrimCollapseIsJoinedTokens(rest);
      JoinAfterWord(w, rest);
    }
  }

  /** One step of the induction above: a word followed by a separator run and the rest. */
  lemma JoinAfterWord(w: string, rest: string)
    requires w != [] && SepFree(w)
    requires rest != [] && IsSep(rest[0])
    requires TrimEnd(CollapseSeps(rest, true)) == JoinWords(Tokens(rest))
    ensures TrimEnd(w + CollapseSeps(rest, false)) == JoinWords([w] + Tokens(rest))
  {
    var x := CollapseSeps(rest, true);
    TrimAfterWord(w, rest);
    JoinAfterWordTrimmed(w, x, Tokens(rest));
  }

  /** `rstrip` of a word followed by a separator run and the rest, in terms of the collapsed rest. */
  lemma TrimAfterWord(w: string, rest: string)
    requires rest != [] && IsSep(rest[0])
    ensures TrimEnd(w + CollapseSeps(rest, false)) ==
      var x := CollapseSeps(rest, true);
      if TrimEnd(x) == [] then TrimEnd(w + " ") else (w + " ") + TrimEnd(x)
  {
    var x := CollapseSeps(rest, true);
    assert CollapseSeps(rest, false) == " " + x;
    assert w + CollapseSeps(rest, false) == (w + " ") + x;
    TrimEndAppend(w + " ", x);
  }

  /** The step above with the collapsed rest `x` and its words `ts` left abstract. */
  lemma JoinAfterWordTrimmed(w: string, x: string, ts: seq<string>)
    requires w != [] && SepFree(w)
    requires GoodWords(ts)
    requires TrimEnd(x) == JoinWords(ts)
    ensures (if TrimEnd(x) == [] then TrimEnd(w + " ") else (w + " ") + TrimEnd(x)) == JoinWords([w] + ts)
  {
    if ts == [] {
      WordTrimmedByEnd(w);
      assert [w] + ts == [w];
    } else {
      assert TrimEnd(x) != [] by {
        JoinedWordsClean(ts);
      }
      assert JoinWords([w] + ts) == w + " " + JoinWords(ts) by {
        assert ([w] + ts)[1..] == ts;
      }
    }
  }

  /** A word followed by one space loses exactly that space to `rstrip`. */
  lemma WordTrimmedByEnd(w: string)
    requires w != [] && SepFree(w)
    ensures TrimEnd(w + " ") == w
    ensures JoinWords([w]) == w
  {
    TrimEndAppend(w, " ");
    assert w + [] == w;
    assert !IsWs(w[|w| - 1]);
  }

  // ---------------------------------------------------------------------------
  // Lemmas: joining words and splitting again
  // ---------------------------------------------------------------------------

  /** Joining non-empty words free of separators gives a cleanly spaced text. */
  lemma {:induction false} JoinedWordsClean(ws: seq<string>)
    requires GoodWords(ws)
    ensures Clean(JoinWords(ws))
    ensures JoinWords(ws) == [] <==> ws == []
    ensures ws != [] ==> JoinWords(ws)[0] == ws[0][0]
    decreases |ws|
  {
    if |ws| > 1 {
      var w, j := ws[0], JoinWords(ws[1..]);
      JoinedWordsClean(ws[1..]);
      var x := w + " " + j;
      assert JoinWords(ws) == x;
      forall i | 0 <= i < |x| ensures IsSep(x[i]) ==> x[i] == ' ' {
        if i < |w| { assert x[i] == w[i]; }
        else if i > |w| { assert x[i] == j[i - |w| - 1]; }
      }
      forall i | 0 <= i < |x| - 1 ensures !(x[i] == ' ' && x[i + 1] == ' ') {
        if i < |w| { assert x[i] == w[i]; }
        else if i > |w| { assert x[i] == j[i - |w| - 1] && x[i + 1] == j[i - |w|]; }
      }
    } else if |ws| == 1 {
      assert JoinWords(ws) == ws[0];
    }
  }

  /** Splitting a cleanly spaced text on spaces, dropping empty pieces and re-joining gives it back. */
  lemma {:induction false} SplitJoinSpaced(x: string)
    requires Spaced(x)
    ensures JoinWords(NonEmptyWords(SplitOnSpace(x))) == x
    decreases |x|
  {
    if ' ' in x {
      var k := IndexOf(x, ' ');
      var r := x[k + 1..];
      assert k > 0 && k < |x| - 1;
      assert x[k + 1] != ' ';
      assert Spaced(r) by {
        forall i | 0 <= i < |r| - 1 ensures !(r[i] == ' ' && r[i + 1] == ' ') {
          assert r[i] == x[k + 1 + i] && r[i + 1] == x[k + 2 + i];
        }
      }
      SplitJoinSpaced(r);
      var pieces := SplitOnSpace(x);
      assert pieces == [x[..k]] + SplitOnSpace(r);
      assert pieces[1..] == SplitOnSpace(r);
      var ne := NonEmptyWords(SplitOnSpace(r));
      assert NonEmptyWords(pieces) == [x[..k]] + ne;
      assert ne != [];
      assert ([x[..k]] + ne)[1..] == ne;
      assert x == x[..k] + " " + r;
    }
  }

  // ---------------------------------------------------------------------------
  // Lemmas: the cleaning of one fragment
  // ---------------------------------------------------------------------------

  /** Main theorem: cleaning a fragment returns its words joined by single spaces. */
  lemma CleanTextIsJoinedTokens(text: string)
    ensures CleanText(text) == JoinWords(Tokens(text))
  {
    StripCollapse(text);
    TrimCollapseIsJoinedTokens(text);
    JoinedWordsClean(Tokens(text));
    SplitJoinSpaced(JoinWords(Tokens(text)));
  }

  /** A cleaned fragment holds no colon, no whitespace other than single interior spaces. */
  lemma CleanTextShape(text: string)
    ensures Clean(CleanText(text))
    ensures ':' !in CleanText(text)
  {
    CleanTextIsJoinedTokens(text);
    JoinedWordsClean(Tokens(text));
  }

  lemma {:induction false} TokensEmptyIff(s: string)
    ensures Tokens(s) == [] <==> forall i | 0 <= i < |s| :: IsSep(s[i])
  {
    var d := DropSeps(s);
    DropSepsIsSuffix(s);
    if d != [] {
      assert !IsSep(s[|s| - |d|]);
    }
  }

  /** A fragment cleans to the empty string exactly when it is made only of whitespace and colons. */
  lemma CleanTextEmptyIff(text: string)
    ensures CleanText(text) == [] <==> forall i | 0 <= i < |text| :: IsSep(text[i])
  {
    CleanTextIsJoinedTokens(text);
    JoinedWordsClean(Tokens(text));
    TokensEmptyIff(text);
  }

  // ---------------------------------------------------------------------------
  // Lemmas: round trip of the words, idempotence, content
  // ---------------------------------------------------------------------------

  lemma {:induction false} TokensSkipSeps(s: string)
    ensures Tokens(s) == Tokens(DropSeps(s))
  {
    var d := DropSeps(s);
    assert DropSeps(d) == d;
  }

  /** The first word of a text that starts with a word `w` followed by a separator. */
  lemma WordLengthOfWord(w: string, rest: string)
    requires SepFree(w)
    requires rest == [] || IsSep(rest[0])
    ensures WordLength(w + rest) == |w|
  {
    var x := w + rest;
    assert forall i | 0 <= i < |w| :: x[i] == w[i];
    assert |w| < |x| ==> x[|w|] == rest[0];
  }

  /** Round trip: the words of words joined by spaces are those words. */
  lemma {:induction false} TokensOfJoinedWords(ws: seq<string>)
    requires GoodWords(ws)
    ensures Tokens(JoinWords(ws)) == ws
    decreases |ws|
  {
    if |ws| == 1 {
      TokensOfWord(ws[0]);
    } else if |ws| > 1 {
      JoinedWordsClean(ws[1..]);
      TokensOfJoinedWords(ws[1..]);
      TokensOfWordThenText(ws[0], JoinWords(ws[1..]));
      assert ([ws[0]] + ws[1..]) == ws;
    }
  }

  lemma TokensOfWord(w: string)
    requires w != [] && SepFree(w)
    ensures Tokens(w) == [w]
  {
    WordLengthOfWord(w, []);
    assert w + [] == w;
    assert DropSeps(w) == w;
    assert w[|w|..] == [];
  }

  lemma TokensOfWordThenText(w: string, j: string)
    requires w != [] && SepFree(w)
    requires j != [] && !IsSep(j[0])
    ensures Tokens(w + " " + j) == [w] + Tokens(j)
  {
    var x := w + (" " + j);
    assert w + " " + j == x;
    assert DropSeps(x) == x;
    WordLengthOfWord(w, " " + j);
    assert x[..|w|] == w && x[|w|..] == " " + j;
    assert Tokens(x) == [w] + Tokens(" " + j);
    TokensSkipSeps(" " + j);
    assert DropSeps(" " + j) == DropSeps(j) == j;
  }

  /** Cleaning an already cleaned fragment changes nothing. */
  lemma CleanTextIdempotent(text: string)
    ensures CleanText(CleanText(text)) == CleanText(text)
  {
    var c := CleanText(text);
    CleanTextIsJoinedTokens(text);
    CleanTextIsJoinedTokens(c);
    TokensOfJoinedWords(Tokens(text));
  }

  lemma {:induction false} LettersAppend(a: string, b: string)
    ensures Letters(a + b) == Letters(a) + Letters(b)
    decreases |a|
  {
    if a != [] {
      assert (a + b)[1..] == a[1..] + b;
      LettersAppend(a[1..], b);
    } else {
      assert a + b == b;
    }
  }

  lemma {:induction false} LettersOfWord(w: string)
    requires SepFree(w)
    ensures Letters(w) == w
    decreases |w|
  {
    if w != [] {
      LettersOfWord(w[1..]);
    }
  }

  lemma {:induction false} LettersOfSeps(s: string)
    requires forall i | 0 <= i < |s| :: IsSep(s[i])
    ensures Letters(s) == []
    decreases |s|
  {
    if s != [] {
      LettersOfSeps(s[1..]);
    }
  }

  /** The letters of a fragment are the letters of its words. */
  lemma {:induction false} LettersAreTokens(s: string)
    ensures Letters(s) == Concat(Tokens(s))
    decreases |s|, 1
  {
    var d := DropSeps(s);
    var skipped := s[..|s| - |d|];
    DropSepsIsSuffix(s);
    assert s == skipped + d;
    LettersAppend(skipped, d);
    LettersOfSeps(skipped);
    if d != [] {
      LettersOfFirstWord(s);
    }
  }

  lemma {:induction false} LettersOfFirstWord(s: string)
    requires DropSeps(s) != []
    ensures Letters(DropSeps(s)) == Concat(Tokens(s))
    decreases |s|, 0
  {
    var d := DropSeps(s);
    var n := WordLength(d);
    var w, rest := d[..n], d[n..];
    assert d == w + rest;
    LettersAppend(w, rest);
    LettersOfWord(w);
    LettersAreTokens(rest);
    assert Tokens(s) == [w] + Tokens(rest);
    assert ([w] + Tokens(rest))[1..] == Tokens(rest);
  }

  lemma {:induction false} LettersOfJoinedWords(ws: seq<string>)
    requires GoodWords(ws)
    ensures Letters(JoinWords(ws)) == Concat(ws)
    decreases |ws|
  {
    if |ws| == 1 {
      LettersOfWord(ws[0]);
      assert Concat(ws[1..]) == [];
    } else if |ws| > 1 {
      var w, j := ws[0], JoinWords(ws[1..]);
      LettersOfJoinedWords(ws[1..]);
      LettersAppend(w + " ", j);
      LettersAppend(w, " ");
      LettersOfWord(w);
      assert Letters(" ") == [];
    }
  }

  /** Cleaning keeps every character that is neither whitespace nor a colon, in order. */
  lemma CleanTextKeepsLetters(text: string)
    ensures Letters(CleanText(text)) == Letters(text)
  {
    CleanTextIsJoinedTokens(text);
    LettersOfJoinedWords(Tokens(text));
    LettersAreTokens(text);
  }

  // ---------------------------------------------------------------------------
  // Lemmas: the cleaning of a list of fragments
  // ---------------------------------------------------------------------------

  /** `_clean_strings` keeps one entry per non-blank fragment. */
  lemma {:induction false} CleanStringsLength(texts: seq<string>)
    ensures |CleanStrings(texts)| == CountNonBlank(texts)
    decreases |texts|
  {
    if texts != [] {
      CleanStringsLength(texts[..|texts| - 1]);
    }
  }

  /**
   * `_clean_strings` keeps the order: the non-blank fragment at index `j` is
   * cleaned into the entry whose index counts the non-blank fragments before it.
   */
  lemma {:induction false} CleanStringsAt(texts: seq<string>, j: nat)
    requires j < |texts| && !IsBlank(texts[j])
    ensures CountNonBlank(texts[..j]) < |CleanStrings(texts)|
    ensures CleanStrings(texts)[CountNonBlank(texts[..j])] == CleanText(texts[j])
    decreases |texts|
  {
    var n := |texts|;
    var p := texts[..n - 1];
    var tail := if IsBlank(texts[n - 1]) then [] else [CleanText(texts[n - 1])];
    assert CleanStrings(texts) == CleanStrings(p) + tail;
    if j < n - 1 {
      PrefixOfPrefix(texts, j, n - 1);
      var t := texts[j];
      assert p[j] == t;
      CleanStringsAt(p, j);
      var k := CountNonBlank(p[..j]);
      assert p[..j] == texts[..j];
      assert k == CountNonBlank(texts[..j]);
      assert CleanStrings(p)[k] == CleanText(t);
      assert CleanStrings(texts)[k] == CleanStrings(p)[k];
    } else {
      CleanStringsLength(p);
      assert texts[..j] == p;
      assert tail == [CleanText(texts[j])];
    }
  }

  lemma PrefixOfPrefix<T>(s: seq<T>, j: nat, m: nat)
    requires j < m <= |s|
    ensures s[..m][..j] == s[..j] && s[..m][j] == s[j]
  {
  }

  /** When every fragment after index `j` is blank, the non-blank fragments are those up to and including `j`. */
  lemma {:induction false} CountNonBlankTrailingBlanks(texts: seq<string>, j: nat)
    requires j < |texts| && !IsBlank(texts[j])
    requires forall i | j < i < |texts| :: IsBlank(texts[i])
    ensures CountNonBlank(texts) == CountNonBlank(texts[..j]) + 1
    decreases |texts|
  {
    var n := |texts|;
    var p := texts[..n - 1];
    if j == n - 1 {
      assert p == texts[..j];
    } else {
      CountNonBlankTrailingBlanks(p, j);
      assert p[..j] == texts[..j];
    }
  }

  /** Every entry `_clean_strings` returns is a cleaned fragment. */
  lemma {:induction false} CleanStringsShape(texts: seq<string>)
    ensures forall i | 0 <= i < |CleanStrings(texts)| :: Clean(CleanStrings(texts)[i])
    decreases |texts|
  {
    if texts != [] {
      CleanStringsShape(texts[..|texts| - 1]);
      CleanTextShape(texts[|texts| - 1]);
    }
  }

  /** A non-blank fragment made only of colons and whitespace is kept, as the empty string. */
  lemma ColonFragmentKeptEmpty(texts: seq<string>, j: nat)
    requires j < |texts| && !IsBlank(texts[j])
    requires forall i | 0 <= i < |texts[j]| :: IsSep(texts[j][i])
    ensures CountNonBlank(texts[..j]) < |CleanStrings(texts)|
    ensures CleanStrings(texts)[CountNonBlank(texts[..j])] == []
  {
    CleanStringsAt(texts, j);
    CleanTextEmptyIff(texts[j]);
  }
}
