/** The text-normalisation and sentiment rules of `TextProcessor`:
    `clean_text`, `tokenize`, `process_text`, and the category rule that
    `get_sentiment` applies to a polarity score. */
module TextProcessor {
  import opened Ascii
  import opened Strings

  // ---------------------------------------------------------------------------
  // tokenize: `text.split()`
  // ---------------------------------------------------------------------------

  predicate NoSpace(w: string) {
    forall i | 0 <= i < |w| :: NotSpace(w[i])
  }

  predicate AllSpace(s: string) {
    forall i | 0 <= i < |s| :: IsSpace(s[i])
  }

  /** The length of the longest all-whitespace prefix of `s`. */
  function SpaceLength(s: string): (m: nat)
    ensures m <= |s|
    ensures AllSpace(s[..m])
    ensures m < |s| ==> NotSpace(s[m])
  {
    if s != [] && IsSpace(s[0]) then 1 + SpaceLength(s[1..]) else 0
  }

  /** The length of the longest whitespace-free prefix of `s`. */
  function WordLength(s: string): (n: nat)
    ensures n <= |s|
    ensures NoSpace(s[..n])
    ensures n < |s| ==> IsSpace(s[n])
  {
    if s == [] || IsSpace(s[0]) then 0 else 1 + WordLength(s[1..])
  }

  /** `text.split()`: the maximal whitespace-free runs of `text`, in order. */
  function Tokenize(text: string): (tokens: seq<string>)
    ensures forall k | 0 <= k < |tokens| :: tokens[k] != [] && NoSpace(tokens[k])
    ensures tokens == [] <==> AllSpace(text)
    decreases |text|
  {
    var m := SpaceLength(text);
    if m == |text| then
      assert text[..m] == text;
      []
    else
      var t := text[m..];
      var n := WordLength(t);
      assert t[0] == text[m] && n > 0;
      var rest := Tokenize(t[n..]);
      WordsCons(t[..n], rest);
      [t[..n]] + rest
  }

  /** Adding a non-empty, whitespace-free word in front of a list of such
      words gives a list of such words. */
  lemma WordsCons(w: string, ws: seq<string>)
    requires w != [] && NoSpace(w)
    requires forall k | 0 <= k < |ws| :: ws[k] != [] && NoSpace(ws[k])
    ensures forall k | 0 <= k < |[w] + ws| :: ([w] + ws)[k] != [] && NoSpace(([w] + ws)[k])
  {
    forall k | 0 <= k < |[w] + ws|
      ensures ([w] + ws)[k] != [] && NoSpace(([w] + ws)[k])
    {
      if k > 0 {
        assert ([w] + ws)[k] == ws[k - 1];
      }
    }
  }

  /** Every character of every token is a character of the text, so a property
      of all the text's characters holds of all the tokens' characters. */
  lemma {:induction false} TokenizeKeeps(text: string, q: char -> bool)
    requires forall i | 0 <= i < |text| :: q(text[i])
    ensures forall w | w in Tokenize(text) :: forall i | 0 <= i < |w| :: q(w[i])
    decreases |text|
  {
    var m := SpaceLength(text);
    if m < |text| {
      var t := text[m..];
      var n := WordLength(t);
      assert forall i | 0 <= i < |t| :: q(t[i]) by {
        forall i | 0 <= i < |t| ensures q(t[i]) {
          assert t[i] == text[m + i];
        }
      }
      TokenizeKeeps(t[n..], q);
      assert forall i | 0 <= i < n :: q(t[..n][i]);
      assert Tokenize(text) == [t[..n]] + Tokenize(t[n..]);
    }
  }

  /** The tokens, concatenated, are the text with its whitespace removed. */
  lemma {:induction false} TokenizeConcat(text: string)
    ensures Concat(Tokenize(text)) == Filter(text, NotSpace)
    decreases |text|
  {
    var m := SpaceLength(text);
    var t := text[m..];
    FilterSplit(text, m);
    FilterNone(text[..m], NotSpace);
    if t != [] {
      var n := WordLength(t);
      FilterSplit(t, n);
      FilterAll(t[..n], NotSpace);
      TokenizeConcat(t[n..]);
      ConcatCons(t[..n], Tokenize(t[n..]));
    }
  }

  lemma FilterSplit(s: string, n: nat)
    requires n <= |s|
    ensures Filter(s, NotSpace) == Filter(s[..n], NotSpace) + Filter(s[n..], NotSpace)
  {
    assert s == s[..n] + s[n..];
    FilterAppend(s[..n], s[n..], NotSpace);
  }

  lemma ConcatCons(w: string, ws: seq<string>)
    ensures Concat([w] + ws) == w + Concat(ws)
  {
    assert ([w] + ws)[1..] == ws;
  }

  /** `WordLength` is the only length with its two defining properties. */
  lemma {:induction false} WordLengthIs(s: string, n: nat)
    requires n <= |s| && NoSpace(s[..n]) && (n < |s| ==> IsSpace(s[n]))
    ensures WordLength(s) == n
  {
    if n > 0 {
      assert s[0] == s[..n][0];
      assert s[1..][..n - 1] == s[..n][1..];
      WordLengthIs(s[1..], n - 1);
    }
  }

  /** A leading whitespace character makes no token. */
  lemma TokenizeSpaceCons(c: char, rest: string)
    requires IsSpace(c)
    ensures Tokenize([c] + rest) == Tokenize(rest)
  {
    assert ([c] + rest)[1..] == rest;
    assert SpaceLength([c] + rest) == 1 + SpaceLength(rest);
    assert ([c] + rest)[1 + SpaceLength(rest)..] == rest[SpaceLength(rest)..];
  }

  /** A whitespace-free word up to whitespace (or the end) is the first token. */
  lemma TokenizeWordCons(w: string, rest: string)
    requires w != [] && NoSpace(w) && (rest == [] || IsSpace(rest[0]))
    ensures Tokenize(w + rest) == [w] + Tokenize(rest)
  {
    var s := w + rest;
    assert s[0] == w[0];
    assert SpaceLength(s) == 0 && s[0..] == s;
    assert s[..|w|] == w;
    assert |w| < |s| ==> s[|w|] == rest[0];
    WordLengthIs(s, |w|);
    assert s[|w|..] == rest;
  }

  lemma TokenizeWord(w: string)
    requires w != [] && NoSpace(w)
    ensures Tokenize(w) == [w]
  {
    TokenizeWordCons(w, []);
    assert w + [] == w;
    assert Tokenize([]) == [];
  }

  lemma TokenizeJoinCons(w: string, rest: seq<string>)
    requires w != [] && NoSpace(w) && rest != []
    ensures Tokenize(Join([w] + rest, " ")) == [w] + Tokenize(Join(rest, " "))
  {
    var r := Join(rest, " ");
    JoinCons(w, rest);
    assert w + " " + r == w + (" " + r);
    TokenizeWordCons(w, " " + r);
    TokenizeSpaceCons(' ', r);
  }

  /** `' '.join` then `split()` gives the words back, when the words are
      non-empty and whitespace-free. */
  lemma {:induction false} TokenizeJoin(ws: seq<string>)
    requires forall k | 0 <= k < |ws| :: ws[k] != [] && NoSpace(ws[k])
    ensures Tokenize(Join(ws, " ")) == ws
  {
    if |ws| == 1 {
      TokenizeWord(ws[0]);
    } else if |ws| > 1 {
      WordsTail(ws);
      TokenizeJoin(ws[1..]);
      TokenizeJoinStep(ws);
    }
  }

  lemma WordsTail(ws: seq<string>)
    requires ws != []
    requires forall k | 0 <= k < |ws| :: ws[k] != [] && NoSpace(ws[k])
    ensures forall k | 0 <= k < |ws[1..]| :: ws[1..][k] != [] && NoSpace(ws[1..][k])
  {
    forall k | 0 <= k < |ws[1..]| ensures ws[1..][k] != [] && NoSpace(ws[1..][k]) {
      assert ws[1..][k] == ws[k + 1];
    }
  }

  /** The inductive step of TokenizeJoin: a first word in front of a list of
      words that already round-trips. */
  lemma TokenizeJoinStep(ws: seq<string>)
    requires |ws| > 1 && ws[0] != [] && NoSpace(ws[0])
    requires Tokenize(Join(ws[1..], " ")) == ws[1..]
    ensures Tokenize(Join(ws, " ")) == ws
  {
    TokenizeJoinCons(ws[0], ws[1..]);
    assert [ws[0]] + ws[1..] == ws;
  }

  // ---------------------------------------------------------------------------
  // clean_text
  // ---------------------------------------------------------------------------

  /** A character of the class `[a-zA-Z\s]` that `clean_text` keeps. */
  predicate IsKept(c: char) {
    IsLetter(c) || IsSpace(c)
  }

  /** The shape of a cleaned text: lower-case letters and single spaces,
      with no space at either end. */
  predicate IsClean(s: string) {
    && (forall i | 0 <= i < |s| :: IsLower(s[i]) || s[i] == ' ')
    && (s != [] ==> s[0] != ' ' && s[|s| - 1] != ' ')
    && (forall i, j | 0 <= i < |s| && 0 <= j < |s| && j == i + 1 :: s[i] == ' ' ==> s[j] != ' ')
  }

  /** `clean_text`: lower-case, drop every character outside `[a-zA-Z\s]`,
      then `' '.join(text.split())`. */
  function CleanText(text: string): (cleaned: string)
    ensures IsClean(cleaned)
    ensures Filter(cleaned, NotSpace) == LowerString(Filter(text, IsLetter))
    ensures cleaned == Join(CleanWords(Tokenize(text)), " ")
  {
    var kept := Filter(LowerString(text), IsKept);
    CleanTextProof(text, kept);
    Join(Tokenize(kept), " ")
  }

  lemma CleanTextProof(text: string, kept: string)
    requires kept == Filter(LowerString(text), IsKept)
    ensures IsClean(Join(Tokenize(kept), " "))
    ensures Filter(Join(Tokenize(kept), " "), NotSpace) == LowerString(Filter(text, IsLetter))
    ensures Join(Tokenize(kept), " ") == Join(CleanWords(Tokenize(text)), " ")
  {
    CleanShape(text, kept);
    CleanLetters(text, kept);
    KeptTokens(text);
  }

  /** Only lower-case letters and whitespace survive, so the joined tokens
      have the cleaned shape. */
  lemma CleanShape(text: string, kept: string)
    requires kept == Filter(LowerString(text), IsKept)
    ensures IsClean(Join(Tokenize(kept), " "))
  {
    FilterKeeps(LowerString(text), IsKept, NotUpper);
    assert forall i | 0 <= i < |kept| :: IsLowerOrSpace(kept[i]);
    TokenizeKeeps(kept, IsLowerOrSpace);
    var tokens := Tokenize(kept);
    assert forall k, i | 0 <= k < |tokens| && 0 <= i < |tokens[k]| :: IsLowerOrSpace(tokens[k][i]) by {
      forall k, i | 0 <= k < |tokens| && 0 <= i < |tokens[k]| ensures IsLowerOrSpace(tokens[k][i]) {
        assert tokens[k] in tokens;
      }
    }
    JoinIsClean(tokens);
  }

  /** The joined tokens carry the letters of the text, lower-cased, in order. */
  lemma CleanLetters(text: string, kept: string)
    requires kept == Filter(LowerString(text), IsKept)
    ensures Filter(Join(Tokenize(kept), " "), NotSpace) == LowerString(Filter(text, IsLetter))
  {
    var tokens := Tokenize(kept);
    forall k | 0 <= k < |tokens| ensures Filter(tokens[k], NotSpace) == tokens[k] {
      FilterAll(tokens[k], NotSpace);
    }
    assert Filter(" ", NotSpace) == [];
    FilterJoin(tokens, " ", NotSpace);
    TokenizeConcat(kept);
    FilterFilter(LowerString(text), IsKept, NotSpace, IsLetter);
    LowerStringLetters(text);
  }

  /** Lower-casing and selecting the letters commute. */
  lemma {:induction false} LowerStringLetters(s: string)
    ensures Filter(LowerString(s), IsLetter) == LowerString(Filter(s, IsLetter))
  {
    if s != [] {
      LowerStringLetters(s[1..]);
      var head: string := if IsLetter(s[0]) then [s[0]] else [];
      LowerStringAppend(head, Filter(s[1..], IsLetter));
      LowerStringAppend([s[0]], s[1..]);
      assert s == [s[0]] + s[1..];
    }
  }

  lemma {:induction false} LowerStringAppend(a: string, b: string)
    ensures LowerString(a + b) == LowerString(a) + LowerString(b)
  {
    assert |LowerString(a + b)| == |LowerString(a) + LowerString(b)|;
    forall i | 0 <= i < |a + b|
      ensures LowerString(a + b)[i] == (LowerString(a) + LowerString(b))[i]
    {
      if i < |a| {
        assert (a + b)[i] == a[i];
      } else {
        assert (a + b)[i] == b[i - |a|];
      }
    }
  }

  /** Lower-casing a joined text lower-cases each word. */
  lemma {:induction false} LowerStringJoin(ws: seq<string>)
    ensures LowerString(Join(ws, " ")) == Join(MapWords(ws, LowerString), " ")
  {
    var lowered := MapWords(ws, LowerString);
    if |ws| == 1 {
      assert lowered == [LowerString(ws[0])];
    } else if |ws| > 1 {
      var rest := Join(ws[1..], " ");
      LowerStringJoin(ws[1..]);
      assert lowered[1..] == MapWords(ws[1..], LowerString);
      assert LowerString(" ") == " ";
      calc {
        LowerString(Join(ws, " "));
        LowerString(ws[0] + " " + rest);
        { LowerStringAppend(ws[0] + " ", rest); }
        LowerString(ws[0] + " ") + LowerString(rest);
        { LowerStringAppend(ws[0], " "); }
        LowerString(ws[0]) + " " + LowerString(rest);
        lowered[0] + " " + Join(lowered[1..], " ");
        Join(lowered, " ");
      }
    }
  }

  /** `' '.join` of non-empty lower-case words has the cleaned shape. */
  lemma {:induction false} JoinIsClean(ws: seq<string>)
    requires forall k, i | 0 <= k < |ws| && 0 <= i < |ws[k]| :: IsLowerOrSpace(ws[k][i])
    requires forall k | 0 <= k < |ws| :: ws[k] != [] && NoSpace(ws[k])
    ensures IsClean(Join(ws, " "))
  {
    if |ws| == 1 {
      assert forall i | 0 <= i < |ws[0]| :: IsLower(ws[0][i]);
    } else if |ws| > 1 {
      var w, rest := ws[0], Join(ws[1..], " ");
      JoinIsClean(ws[1..]);
      JoinStart(ws[1..], " ");
      assert ws[1] <= rest;
      var s := w + " " + rest;
      assert forall i | 0 <= i < |w| :: IsLower(w[i]);
      assert forall i | 0 <= i < |w| :: s[i] == w[i];
      assert s[|w|] == ' ';
      assert forall i | |w| < i < |s| :: s[i] == rest[i - |w| - 1];
      assert s[|s| - 1] == rest[|rest| - 1];
    }
  }

  /** On a cleaned text, `' '.join(c.split())` gives `c` back. */
  lemma {:induction false} JoinTokenizeClean(c: string)
    requires IsClean(c)
    ensures Join(Tokenize(c), " ") == c
    decreases |c|
  {
    if c != [] {
      var n := CleanFirstWord(c);
      if n < |c| {
        var rest := CleanAfterWord(c, n);
        TokenizeAfterWord(c, n, rest);
        JoinTokenizeClean(rest);
        JoinAfterWord(c, n, rest, Tokenize(c), Tokenize(rest));
      }
    }
  }

  /** The inductive step of JoinTokenizeClean: the first word, one space, and
      a remainder that already round-trips. */
  lemma JoinAfterWord(c: string, n: nat, rest: string, tokens: seq<string>, restTokens: seq<string>)
    requires n + 1 < |c| && c[n] == ' ' && rest == c[n + 1..]
    requires tokens == [c[..n]] + restTokens && restTokens != []
    requires Join(restTokens, " ") == rest
    ensures Join(tokens, " ") == c
  {
    JoinCons(c[..n], restTokens);
    assert c == c[..n] + " " + rest;
  }

  /** A non-empty cleaned text starts with its first token. */
  lemma CleanFirstWord(c: string) returns (n: nat)
    requires IsClean(c) && c != []
    ensures n == WordLength(c) && 0 < n <= |c|
    ensures Tokenize(c) == [c[..n]] + Tokenize(c[n..])
    ensures n == |c| ==> Tokenize(c) == [c]
  {
    assert NotSpace(c[0]);
    assert SpaceLength(c) == 0 && c[0..] == c;
    n := WordLength(c);
    if n == |c| {
      assert c[..n] == c && c[n..] == [];
      assert Tokenize(c[n..]) == [];
    }
  }

  lemma JoinCons(w: string, ws: seq<string>)
    requires ws != []
    ensures Join([w] + ws, " ") == w + " " + Join(ws, " ")
  {
    assert ([w] + ws)[1..] == ws;
  }

  /** In a cleaned text, a word that ends before the end is followed by one
      space and a non-empty cleaned remainder. */
  lemma CleanAfterWord(c: string, n: nat) returns (rest: string)
    requires IsClean(c) && c != [] && n == WordLength(c) < |c|
    ensures n + 1 < |c| && c[n] == ' ' && rest == c[n + 1..]
    ensures IsClean(rest) && rest != [] && NotSpace(rest[0])
  {
    assert IsSpace(c[n]);
    assert c[n] == ' ';
    assert n + 1 < |c|;
    rest := c[n + 1..];
    assert c[n + 1] != ' ';
    CleanDrop(c, n + 1);
    assert IsLower(rest[0]);
  }

  /** The space after a word makes no token, and the remainder makes some. */
  lemma TokenizeAfterWord(c: string, n: nat, rest: string)
    requires n + 1 < |c| && c[n] == ' ' && rest == c[n + 1..] && NotSpace(rest[0])
    ensures Tokenize(rest) != []
    ensures Tokenize(c[n..]) == Tokenize(rest)
  {
    TokenizeSpaceCons(' ', rest);
    assert c[n..] == [' '] + rest;
  }

  /** A cleaned text, cut just before a non-space, leaves a cleaned text. */
  lemma CleanDrop(c: string, k: nat)
    requires IsClean(c) && k < |c| && c[k] != ' '
    ensures IsClean(c[k..])
  {
    var rest := c[k..];
    assert forall i | 0 <= i < |rest| :: rest[i] == c[k + i];
    forall i, j | 0 <= i < |rest| && 0 <= j < |rest| && j == i + 1
      ensures rest[i] == ' ' ==> rest[j] != ' '
    {
      assert rest[i] == c[k + i] && rest[j] == c[k + j];
    }
  }

  /** `clean_text` leaves a text unchanged exactly when the text already has
      the cleaned shape. */
  lemma CleanTextFixedPoint(s: string)
    ensures CleanText(s) == s <==> IsClean(s)
  {
    if IsClean(s) {
      assert LowerString(s) == s;
      FilterAll(s, IsKept);
      JoinTokenizeClean(s);
    }
  }

  /** `clean_text` is idempotent. */
  lemma CleanTextIdempotent(text: string)
    ensures CleanText(CleanText(text)) == CleanText(text)
  {
    CleanTextFixedPoint(CleanText(text));
  }

  /** A text without whitespace cleans to its lower-cased letters, as one
      word. */
  lemma CleanTextNoSpace(text: string)
    requires NoSpace(text)
    ensures CleanText(text) == LowerString(Filter(text, IsLetter))
  {
    var lowered := LowerString(text);
    var kept := Filter(lowered, IsKept);
    FilterKeeps(lowered, IsKept, NotSpace);
    FilterAll(kept, NotSpace);
    FilterFilter(lowered, IsKept, NotSpace, IsLetter);
    LowerStringLetters(text);
    if kept != [] {
      TokenizeWord(kept);
    } else {
      assert AllSpace(kept);
    }
  }

  /** A character outside `[a-zA-Z\s]` is deleted wherever it stands: it
      neither splits the word it stands in nor leaves a space behind. */
  lemma CleanTextDeletes(a: string, c: char, b: string)
    requires !IsKept(c)
    ensures CleanText(a + [c] + b) == CleanText(a + b)
  {
    KeptDeletes(a, c, b);
  }

  lemma KeptDeletes(a: string, c: char, b: string)
    requires !IsKept(c)
    ensures Filter(LowerString(a + [c] + b), IsKept) == Filter(LowerString(a + b), IsKept)
  {
    var la, lc, lb := LowerString(a), LowerString([c]), LowerString(b);
    assert lc == [Lower(c)];
    assert Filter(lc, IsKept) == [];
    LowerStringAppend(a + [c], b);
    LowerStringAppend(a, [c]);
    LowerStringAppend(a, b);
    FilterAppend(la + lc, lb, IsKept);
    FilterAppend(la, lc, IsKept);
    FilterAppend(la, lb, IsKept);
  }

  /** What `clean_text` makes of one token of the raw text: its letters,
      lower-cased. */
  function CleanWord(w: string): string {
    LowerString(Filter(w, IsLetter))
  }

  /** The words of the cleaned text, computed token by token from
      `text.split()`: each token is cleaned on its own, and a token left with
      no letters disappears. */
  function CleanWords(tokens: seq<string>): seq<string> {
    if tokens == [] then []
    else (if CleanWord(tokens[0]) == [] then [] else [CleanWord(tokens[0])]) + CleanWords(tokens[1..])
  }

  /** Splitting the cleaned text gives the raw text's tokens, each cleaned on
      its own, with the tokens that had no letter dropped. */
  lemma CleanTextWords(text: string)
    ensures Tokenize(CleanText(text)) == CleanWords(Tokenize(text))
  {
    var kept := Filter(LowerString(text), IsKept);
    KeptTokens(text);
    TokenizeJoin(Tokenize(kept));
  }

  /** Lower-casing and deleting what `[^a-zA-Z\s]` matches, then splitting,
      is splitting and then cleaning each token. */
  lemma {:induction false} KeptTokens(s: string)
    ensures Tokenize(Filter(LowerString(s), IsKept)) == CleanWords(Tokenize(s))
    decreases |s|
  {
    var m := SpaceLength(s);
    var t := s[m..];
    KeptLeadingSpace(s, m);
    if t == [] {
      assert AllSpace(s) by { assert s[..m] == s; }
    } else {
      var n := WordLength(t);
      assert t[0] == s[m] && n > 0;
      KeptTokens(t[n..]);
      KeptWordStep(t, n);
      assert Tokenize(s) == [t[..n]] + Tokenize(t[n..]);
      assert ([t[..n]] + Tokenize(t[n..]))[1..] == Tokenize(t[n..]);
    }
  }

  /** Cleaning keeps leading whitespace as whitespace, so it makes no token. */
  lemma KeptLeadingSpace(s: string, m: nat)
    requires m <= |s| && AllSpace(s[..m])
    ensures Tokenize(Filter(LowerString(s), IsKept)) == Tokenize(Filter(LowerString(s[m..]), IsKept))
  {
    KeptSplit(s, m);
    KeptSpaces(s[..m]);
    TokenizeSpaces(Filter(LowerString(s[..m]), IsKept), Filter(LowerString(s[m..]), IsKept));
  }

  /** A first token that reaches whitespace or the end cleans to its own word,
      which is gone when the token had no letter. */
  lemma KeptWordStep(t: string, n: nat)
    requires 0 < n <= |t| && NoSpace(t[..n]) && (n < |t| ==> IsSpace(t[n]))
    ensures Tokenize(Filter(LowerString(t), IsKept)) ==
      (if CleanWord(t[..n]) == [] then [] else [CleanWord(t[..n])]) + Tokenize(Filter(LowerString(t[n..]), IsKept))
  {
    var w, rest := t[..n], t[n..];
    KeptSplit(t, n);
    KeptWord(w);
    KeptStart(rest);
    var rr := Filter(LowerString(rest), IsKept);
    if CleanWord(w) != [] {
      TokenizeWordCons(CleanWord(w), rr);
    } else {
      assert Filter(LowerString(t), IsKept) == rr;
    }
  }

  lemma KeptSplit(s: string, k: nat)
    requires k <= |s|
    ensures Filter(LowerString(s), IsKept) == Filter(LowerString(s[..k]), IsKept) + Filter(LowerString(s[k..]), IsKept)
  {
    assert s == s[..k] + s[k..];
    LowerStringAppend(s[..k], s[k..]);
    FilterAppend(LowerString(s[..k]), LowerString(s[k..]), IsKept);
  }

  /** Whitespace survives cleaning as whitespace. */
  lemma KeptSpaces(a: string)
    requires AllSpace(a)
    ensures AllSpace(Filter(LowerString(a), IsKept))
  {
    FilterKeeps(LowerString(a), IsKept, IsSpace);
  }

  /** A text that starts with whitespace still does after cleaning. */
  lemma KeptStart(s: string)
    requires s == [] || IsSpace(s[0])
    ensures Filter(LowerString(s), IsKept) == [] || IsSpace(Filter(LowerString(s), IsKept)[0])
  {
    if s != [] {
      assert LowerString(s)[0] == Lower(s[0]);
    }
  }

  /** A whitespace-free token cleans to its letters, lower-cased. */
  lemma KeptWord(w: string)
    requires NoSpace(w)
    ensures Filter(LowerString(w), IsKept) == CleanWord(w)
  {
    var lowered := LowerString(w);
    assert forall i | 0 <= i < |lowered| :: NotSpace(lowered[i]);
    FilterAll(lowered, NotSpace);
    FilterFilter(lowered, NotSpace, IsKept, IsLetter);
    LowerStringLetters(w);
  }

  /** Leading whitespace makes no token. */
  lemma {:induction false} TokenizeSpaces(a: string, b: string)
    requires AllSpace(a)
    ensures Tokenize(a + b) == Tokenize(b)
  {
    if a == [] {
      assert a + b == b;
    } else {
      assert a + b == [a[0]] + (a[1..] + b);
      TokenizeSpaceCons(a[0], a[1..] + b);
      TokenizeSpaces(a[1..], b);
    }
  }

  /** The two tokens of `"Hello, World!"`. */
  const HelloWorld: seq<string> := ["Hello,", "World!"]

  lemma HelloWorldText()
    ensures Join(HelloWorld, " ") == "Hello, World!"
  {
  }

  lemma HelloLetters()
    ensures Filter("Hello,", IsLetter) == "Hello"
  {
  }

  lemma WorldLetters()
    ensures Filter("World!", IsLetter) == "World"
  {
  }

  lemma HelloLower()
    ensures LowerString("Hello") == "hello"
  {
  }

  lemma WorldLower()
    ensures LowerString("World") == "world"
  {
  }

  lemma CleanWordsPair(a: string, b: string)
    requires CleanWord(a) != [] && CleanWord(b) != []
    ensures CleanWords([a, b]) == [CleanWord(a), CleanWord(b)]
  {
    assert [a, b][1..] == [b];
    assert CleanWords([b]) == [CleanWord(b)] by {
      assert [b][1..] == [];
    }
  }

  lemma HelloWorldWords()
    ensures CleanWords(HelloWorld) == ["hello", "world"]
  {
    HelloLetters();
    WorldLetters();
    HelloLower();
    WorldLower();
    CleanWordsPair("Hello,", "World!");
  }

  lemma HelloWorldWordsShape()
    ensures forall k | 0 <= k < |HelloWorld| :: HelloWorld[k] != [] && NoSpace(HelloWorld[k])
  {
    assert NoSpace(HelloWorld[0]);
    assert NoSpace(HelloWorld[1]);
  }

  lemma HelloWorldTokens()
    ensures Tokenize(Join(HelloWorld, " ")) == HelloWorld
  {
    HelloWorldWordsShape();
    TokenizeJoin(HelloWorld);
  }

  lemma HelloWorldLowerJoin()
    ensures Join(["hello", "world"], " ") == "hello world"
  {
  }

  lemma HelloWorldJoinedCleaned()
    ensures CleanText(Join(HelloWorld, " ")) == "hello world"
  {
    var t := Join(HelloWorld, " ");
    HelloWorldTokens();
    HelloWorldWords();
    HelloWorldLowerJoin();
    assert CleanText(t) == Join(CleanWords(Tokenize(t)), " ");
  }

  /** The comma and the exclamation mark are deleted, and the space that
      separated the two words stays. */
  lemma HelloWorldCleaned()
    ensures CleanText("Hello, World!") == "hello world"
  {
    HelloWorldText();
    HelloWorldJoinedCleaned();
  }

  // ---------------------------------------------------------------------------
  // process_text
  // ---------------------------------------------------------------------------

  function MapWords(ws: seq<string>, f: string -> string): (r: seq<string>)
    ensures |r| == |ws| && forall k | 0 <= k < |ws| :: r[k] == f(ws[k])
  {
    seq(|ws|, k requires 0 <= k < |ws| => f(ws[k]))
  }

  /** `process_text`, with TextBlob's word splitter and its WordNet
      lemmatiser supplied as `words` and `lemmatize`. */
  function ProcessText(text: string, words: string -> seq<string>, lemmatize: string -> string): (processed: string)
    ensures words(CleanText(text)) == [] ==> processed == []
  {
    Join(MapWords(words(CleanText(text)), lemmatize), " ")
  }

  /** A check that the pieces of `process_text` fit together: were the word
      splitter `str.split` and every word its own lemma, `process_text` would
      be `clean_text`. TextBlob's splitter is not `str.split`. */
  lemma ProcessTextIsCleanText(text: string, words: string -> seq<string>, lemmatize: string -> string)
    requires forall s :: words(s) == Tokenize(s)
    requires forall w :: lemmatize(w) == w
    ensures ProcessText(text, words, lemmatize) == CleanText(text)
  {
    var ws := Tokenize(CleanText(text));
    assert MapWords(ws, lemmatize) == ws;
    JoinTokenizeClean(CleanText(text));
  }

  /** `process_text` sees its input only through `clean_text`: cleaning the
      input first changes nothing, whatever the splitter and lemmatiser. */
  lemma ProcessTextCleaned(text: string, words: string -> seq<string>, lemmatize: string -> string)
    ensures ProcessText(CleanText(text), words, lemmatize) == ProcessText(text, words, lemmatize)
  {
    CleanTextIdempotent(text);
  }

  // ---------------------------------------------------------------------------
  // get_sentiment
  // ---------------------------------------------------------------------------

  /** The dictionary `get_sentiment` returns. */
  datatype SentimentScores = SentimentScores(polarity: real, subjectivity: real, sentiment: string)

  /** The strict three-way sign test on polarity; zero is its own bucket. */
  function SentimentCategory(polarity: real): (category: string)
    ensures category == "positive" <==> polarity > 0.0
    ensures category == "negative" <==> polarity < 0.0
    ensures category == "neutral" <==> polarity == 0.0
  {
    if polarity > 0.0 then "positive" else if polarity < 0.0 then "negative" else "neutral"
  }

  /** `get_sentiment`, given the polarity and subjectivity the TextBlob lexicon
      computes for the raw text. */
  function GetSentiment(polarity: real, subjectivity: real): (scores: SentimentScores)
    ensures scores.polarity == polarity && scores.subjectivity == subjectivity
    ensures scores.sentiment in {"positive", "negative", "neutral"}
    ensures scores.sentiment == SentimentCategory(scores.polarity)
  {
    SentimentScores(polarity, subjectivity, SentimentCategory(polarity))
  }

  /** Negating the polarity swaps `positive` and `negative` and keeps `neutral`. */
  lemma SentimentCategoryNegation(polarity: real)
    ensures SentimentCategory(-polarity) ==
      if SentimentCategory(polarity) == "positive" then "negative"
      else if SentimentCategory(polarity) == "negative" then "positive"
      else "neutral"
  {
  }
}
