/** `TextProcessor.get_emotion_keywords`: counting, per emotion label, the
    lower-cased whitespace tokens of a text that are exactly one of the
    label's keywords. */
module EmotionTagger {
  import opened Ascii
  import opened TextProcessor
  import opened Strings

  /** The keyword table, in the order the source's dictionary lists it. */
  const Taxonomy: seq<(string, seq<string>)> := [
    ("joy", ["happy", "joy", "excited", "delighted", "pleased"]),
    ("sadness", ["sad", "unhappy", "depressed", "miserable", "gloomy"]),
    ("anger", ["angry", "furious", "annoyed", "irritated", "frustrated"]),
    ("fear", ["afraid", "scared", "fearful", "anxious", "worried"]),
    ("surprise", ["surprised", "amazed", "astonished", "shocked"]),
    ("neutral", ["okay", "fine", "normal", "average", "regular"])
  ]

  /** The tokens the tagger matches: the text lower-cased and split on
      whitespace only, so punctuation stays attached to its word. */
  function EmotionTokens(text: string): seq<string> {
    Tokenize(LowerString(text))
  }

  /** `sum(1 for token in tokens if token in keywords)`. */
  function KeywordCount(tokens: seq<string>, keywords: seq<string>): (count: nat)
    ensures count <= |tokens|
  {
    if tokens == [] then 0
    else
      KeywordCount(tokens[..|tokens| - 1], keywords)
      + (if tokens[|tokens| - 1] in keywords then 1 else 0)
  }

  /** The positions of `tokens` whose token is one of `keywords`. */
  ghost function MatchPositions(tokens: seq<string>, keywords: seq<string>): set<nat> {
    set i: nat | i < |tokens| && tokens[i] in keywords
  }

  /** The count is the number of token positions that match a keyword
      exactly. */
  lemma {:induction false} KeywordCountIsMatchCount(tokens: seq<string>, keywords: seq<string>)
    ensures KeywordCount(tokens, keywords) == |MatchPositions(tokens, keywords)|
  {
    if tokens != [] {
      var n := |tokens| - 1;
      var prefix := tokens[..n];
      KeywordCountIsMatchCount(prefix, keywords);
      var before := MatchPositions(prefix, keywords);
      if tokens[n] in keywords {
        assert MatchPositions(tokens, keywords) == before + {n};
      } else {
        assert MatchPositions(tokens, keywords) == before;
      }
    }
  }

  /** The labels of the table, in order. */
  function Labels(): (labels: seq<string>)
    ensures |labels| == |Taxonomy|
    ensures forall j | 0 <= j < |Taxonomy| :: labels[j] == Taxonomy[j].0
  {
    seq(|Taxonomy|, j requires 0 <= j < |Taxonomy| => Taxonomy[j].0)
  }

  /** How many of `tokens` are keywords of each label, in table order. */
  function LabelCounts(tokens: seq<string>): (counts: seq<nat>)
    ensures |counts| == |Taxonomy|
    ensures forall j | 0 <= j < |Taxonomy| :: counts[j] == KeywordCount(tokens, Taxonomy[j].1)
  {
    seq(|Taxonomy|, j requires 0 <= j < |Taxonomy| => KeywordCount(tokens, Taxonomy[j].1))
  }

  predicate Distinct(labels: seq<string>) {
    forall j, k | 0 <= j < |labels| && 0 <= k < |labels| && j != k :: labels[j] != labels[k]
  }

  /** No label occurs twice in the table. */
  lemma LabelsDistinct()
    ensures |Labels()| == |Taxonomy| && Distinct(Labels())
  {
  }

  /** The first `upTo` labels whose count is positive, mapped to their counts. */
  function Tagged(labels: seq<string>, counts: seq<nat>, upTo: nat): map<string, nat>
    requires |labels| == |counts| && upTo <= |labels| && Distinct(labels)
  {
    map j | 0 <= j < upTo && counts[j] > 0 :: labels[j] := counts[j]
  }

  /** What `Tagged` holds for the `j`-th label. */
  lemma TaggedAt(labels: seq<string>, counts: seq<nat>, upTo: nat, j: nat)
    requires |labels| == |counts| && upTo <= |labels| && Distinct(labels)
    requires j < upTo
    ensures labels[j] in Tagged(labels, counts, upTo) <==> counts[j] > 0
    ensures labels[j] in Tagged(labels, counts, upTo) ==> Tagged(labels, counts, upTo)[labels[j]] == counts[j]
  {
  }

  /** Every key of `Tagged` is one of the first `upTo` labels. */
  lemma TaggedKeys(labels: seq<string>, counts: seq<nat>, upTo: nat, e: string) returns (j: nat)
    requires |labels| == |counts| && upTo <= |labels| && Distinct(labels)
    requires e in Tagged(labels, counts, upTo)
    ensures j < upTo && labels[j] == e
  {
    j :| 0 <= j < upTo && counts[j] > 0 && labels[j] == e;
  }

  /** `emotions` holds, of the first `upTo` labels, exactly those whose count
      is positive, each mapped to its count. */
  predicate TagsOf(emotions: map<string, nat>, labels: seq<string>, counts: seq<nat>, upTo: nat)
    requires |labels| == |counts| && upTo <= |labels|
  {
    && (forall j | 0 <= j < upTo :: labels[j] in emotions <==> counts[j] > 0)
    && (forall j | 0 <= j < upTo && labels[j] in emotions :: emotions[labels[j]] == counts[j])
    && (forall e | e in emotions :: exists j | 0 <= j < upTo :: labels[j] == e)
  }

  /** With distinct labels, `TagsOf` determines the map. */
  lemma TagsOfUnique(m1: map<string, nat>, m2: map<string, nat>, labels: seq<string>, counts: seq<nat>, upTo: nat)
    requires |labels| == |counts| && upTo <= |labels| && Distinct(labels)
    requires TagsOf(m1, labels, counts, upTo) && TagsOf(m2, labels, counts, upTo)
    ensures m1 == m2
  {
    forall e | e in m1 ensures e in m2 && m1[e] == m2[e] {
      var j :| 0 <= j < upTo && labels[j] == e;
    }
    forall e | e in m2 ensures e in m1 {
      var j :| 0 <= j < upTo && labels[j] == e;
    }
  }

  /** The tagger's result for a list of tokens: each label whose count is
      positive, mapped to its count. */
  function TagTokens(tokens: seq<string>): (emotions: map<string, nat>)
    ensures forall j | 0 <= j < |Taxonomy| ::
      (Taxonomy[j].0 in emotions <==> KeywordCount(tokens, Taxonomy[j].1) > 0)
    ensures forall j | 0 <= j < |Taxonomy| && Taxonomy[j].0 in emotions ::
      emotions[Taxonomy[j].0] == KeywordCount(tokens, Taxonomy[j].1)
    ensures forall e | e in emotions :: emotions[e] >= 1
    ensures forall e | e in emotions :: exists j | 0 <= j < |Taxonomy| :: Taxonomy[j].0 == e
  {
    LabelsDistinct();
    TaggedFacts(Labels(), LabelCounts(tokens), |Taxonomy|);
    Tagged(Labels(), LabelCounts(tokens), |Taxonomy|)
  }

  /** The result of the tagger on a text. */
  function EmotionCounts(text: string): map<string, nat> {
    TagTokens(EmotionTokens(text))
  }

  lemma TaggedFacts(labels: seq<string>, counts: seq<nat>, upTo: nat)
    requires |labels| == |counts| && upTo <= |labels| && Distinct(labels)
    ensures TagsOf(Tagged(labels, counts, upTo), labels, counts, upTo)
  {
    forall j | 0 <= j < upTo
      ensures labels[j] in Tagged(labels, counts, upTo) <==> counts[j] > 0
      ensures labels[j] in Tagged(labels, counts, upTo) ==> Tagged(labels, counts, upTo)[labels[j]] == counts[j]
    {
      TaggedAt(labels, counts, upTo, j);
    }
    forall e | e in Tagged(labels, counts, upTo)
      ensures exists j | 0 <= j < upTo :: labels[j] == e
    {
      var j := TaggedKeys(labels, counts, upTo, e);
    }
  }

  /** `get_emotion_keywords`: fills the result dictionary one label at a time,
      adding a label only when its count is positive. */
  method GetEmotionKeywords(text: string) returns (emotions: map<string, nat>)
    ensures emotions == EmotionCounts(text)
  {
    LabelsDistinct();
    var tokens := EmotionTokens(text);
    ghost var labels, counts := Labels(), LabelCounts(tokens);
    emotions := map[];
    for j := 0 to |Taxonomy|
      invariant TagsOf(emotions, labels, counts, j)
    {
      var (emotion, keywords) := Taxonomy[j];
      var count := KeywordCount(tokens, keywords);
      if count > 0 {
        emotions := emotions[emotion := count];
      }
    }
    TaggedFacts(labels, counts, |Taxonomy|);
    TagsOfUnique(emotions, TagTokens(tokens), labels, counts, |Taxonomy|);
  }

  // ---------------------------------------------------------------------------
  // The keyword lists are pairwise disjoint, so no token is counted twice.
  // ---------------------------------------------------------------------------

  /** No keyword belongs to two labels. */
  lemma KeywordListsDisjoint()
    ensures forall j, k, w | 0 <= j < |Taxonomy| && 0 <= k < |Taxonomy| && j != k && w in Taxonomy[j].1 ::
      w !in Taxonomy[k].1
  {
  }

  /** The sum of the counts of a tagger result, taken over the table's labels
      from the `j`-th on; a label the result lacks adds nothing. */
  function SumFrom(emotions: map<string, nat>, j: nat): nat
    requires j <= |Taxonomy|
    decreases |Taxonomy| - j
  {
    if j == |Taxonomy| then 0
    else (if Taxonomy[j].0 in emotions then emotions[Taxonomy[j].0] else 0) + SumFrom(emotions, j + 1)
  }

  /** The sum of the values a map holds under the table's labels. For a
      tagger result this is the sum of all its counts: every key of a
      `TagTokens` result is a table label (its last ensures), and the labels
      are distinct (`LabelsDistinct`), so each count is added exactly once. */
  function TotalCount(emotions: map<string, nat>): nat {
    SumFrom(emotions, 0)
  }

  /** The keyword counts of the labels from the `j`-th on, summed. */
  function CountsFrom(tokens: seq<string>, j: nat): nat
    requires j <= |Taxonomy|
    decreases |Taxonomy| - j
  {
    if j == |Taxonomy| then 0 else KeywordCount(tokens, Taxonomy[j].1) + CountsFrom(tokens, j + 1)
  }

  /** How many of the labels from the `j`-th on list `token` as a keyword. */
  function Hits(token: string, j: nat): nat
    requires j <= |Taxonomy|
    decreases |Taxonomy| - j
  {
    if j == |Taxonomy| then 0 else (if token in Taxonomy[j].1 then 1 else 0) + Hits(token, j + 1)
  }

  /** A token is a keyword of at most one label. */
  lemma HitsAtMostOne(token: string)
    ensures Hits(token, 0) <= 1
  {
    KeywordListsDisjoint();
    assert Hits(token, 5) == if token in Taxonomy[5].1 then 1 else 0;
    assert Hits(token, 4) <= 1;
    assert Hits(token, 3) <= 1;
    assert Hits(token, 2) <= 1;
    assert Hits(token, 1) <= 1;
  }

  lemma {:induction false} CountsFromLast(tokens: seq<string>, j: nat)
    requires tokens != [] && j <= |Taxonomy|
    ensures CountsFrom(tokens, j) == CountsFrom(tokens[..|tokens| - 1], j) + Hits(tokens[|tokens| - 1], j)
    decreases |Taxonomy| - j
  {
    if j < |Taxonomy| {
      CountsFromLast(tokens, j + 1);
    }
  }

  /** Summed over all labels, the counts do not exceed the number of tokens. */
  lemma {:induction false} CountsBounded(tokens: seq<string>)
    ensures CountsFrom(tokens, 0) <= |tokens|
  {
    if tokens != [] {
      CountsFromLast(tokens, 0);
      HitsAtMostOne(tokens[|tokens| - 1]);
      CountsBounded(tokens[..|tokens| - 1]);
    }
  }

  lemma {:induction false} SumFromCounts(text: string, j: nat)
    requires j <= |Taxonomy|
    ensures SumFrom(EmotionCounts(text), j) == CountsFrom(EmotionTokens(text), j)
    decreases |Taxonomy| - j
  {
    if j < |Taxonomy| {
      SumFromCounts(text, j + 1);
    }
  }

  /** The counts of a tagger result add up to at most the number of tokens of
      the text: every token matches the keywords of at most one label. */
  lemma EmotionTotalBounded(text: string)
    ensures TotalCount(EmotionCounts(text)) <= |EmotionTokens(text)|
  {
    SumFromCounts(text, 0);
    CountsBounded(EmotionTokens(text));
  }

  // ---------------------------------------------------------------------------
  // Worked examples.
  // ---------------------------------------------------------------------------

  /** A keyword list that no token belongs to counts nothing. */
  lemma {:induction false} KeywordCountNone(tokens: seq<string>, keywords: seq<string>)
    requires forall i | 0 <= i < |tokens| :: tokens[i] !in keywords
    ensures KeywordCount(tokens, keywords) == 0
  {
    if tokens != [] {
      KeywordCountNone(tokens[..|tokens| - 1], keywords);
    }
  }

  /** Words joined by single spaces are tokenised back into the same words,
      lower-cased. */
  lemma EmotionTokensJoin(ws: seq<string>)
    requires forall k | 0 <= k < |ws| :: ws[k] != [] && NoSpace(ws[k])
    ensures EmotionTokens(Join(ws, " ")) == MapWords(ws, LowerString)
  {
    var lowered := MapWords(ws, LowerString);
    forall k | 0 <= k < |lowered| ensures lowered[k] != [] && NoSpace(lowered[k]) {
      var w := ws[k];
      assert lowered[k] == LowerString(w);
      assert forall i | 0 <= i < |w| :: LowerString(w)[i] == Lower(w[i]);
    }
    LowerStringJoin(ws);
    TokenizeJoin(lowered);
  }

  const SampleWords: seq<string> := ["I", "am", "happy", "and", "so", "happy", "today"]
  const SampleTokens: seq<string> := ["i", "am", "happy", "and", "so", "happy", "today"]

  lemma SampleText()
    ensures Join(SampleWords, " ") == "I am happy and so happy today"
  {
    var a, b := ["I", "am", "happy"], ["and", "so", "happy", "today"];
    assert SampleWords == a + b;
    JoinAppend(a, b, " ");
    SampleHalves();
  }

  lemma SampleHalves()
    ensures Join(["I", "am", "happy"], " ") == "I am happy"
    ensures Join(["and", "so", "happy", "today"], " ") == "and so happy today"
  {
  }

  lemma SampleWordsShape()
    ensures forall k | 0 <= k < |SampleWords| :: SampleWords[k] != [] && NoSpace(SampleWords[k])
  {
  }

  lemma SampleLowered()
    ensures MapWords(SampleWords, LowerString) == SampleTokens
  {
    var r := MapWords(SampleWords, LowerString);
    assert r[0] == LowerString("I") == "i";
    assert r[1] == LowerString("am") == "am";
    assert r[2] == r[5] == LowerString("happy") == "happy";
    assert r[3] == LowerString("and") == "and";
    assert r[4] == LowerString("so") == "so";
    assert r[6] == LowerString("today") == "today";
  }

  /** The sample's tokens hold the joy keyword "happy" twice. */
  lemma SampleJoyCount()
    ensures KeywordCount(SampleTokens, Taxonomy[0].1) == 2
  {
    var t, k := SampleTokens, Taxonomy[0].1;
    assert "i" !in k && "am" !in k && "happy" in k && "and" !in k && "so" !in k && "today" !in k;
    assert t[..1][..0] == [];
    assert KeywordCount(t[..1], k) == 0;
    assert t[..2][..1] == t[..1];
    assert KeywordCount(t[..2], k) == 0;
    assert t[..3][..2] == t[..2];
    assert KeywordCount(t[..3], k) == 1;
    assert t[..4][..3] == t[..3];
    assert KeywordCount(t[..4], k) == 1;
    assert t[..5][..4] == t[..4];
    assert KeywordCount(t[..5], k) == 1;
    assert t[..6][..5] == t[..5];
    assert KeywordCount(t[..6], k) == 2;
    assert t[..6] == t[..|t| - 1];
  }

  /** None of the sample's tokens is a keyword of another label. */
  lemma SampleOtherCount(j: nat)
    requires 1 <= j < |Taxonomy|
    ensures KeywordCount(SampleTokens, Taxonomy[j].1) == 0
  {
    KeywordCountNone(SampleTokens, Taxonomy[j].1);
  }

  /** When only the `j`-th label has keywords among the tokens, the result
      holds that label alone. */
  lemma TagTokensSingle(tokens: seq<string>, j: nat)
    requires j < |Taxonomy| && KeywordCount(tokens, Taxonomy[j].1) > 0
    requires forall k | 0 <= k < |Taxonomy| && k != j :: KeywordCount(tokens, Taxonomy[k].1) == 0
    ensures TagTokens(tokens) == map[Taxonomy[j].0 := KeywordCount(tokens, Taxonomy[j].1)]
  {
    var m := TagTokens(tokens);
    forall e | e in m ensures e == Taxonomy[j].0 {
      var k :| 0 <= k < |Taxonomy| && Taxonomy[k].0 == e;
    }
  }

  lemma SampleTags()
    ensures TagTokens(SampleTokens) == map["joy" := 2]
  {
    SampleJoyCount();
    forall k | 1 <= k < |Taxonomy| ensures KeywordCount(SampleTokens, Taxonomy[k].1) == 0 {
      SampleOtherCount(k);
    }
    TagTokensSingle(SampleTokens, 0);
  }

  lemma SampleJoinedEmotions()
    ensures EmotionCounts(Join(SampleWords, " ")) == map["joy" := 2]
  {
    SampleWordsShape();
    EmotionTokensJoin(SampleWords);
    SampleLowered();
    SampleTags();
  }

  /** "I am happy and so happy today" is tagged with exactly joy, counted twice. */
  lemma SampleEmotions()
    ensures EmotionCounts("I am happy and so happy today") == map["joy" := 2]
  {
    SampleText();
    SampleJoinedEmotions();
  }

  /** When no token is a keyword, the result is empty. */
  lemma TagTokensNone(tokens: seq<string>)
    requires forall i, k | 0 <= i < |tokens| && 0 <= k < |Taxonomy| :: tokens[i] !in Taxonomy[k].1
    ensures TagTokens(tokens) == map[]
  {
    forall k | 0 <= k < |Taxonomy| ensures KeywordCount(tokens, Taxonomy[k].1) == 0 {
      KeywordCountNone(tokens, Taxonomy[k].1);
    }
    var m := TagTokens(tokens);
    assert forall k | 0 <= k < |Taxonomy| :: Taxonomy[k].0 !in m;
  }

  /** An empty text is tagged with nothing. */
  lemma EmptyTextEmotions()
    ensures EmotionCounts("") == map[]
  {
    assert EmotionTokens("") == [];
    TagTokensNone([]);
  }

  lemma PunctuatedTokens()
    ensures EmotionTokens("happy!") == ["happy!"]
  {
    assert LowerString("happy!") == "happy!";
    TokenizeWord("happy!");
  }

  lemma PunctuatedNotKeyword()
    ensures forall k | 0 <= k < |Taxonomy| :: "happy!" !in Taxonomy[k].1
  {
  }

  /** Punctuation stays on its token, so "happy!" holds no keyword. */
  lemma PunctuatedEmotions()
    ensures EmotionCounts("happy!") == map[]
  {
    PunctuatedTokens();
    PunctuatedNotKeyword();
    TagTokensNone(["happy!"]);
  }

  lemma WholeTokenTokens()
    ensures EmotionTokens("unhappy") == ["unhappy"]
  {
    assert LowerString("unhappy") == "unhappy";
    TokenizeWord("unhappy");
  }

  /** A single token that is a keyword of the `j`-th label tags that label
      once, and nothing else, since no keyword belongs to two labels. */
  lemma TagSingleToken(w: string, j: nat)
    requires j < |Taxonomy| && w in Taxonomy[j].1
    ensures TagTokens([w]) == map[Taxonomy[j].0 := 1]
  {
    KeywordListsDisjoint();
    assert [w][..0] == [];
    assert KeywordCount([w], Taxonomy[j].1) == 1;
    forall k | 0 <= k < |Taxonomy| && k != j ensures KeywordCount([w], Taxonomy[k].1) == 0 {
      KeywordCountNone([w], Taxonomy[k].1);
    }
    TagTokensSingle([w], j);
  }

  /** Matching is on whole tokens: "unhappy" is a sadness keyword and, although
      it contains "happy", no joy keyword. */
  lemma UnhappyIsSadness()
    ensures 1 < |Taxonomy| && Taxonomy[1].0 == "sadness" && "unhappy" in Taxonomy[1].1
  {
  }

  lemma WholeTokenEmotions()
    ensures EmotionCounts("unhappy") == map["sadness" := 1]
  {
    WholeTokenTokens();
    UnhappyIsSadness();
    TagSingleToken("unhappy", 1);
  }
}
