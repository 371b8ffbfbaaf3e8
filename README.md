# Text processing for sentiment analysis, modelled in Dafny

The repository analyses the sentiment of free-text entries. Its `TextProcessor`
class (`text_processor.py`) does four things that this project models and proves
properties of:

- `clean_text` lower-cases a text, deletes every character outside
  `[a-zA-Z\s]`, and collapses whitespace runs into single spaces
  (`' '.join(text.split())`);
- `tokenize` is `text.split()`;
- `get_emotion_keywords` holds a fixed table of six emotion labels (joy,
  sadness, anger, fear, surprise, neutral), each with a list of keywords. It
  lower-cases and splits the raw text (punctuation stays on its token) and, in
  a loop over the table, records for each label how many tokens are exactly
  one of its keywords. A label is recorded only when its count is positive;
- `get_sentiment` reports TextBlob's polarity and subjectivity and files the
  polarity under `positive` (above zero), `negative` (below zero) or `neutral`.

It also has `process_text`, which runs `clean_text`, then TextBlob's word
splitter and WordNet lemmatiser, and joins the lemmas with single spaces.

The project has four modules:

- `Ascii` (`ascii.dfy`): the character classes Python uses on ASCII text and
  `str.lower()`. Whitespace is the set `str.split()` and `\s` share: code
  points 9 to 13 and 28 to 32.
- `Strings` (`strings.dfy`): `Filter` models `re.sub` with a deleted class,
  `Join` models `sep.join`, and `Concat` models `''.join`, together with their
  algebra.
- `TextProcessor` (`text_processor.dfy`): tokenising, cleaning,
  `process_text` and the sentiment rule. These are pure functions, as in the
  source.
- `EmotionTagger` (`emotion_tagger.dfy`): the keyword table and the counting.
  `TagTokens` is the functional specification of the tagger, and
  `GetEmotionKeywords` is a method that fills the result map in a loop over
  the table, as the source does, and is proved to produce the same map.

TextBlob is foreign code and is not modelled:

- `GetSentiment` takes the polarity and subjectivity as parameters.
- `ProcessText` takes the word splitter and the lemmatiser as function
  parameters.

## Model

| member | source | states |
|---|---|---|
| Ascii.Lower | text_processor.py:11 | `str.lower()` on one character: each of `A`–`Z` becomes the lower-case letter at the same position of the alphabet, every other character is unchanged, and so the result is never an upper-case letter, is a letter iff the input is, and is whitespace iff the input is |
| Ascii.IsSpace | text_processor.py:13-20 | the whitespace set of `\s` and of `split()` on ASCII: exactly the code points 9 to 13 and 28 to 32, so the four information separators count as whitespace |
| Ascii.LowerString | text_processor.py:11 | `str.lower()` on a text keeps the length and lower-cases every character in place |
| Strings.Filter | text_processor.py:13 | `re.sub` with a deleted class: the characters kept all satisfy the kept class and the result is no longer than the input; `FilterAppend` (filtering distributes over concatenation), `FilterAll` (nothing is deleted when every character is kept) and `FilterNone` (everything is deleted when none is) fix it as deletion in order |
| Strings.Join | text_processor.py:15 | `' '.join`: its definition (the words with the separator between each two), with `JoinAppend` (joining two lists is joining each with a separator between) and `TokenizeJoin` (`split()` undoes it for non-empty, whitespace-free words) |
| TextProcessor.Tokenize | text_processor.py:18-20 | `split()` never yields an empty token or a token containing whitespace, and it yields no tokens iff the text is empty or all whitespace |
| TextProcessor.TokenizeConcat | text_processor.py:18-20 | the tokens, concatenated, are exactly the text with its whitespace removed |
| TextProcessor.TokenizeJoin | text_processor.py:15-20 | splitting `' '.join(ws)` gives back `ws` when every word is non-empty and whitespace-free |
| TextProcessor.IsKept | text_processor.py:13 | the class `[a-zA-Z\s]`: a character is kept iff it is an ASCII letter or whitespace; `CleanTextDeletes` shows that every other character is deleted |
| TextProcessor.CleanText | text_processor.py:8-16 | the cleaned text holds only `a`–`z` and single spaces, with no space at either end; without its spaces it is the text's ASCII letters, lower-cased, in their original order; and it is exactly the raw text's `split()` tokens, each reduced to its lower-cased letters, tokens left with no letter dropped, joined by single spaces |
| TextProcessor.CleanTextWords | text_processor.py:11-15 | splitting the cleaned text gives the raw text's tokens, each reduced to its lower-cased letters, with the tokens that had no letter dropped, in order: the spaces stand exactly where the raw text's whitespace runs separated two tokens that keep a letter |
| TextProcessor.CleanTextDeletes | text_processor.py:13 | a character outside `[a-zA-Z\s]` is deleted wherever it stands, not replaced: `clean_text(a + c + b) == clean_text(a + b)` for every text `a`, `b` |
| TextProcessor.CleanTextNoSpace | text_processor.py:11-15 | a text without whitespace cleans to its lower-cased letters, as one word |
| TextProcessor.JoinTokenizeClean | text_processor.py:15-20 | for a text of the cleaned shape, joining its tokens with single spaces gives the text back exactly |
| TextProcessor.CleanTextFixedPoint | text_processor.py:8-16 | `clean_text` leaves a text unchanged iff the text has the cleaned shape (both directions) |
| TextProcessor.CleanTextIdempotent | text_processor.py:8-16 | `clean_text(clean_text(t)) == clean_text(t)` for every text |
| TextProcessor.HelloWorldCleaned | text_processor.py:8-16 | `"Hello, World!"` cleans to exactly `"hello world"` |
| TextProcessor.MapWords | text_processor.py:27 | the list comprehension: the result has one entry per word, the function applied to the word at the same position |
| TextProcessor.ProcessText | text_processor.py:22-28 | `process_text` joins the lemmas of the words of the cleaned text, and an input whose cleaned text has no words gives the empty string |
| TextProcessor.ProcessTextCleaned | text_processor.py:22-28 | `process_text` sees its input only through `clean_text`: `process_text(clean_text(t)) == process_text(t)` for every splitter and lemmatiser |
| TextProcessor.ProcessTextIsCleanText | text_processor.py:22-28 | a check of the composition only, not a property of TextBlob: for a splitter that is `str.split` and a lemmatiser that changes nothing, `process_text` would be `clean_text` |
| TextProcessor.SentimentCategory | text_processor.py:36 | the category is `positive` iff polarity > 0, `negative` iff polarity < 0, and `neutral` iff polarity == 0, so the three cases are exhaustive and exclusive |
| TextProcessor.GetSentiment | text_processor.py:30-37 | the result carries the given polarity and subjectivity unchanged, and its category is one of the three strings, chosen by the sign rule |
| TextProcessor.SentimentCategoryNegation | text_processor.py:36 | a symmetry of the sign rule that nothing in the source relies on: negating the polarity swaps `positive` and `negative` and keeps `neutral` |
| EmotionTagger.Taxonomy | text_processor.py:41-48 | the six labels with their keyword lists, in the source's order; `LabelsDistinct` and `KeywordListsDisjoint` state its two structural facts |
| EmotionTagger.EmotionTokens | text_processor.py:49 | `self.tokenize(text.lower())`: whitespace tokens of the lower-cased text, with punctuation left on them; `EmotionTokensJoin` and `PunctuatedTokens` pin it on joined words and on punctuation |
| EmotionTagger.EmotionCounts | text_processor.py:39-55 | `get_emotion_keywords` as a function: `TagTokens` of `EmotionTokens`; `GetEmotionKeywords` is proved to return it, and the worked examples evaluate it |
| EmotionTagger.KeywordCount | text_processor.py:52 | the count `sum(1 for token in tokens if token in keywords)` never exceeds the number of tokens |
| EmotionTagger.KeywordCountIsMatchCount | text_processor.py:52 | the count is the number of token positions whose token is exactly one of the keywords |
| EmotionTagger.LabelsDistinct | text_processor.py:41-48 | the table has six labels and no label occurs twice, so each label has one entry in the result |
| EmotionTagger.KeywordListsDisjoint | text_processor.py:41-48 | no keyword belongs to two labels |
| EmotionTagger.TagTokens | text_processor.py:50-54 | a label is in the result iff its keyword count is positive, a present label maps to its count, every value is at least 1, and every key is a label of the table |
| EmotionTagger.GetEmotionKeywords | text_processor.py:39-55 | the loop over the table, filling the map in place, returns exactly `TagTokens` of the lower-cased, whitespace-split text |
| EmotionTagger.EmotionTotalBounded | text_processor.py:41-54 | the counts of a result add up to at most the number of tokens, because the keyword lists are disjoint |
| EmotionTagger.KeywordCountNone | text_processor.py:52 | a keyword list that no token belongs to counts zero |
| EmotionTagger.EmotionTokensJoin | text_processor.py:49 | for words joined by single spaces, the tagger's tokens are the words, lower-cased |
| EmotionTagger.TagTokensNone | text_processor.py:50-54 | tokens that are no keyword of any label give the empty map |
| EmotionTagger.TagTokensSingle | text_processor.py:50-54 | when only one label has a positive count, the result maps that label alone to its count |
| EmotionTagger.TagSingleToken | text_processor.py:41-54 | a single token that is a keyword of one label tags that label once and nothing else |
| EmotionTagger.SampleEmotions | text_processor.py:41-54 | `"I am happy and so happy today"` is tagged with exactly `{joy: 2}` |
| EmotionTagger.EmptyTextEmotions | text_processor.py:49-54 | the empty text gives the empty map |
| EmotionTagger.PunctuatedEmotions | text_processor.py:49-54 | `"happy!"` gives the empty map: punctuation stays on the token and blocks the match |
| EmotionTagger.WholeTokenEmotions | text_processor.py:41-54 | `"unhappy"` gives exactly `{sadness: 1}`: it contains `happy`, but matching is on whole tokens |

## Left out

- TextBlob's polarity and subjectivity (text_processor.py:32-35) come from a
  foreign lexicon model. `GetSentiment` takes them as parameters, as `real`s.
  Floating-point details such as NaN are not modelled.
- `TextBlob.words` and `Word.lemmatize()` (text_processor.py:26-27) depend on
  an external WordNet lexicon. `ProcessText` takes them as function
  parameters. TextBlob's word splitter is not `str.split`, so
  `ProcessTextIsCleanText` is a statement about the composition, not about
  what `process_text` returns under TextBlob.
- Non-ASCII text is not modelled. The model treats every non-ASCII character
  as neither a letter nor whitespace and leaves it unchanged when
  lower-casing. Python's `str.lower()` maps some non-ASCII characters onto
  ASCII letters (for example U+212A KELVIN SIGN to `k`, and U+0130 to `i`
  followed by a combining dot). `str.split()` and `\s` also treat non-ASCII
  characters such as U+0085 and U+00A0 as whitespace.
- GetEmotionKeywords: the result is a `map`, so the insertion order of
  Python's dictionary (the table's label order) is not part of the contract.
- `sentiment_analyzer.py` is not part of this model: CSV loading and date
  parsing through pandas, column mapping, the charts and rolling average, the
  report writer, and argument parsing are I/O, plotting and float work over a
  dataframe library. `setup.py` holds packaging metadata only.
