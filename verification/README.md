# QuickNews extractive summarizer, in Dafny

QuickNews is a Django news reader. Its fallback summarizer works without any outside
service. It splits an article into sentences and words and builds a table of the ten most
frequent words that are not stop-words. It then scores every sentence on five features:

- overlap with the title;
- closeness to an ideal length of 20 words;
- position in the document;
- two keyword features, summation-based (`sbs`) and density-based (`dbs`).

It keeps the `max_sents` best sentences and returns them in document order. The
`ArticleSummary` record has one rule beyond plain storage: on saving, a missing short title
is derived from the title.

This project models that pipeline as pure Dafny functions and proves what each step
promises. The modules follow the Python functions:

- `Text` covers the parts of Python's `str` the code relies on: `isspace`, `\w`, `lower`,
  `strip`, `split` and `' '.join`.
- `StopWords` is the stop-word set.
- `Tokenizer` covers `split_words` and `split_sentences`.
- `Ranking` covers the stable descending sort behind `Counter.most_common` and
  `sorted(..., reverse=True)`.
- `Keywords` covers `keywords`.
- `Features` covers `title_score`, `length_score` and `sentence_position`.
- `Density` covers `sbs` and `dbs`.
- `Summarizer` covers `score` and `summarize`.
- `ArticleSummary` covers the short-title rule of `ArticleSummary.save`.

The sentence-boundary detector `nltk.sent_tokenize` is a parameter of type
`SentenceTokenizer`. It returns either the raw pieces of the text or `Raised`, which stands
for the exception that `split_sentences` swallows.

`Summarize` builds the keyword table from the text and hands it to `SummarizeWith`. The
selection properties are proved for `SummarizeWith` under an arbitrary table `kw`, so they
hold in particular for the table `Summarize` passes.

Two behaviours of the code are easy to misread; the model keeps both:

- `split_sentences` tests `len(s) > 15` on the raw piece, before newlines are replaced
  and the piece is stripped. So a kept sentence can be shorter than 16 characters:
  `Tokenizer.ThreeCharacterSentence` gives one of three.
- `title_score` counts every repeat of a title word in the sentence, so it can exceed 1:
  `Features.TitleScoreCanExceedOne` scores 2.

Another consequence of the code as written: `split_words` deletes apostrophes. So the
stop-words that contain one, such as `don't` and `you're`, can never match a token.

## Model

| member | source | states |
|---|---|---|
| Text.Strip | QuickNews/views.py:411 | the result is one contiguous segment `s[lo..hi]` of the input, and everything cut off before `lo` and after `hi` is a stripped character; the segment neither starts nor ends with one; it is the whole input when nothing is strippable and empty when everything is |
| Text.Lower | QuickNews/views.py:411 | `lower()` keeps the length and works character by character: no upper-case letter is left, a word character stays a word character, and every character that is not an upper-case letter is kept as it is |
| Text.Split | QuickNews/views.py:411 | every piece of `split()` is non-empty and holds no whitespace |
| Text.SplitJoin | QuickNews/models.py:21-22 | splitting words joined by single spaces gives back exactly those words |
| Text.JoinSpaced | QuickNews/models.py:23 | `' '.join` of a non-empty word list starts with the first word; `Text.SplitJoin` is its inverse |
| Text.LowerIdentity | QuickNews/views.py:411 | lower-casing a string without upper-case letters changes nothing |
| Tokenizer.KeepWordChars | QuickNews/views.py:410 | the regex substitution keeps only word characters and spaces, is never longer than its input, keeps a single character exactly when it is a word character or a space, and changes nothing when only those are present |
| Tokenizer.KeepWordCharsAppend | QuickNews/views.py:410 | the substitution works character by character: filtering a concatenation is the concatenation of the filtered parts |
| Tokenizer.SplitWords | QuickNews/views.py:408-413 | every token is non-empty and made only of lower-case word characters, so it holds no space and no punctuation |
| Tokenizer.Token | QuickNews/views.py:411 | a token `x.strip('.').lower()` is no longer than its piece, has no upper-case letter, neither starts nor ends with a dot, and is the lower-cased piece when the piece has no dot |
| Tokenizer.SplitWordsArePieces | QuickNews/views.py:410-411 | `strip('.')` never has a dot left to remove: each token is the lower-cased whitespace piece of the filtered text |
| Tokenizer.SplitWordsWithoutWordChars | QuickNews/views.py:408-411 | a text without a word character has no tokens |
| Tokenizer.SplitWordsRoundTrip | QuickNews/views.py:408-411 | re-tokenising the tokens joined by spaces gives back the same tokens |
| Tokenizer.ReplaceNewlines | QuickNews/views.py:432 | same length; each line break becomes a space and every other character is kept |
| Tokenizer.CleanSentence | QuickNews/views.py:432 | a cleaned sentence has no line break and no whitespace at either end, and is no longer than the piece |
| Tokenizer.CleanSentenceSegment | QuickNews/views.py:432 | a cleaned sentence is one contiguous segment of the piece with each line break replaced by a space, and everything cut off on either side is whitespace |
| Tokenizer.LongPieces | QuickNews/views.py:432 | only raw pieces longer than 15 characters pass the length test, and they keep their order |
| Tokenizer.LongPiecesExactly | QuickNews/views.py:432 | a piece passes the length test exactly when it is one of the raw pieces and is longer than 15 characters |
| Tokenizer.LongPiecesAppend | QuickNews/views.py:432 | the comprehension keeps the order and the repeats of the raw pieces: filtering a concatenation is the concatenation of the filtered parts |
| Tokenizer.KeepLong | QuickNews/views.py:432 | the sentences kept are the cleaned forms of exactly the raw pieces that pass the length test, in order |
| Tokenizer.SplitSentences | QuickNews/views.py:429-434 | nothing when the detector raises; otherwise one clean sentence per raw piece longer than 15 characters |
| Tokenizer.ShortSentenceKept | QuickNews/views.py:432 | a short clean sentence padded with enough line breaks is kept as the short sentence |
| Tokenizer.ThreeCharacterSentence | QuickNews/views.py:432 | a three-character sentence can come out of `split_sentences` |
| Keywords.Occurrences | QuickNews/views.py:420 | the `Counter` count is at most the length and is positive exactly for the words present |
| Keywords.FirstOccurrences | QuickNews/views.py:420 | the keys of the counter are the words present, each once |
| Keywords.FirstOccurrencesInOrder | QuickNews/views.py:420-422 | the counter's keys are in order of first appearance, which decides ties in the stable sort |
| Keywords.ContentWords | QuickNews/views.py:419 | the filtered list holds exactly the words that are not stop-words |
| Keywords.ContentWordsAppend | QuickNews/views.py:419 | the stop-word filter keeps the order and the repeats of the words, which `Counter` then uses as its key order: filtering a concatenation is the concatenation of the filtered parts |
| Keywords.ContentOccurrences | QuickNews/views.py:419-420 | dropping stop-words leaves the count of every other word unchanged |
| Keywords.Weight | QuickNews/views.py:425-426 | a count between 1 and the number of words gives a weight in (1, 2.5] |
| Keywords.TopWords | QuickNews/views.py:419-423 | exactly `min(10, number of distinct non-stop-words)` distinct non-stop-words of the text; each kept word beats each dropped non-stop-word by count, ties going to the earlier word; all are kept when there are at most ten; at least one is kept when one exists |
| Keywords.TopWordsBeat | QuickNews/views.py:420-423 | the stable sort by descending count followed by the cut: every kept word has a higher count than every dropped non-stop-word, or the same count and an earlier first occurrence |
| Keywords.Keywords | QuickNews/views.py:415-427 | as many entries as the top-ten cut keeps, so at most 10; every key is a token of the text and not a stop-word; every weight is in (1, 2.5] |
| Keywords.KeywordKeys | QuickNews/views.py:422-424 | the keys are exactly the words the stable top-ten cut keeps |
| Keywords.KeywordWeights | QuickNews/views.py:418-426 | each weight is the word's count over the number of all tokens, stop-words included, times 1.5, plus 1 |
| Keywords.KeywordsEmpty | QuickNews/views.py:416-419 | the table is empty exactly when every token of the text is a stop-word, no tokens included |
| Ranking.RankSortRanked | QuickNews/views.py:366 | sorting distinct positions puts them in stable descending order of value |
| Ranking.TopRanked | QuickNews/views.py:366 | `most_common(k)`: as many positions as exist up to `k`, distinct, best first, each outranking every position left out, and every position when `k` covers all |
| Ranking.SortAscending | QuickNews/views.py:368 | sorting distinct positions yields the same positions, strictly ascending |
| Features.MatchCount | QuickNews/views.py:442 | the number of hits is at most the sentence length and is 0 exactly when no non-stop-word of the sentence is in the title |
| Features.MatchCountAppend | QuickNews/views.py:442 | the `sum` over a sentence is additive: the hits of a concatenation are the hits of the parts added up |
| Features.MatchCountOne | QuickNews/views.py:442 | one word counts 1 exactly when it is not a stop-word and is in the title, and 0 otherwise |
| Features.HitShare | QuickNews/views.py:441-443 | `count / len(title)` for the filtered title: 0 for an empty filtered title, and otherwise the score times the title length is the number of hits |
| Features.TitleScoreRange | QuickNews/views.py:439-443 | the title score is non-negative, at most the sentence length, and 0 exactly when the title has no content word or the sentence hits none |
| Features.TitleScoreCanExceedOne | QuickNews/views.py:442-443 | a sentence that repeats a title word scores 2 against a one-word title |
| Features.TitleScoreAtMostOne | QuickNews/views.py:440-443 | a sentence that repeats no word scores at most 1 |
| Features.LengthScore | QuickNews/views.py:436-437 | up to 20 words the score rises linearly as `len/20`, from 20 words on it falls linearly as `(40 - len)/20` |
| Features.LengthScoreShape | QuickNews/views.py:436-437 | the length score is at most 1, equals 1 only at 20 words, is 0 only at 0 and 40 words, and is negative exactly outside 0..40 |
| Features.LengthScoreSymmetric | QuickNews/views.py:437 | the length score is symmetric about 20 words |
| Features.LengthScoreCloserIsBetter | QuickNews/views.py:437 | of two lengths on the same side of 20, any lengths at all, the one closer to 20 never scores lower |
| Features.SentencePosition | QuickNews/views.py:445-456 | the result is 0 or one of the nine table weights; it is 0 for a non-positive index, past nine tenths, and for the last sentence |
| Features.SentencePositionByDecile | QuickNews/views.py:446-456 | the chain of range tests is a lookup of the decile the position falls in, with 0 past the ninth |
| Density.Sbs | QuickNews/views.py:386-391 | 0 without words and without a keyword among them; non-negative under non-negative weights |
| Density.HitWeightsOne | QuickNews/views.py:389-390 | one word adds its keyword weight when it is a keyword and 0 otherwise |
| Density.HitWeightsAppend | QuickNews/views.py:389-390 | the loop adds one weight per occurrence, repeats included: the sum over a concatenation is the sum of the sums over its parts |
| Density.SbsIsMeanHit | QuickNews/views.py:391 | for a sentence with words, `sbs` times the number of words times 10 is the summed keyword weight |
| Density.SbsBounds | QuickNews/views.py:389-391 | with weights in [0, b], `sbs` lies in [0, b/10], so at most 0.25 for keyword weights |
| Density.SbsZeroIffNoKeyword | QuickNews/views.py:389-391 | with positive weights, `sbs` is 0 exactly when no word is a keyword |
| Density.HitsFrom | QuickNews/views.py:396-398 | each hit is a keyword position with its weight, and positions strictly increase |
| Density.HitsFromComplete | QuickNews/views.py:396-397 | no keyword occurrence is missed |
| Density.Scan | QuickNews/views.py:395-404 | the loop adds nothing once no keyword remains and at the end of the sentence, and under non-negative weights it never lowers the running sum |
| Density.ScanIsPairSum | QuickNews/views.py:395-404 | the loop of `dbs` adds the weight product over the squared gap for each pair of consecutive hits; the gap is always at least 1 |
| Density.DbsScale | QuickNews/views.py:405-406 | the factor `1/(k(k+1))` lies in (0, 1/2] and is 1/2 when the sentence has no keyword |
| Density.Dbs | QuickNews/views.py:393-394 | `dbs` of an empty sentence is 0 |
| Density.DbsIsPairSum | QuickNews/views.py:393-406 | `dbs` equals the scale factor times the pair sum over the increasing list of keyword hits |
| Density.DbsNeedsTwoHits | QuickNews/views.py:399-406 | fewer than two keyword hits give `dbs` 0 |
| Density.DbsNonNegative | QuickNews/views.py:393-406 | non-negative weights give a non-negative `dbs` |
| Density.StopWordsScoreNothing | QuickNews/views.py:386-406 | a sentence of stop-words only has `sbs` and `dbs` both 0 when no keyword is a stop-word |
| Summarizer.Composite | QuickNews/views.py:381-382 | the composite score weighs title 0.375, `sbs` and `dbs` 2.5 each, length and position 0.25 each |
| Summarizer.CompositeMonotone | QuickNews/views.py:381-382 | the composite score never drops when a feature rises |
| Summarizer.SentenceScore | QuickNews/views.py:374-382 | under non-negative keyword weights a sentence scores at least a quarter of its length score, since the title, position and keyword features are never negative |
| Summarizer.RankFrom | QuickNews/views.py:373-375 | the loop keeps only sentences with words, each under its own index with its own score, in index order |
| Summarizer.RankFromComplete | QuickNews/views.py:373-375 | every sentence with words gets an entry |
| Summarizer.Score | QuickNews/views.py:370-384 | one entry per sentence with words and none for any other, in index order, with that sentence's composite score |
| Summarizer.Picks | QuickNews/views.py:366-368 | `min(k, n)` positions in ascending order, each outranking every position left out, and all of them when `k >= n` |
| Summarizer.Selection | QuickNews/views.py:366-368 | `min(k, n)` entries of the ranking in index order; every kept entry beats every dropped one, ties going to the earlier sentence; all are kept when `k >= n` |
| Summarizer.Chosen | QuickNews/views.py:361-365 | each early-return guard gives an empty choice |
| Summarizer.ChosenIsSelection | QuickNews/views.py:362-366 | past the guards, the choice has the selection properties over the scored sentences |
| Summarizer.SummarizeWith | QuickNews/views.py:360-368 | empty on every guard; otherwise the chosen sentences' text, one per chosen entry, in order |
| Summarizer.SummaryInTextOrder | QuickNews/views.py:366-368 | each summary sentence is a sentence of the text that has words, and their indices strictly increase |
| Summarizer.SummaryKeepsBest | QuickNews/views.py:366-383 | every kept entry is a sentence of the text, and no sentence with words that is left out scores higher than a kept one, or the same with a lower index |
| Summarizer.SummaryLength | QuickNews/views.py:366-375 | the summary has `min(max_sents, number of sentences with words)` sentences, all of them when `max_sents` covers them |
| Summarizer.Summarize | QuickNews/views.py:360-365 | empty when the text or title is empty, `max_sents <= 0`, or there are no sentences, keywords or title words |
| Summarizer.StopWordTextHasNoSummary | QuickNews/views.py:363-365 | a text made only of stop-words has no summary |
| ArticleSummary.SavedShortTitle | QuickNews/models.py:18-26 | an existing short title, or any short title next to an empty title, is kept; a title of at most four words is copied whole; a longer one gives its first four words joined by single spaces followed by `...`; a non-empty title always leaves a non-empty short title |
| ArticleSummary.DerivedShortTitleWords | QuickNews/models.py:20-23 | splitting a derived short title again gives back the title's first three words and the fourth with the ellipsis attached |
| ArticleSummary.ShortTitleAtMostFourWords | QuickNews/models.py:20-25 | a short title derived from any title, empty or not, never has more than four words |
| ArticleSummary.SaveIdempotent | QuickNews/models.py:20-25 | saving twice gives the same short title as saving once |

## Left out

- The HTTP views, the Gemini calls, web search and scraping, the thread pool and TextBlob sentiment in `QuickNews/views.py` are not part of this model. They are I/O, network and foreign libraries.
- `get_website_name` is not part of this model: it wraps the foreign `urlparse`.
- `nltk.sent_tokenize` internals are not modelled. The detector is the `SentenceTokenizer` parameter, and only the post-processing in `split_sentences` is modelled.
- Tokenizer.SplitWords: `\w` and `lower()` are modelled on ASCII only. Python also treats non-ASCII letters and digits as word characters and lower-cases them.
- Tokenizer.SplitWords: the `TypeError`/`AttributeError` path for a non-string argument is ruled out by the `string` type.
- Every score is an exact `real` instead of an IEEE-754 double. Ties that differ only by float rounding can break differently.
- Features.SentencePosition: the tests on the float `i * 1.0 / size` are modelled exactly, by cross-multiplication. It requires `size > 0`, because `size == 0` raises `ZeroDivisionError` in the source.
- Summarizer.Summarize: its contract states only the guards. The selection, order and length properties are proved for `Summarizer.SummarizeWith`, which `Summarize` calls with the keyword table of the text.
- Features.TitleScore: it carries no `ensures` of its own. It is `Features.HitShare` applied to the filtered title, and its range is stated by `Features.TitleScoreRange`.
- Density.Sbs and Density.Dbs: they carry few `ensures` of their own. Their values are stated by `Density.SbsIsMeanHit` with `Density.HitWeightsOne` and `Density.HitWeightsAppend`, and by `Density.DbsIsPairSum`.
- Summarizer.Summarize: the default arguments `title=''`, `text=''` and `max_sents=5` of `summarize` are not modelled. Every caller passes all three, and an omitted title or text would only reach the first guard, which returns `[]`.
- The ORM field declarations, `Meta.ordering`, `__str__` and `super().save` in `QuickNews/models.py` are not modelled. The 50-character `max_length` of `short_title` is not enforced by the rule, so it is not claimed.
- `QuickNews/static/QuickNews/js/main.js` (browser UI) and `NewsAI/urls.py` (routing table) are not part of this model.
