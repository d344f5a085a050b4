# Tweet intent classifier: the list logic of the feature-accuracy sweep

`tweetIntentClassify/generateFeatureAccuracyPlot.py` reads pre-classified
tweets, sorts them into three intent buckets (`r` recommendation, `p`
purchase, `n` neutral), draws a balanced training set at random, and builds a
ranked and filtered vocabulary from the training words. It then trains a Naive
Bayes classifier once with 50 features, then once per feature-list size from
50 to 304 (so size 50 is trained twice), and plots the accuracy on the test
tweets against the number of features.

This project models the list and string logic of that script. It follows the
script's imperative shape: the module-level lists are the fields of one
`Experiment.Script` object, and `initializeLists`, `seperateTestTraining`,
`classifier`, `extractFeatures` and the loops of `main` are methods on it.
Each method is proved against specification functions. Those functions live
in their own modules, with lemmas about them:

- `Sequences`: subsequences, duplicate freedom, Python's `s[:n]` and `list.remove`.
- `Text`: `str.split()`, `' '.join`, and `str.lower()` limited to ASCII.
- `Loader`: records, stemming with the stemmer as a parameter, and the three buckets.
- `Splitter`: the random draws, with the drawn indices supplied by the caller.
- `Vocabulary`: the stopword list, the three regular-expression tests, the `(count, word)` ranking, and the remove-while-iterating filter.
- `Features`: feature maps, the training set, and the count of correct predictions.
- `Experiment`: the script object and its methods.

The filter of lines 98-106 calls `remove` on the list it is iterating over.
Python's list iterator advances by index, so the word that moves into a
removed word's slot is never examined. It stays in the vocabulary even when it
is a stopword or matches a pattern, so the filter does not remove every
stopword or pattern match. The model follows the code:
`Vocabulary.FilterWhileIterating` is the filter as it runs, and
`Vocabulary.FilterExact` and `Vocabulary.SkippedWordSurvives` state which
words survive.

The split draws `noOfTweetsOfAType + 1` records per bucket, not
`noOfTweetsOfAType`, because the loop test is `count <= noOfTweetsOfAType`. The
model keeps this.

## Model

| member | source | states |
|---|---|---|
| Sequences.RemoveFirst | tweetIntentClassify/generateFeatureAccuracyPlot.py:100 | definition: `list.remove(x)`, deleting the first occurrence of `x` |
| Text.IsSpace | tweetIntentClassify/generateFeatureAccuracyPlot.py:114 | definition: the ASCII characters `split()` treats as whitespace |
| Text.Split | tweetIntentClassify/generateFeatureAccuracyPlot.py:114 | definition: `str.split()`, the maximal runs of non-whitespace characters in order |
| Text.SplitAtSpace | tweetIntentClassify/generateFeatureAccuracyPlot.py:114 | every whitespace character separates tokens: splitting a text at one splits it into the tokens before and after |
| Text.Lower | tweetIntentClassify/generateFeatureAccuracyPlot.py:114 | definition: `str.lower()` on ASCII letters |
| Text.Tokenize | tweetIntentClassify/generateFeatureAccuracyPlot.py:114 | definition: split, then lower-case each token, as the comprehension builds `wordsFiltered` |
| Loader.ApplyStemmerToTweet | tweetIntentClassify/generateFeatureAccuracyPlot.py:127-128 | definition: stem every split word and join with single spaces |
| Loader.Stemmed | tweetIntentClassify/generateFeatureAccuracyPlot.py:56 | definition: every record with its text replaced by the stemmed text |
| Loader.Bucket | tweetIntentClassify/generateFeatureAccuracyPlot.py:57-62 | definition: the records of one intent, in input order |
| Loader.Dropped | tweetIntentClassify/generateFeatureAccuracyPlot.py:57-62 | definition: the records whose intent is none of `r`, `p`, `n`, which no branch appends |
| Splitter.ValidDraws | tweetIntentClassify/generateFeatureAccuracyPlot.py:71 | definition: the `j`-th drawn index is below the bucket length after `j` pops, the range of `randrange` |
| Vocabulary.EnglishStopWords | tweetIntentClassify/generateFeatureAccuracyPlot.py:17-35 | definition: the 127 stopwords, in the order of the source list |
| Vocabulary.MatchesUrl | tweetIntentClassify/generateFeatureAccuracyPlot.py:101 | definition: `http` followed by an ASCII word character or a colon occurs in the word |
| Vocabulary.MatchesMention | tweetIntentClassify/generateFeatureAccuracyPlot.py:103 | definition: the word contains `@`, since both repetitions of the pattern may be empty |
| Vocabulary.MatchesEscape | tweetIntentClassify/generateFeatureAccuracyPlot.py:105 | definition: a backslash immediately followed by `u` occurs in the word |
| Vocabulary.Excluded | tweetIntentClassify/generateFeatureAccuracyPlot.py:99-105 | definition: the disjunction of the four tests of the `if`/`elif` chain |
| Vocabulary.AllWords | tweetIntentClassify/generateFeatureAccuracyPlot.py:92-94 | definition: the tokens of all training examples, one example after another |
| Vocabulary.Occurrences | tweetIntentClassify/generateFeatureAccuracyPlot.py:95 | definition: the frequency `FreqDist` assigns a word |
| Vocabulary.StrLess | tweetIntentClassify/generateFeatureAccuracyPlot.py:96 | definition: Python's `<` on strings, by code point with a proper prefix first |
| Vocabulary.RanksAbove | tweetIntentClassify/generateFeatureAccuracyPlot.py:96 | definition: the order of `key=(count, word)` with `reverse=True` |
| Vocabulary.Rank | tweetIntentClassify/generateFeatureAccuracyPlot.py:95-97 | definition: the distinct tokens sorted by `RanksAbove` |
| Vocabulary.FilterWhileIterating | tweetIntentClassify/generateFeatureAccuracyPlot.py:98-106 | definition: the filter as the index-advancing iterator runs it; after a removal the next word is skipped |
| Vocabulary.FilteredVocabulary | tweetIntentClassify/generateFeatureAccuracyPlot.py:95-106 | definition: the ranked training tokens, filtered |
| Features.FeatureMap | tweetIntentClassify/generateFeatureAccuracyPlot.py:120-125 | definition: one entry per feature word, true when the word is a token |
| Features.TrainingSet | tweetIntentClassify/generateFeatureAccuracyPlot.py:140-141 | definition: `apply_features`, each training example as its feature map and intent |
| Features.PredictsCorrectly | tweetIntentClassify/generateFeatureAccuracyPlot.py:146 | definition: the classifier labels a test tweet with its intent; test texts are split but not lower-cased |
| Experiment.Extracted | tweetIntentClassify/generateFeatureAccuracyPlot.py:112-115 | definition: per tweet, its tokens and its intent, in order |
| Sequences.Prefix | tweetIntentClassify/generateFeatureAccuracyPlot.py:108 | `s[:n]` has min(n, len(s)) elements and is the start of `s` |
| Sequences.IndexOf | tweetIntentClassify/generateFeatureAccuracyPlot.py:100 | the index `list.remove` deletes at is the first occurrence of the word |
| Sequences.RemoveFirstWithoutDuplicates | tweetIntentClassify/generateFeatureAccuracyPlot.py:100 | in a list without duplicates, `remove(s[i])` deletes exactly index `i` |
| Text.SplitWords | tweetIntentClassify/generateFeatureAccuracyPlot.py:114 | every token of `split()` is non-empty and has no whitespace |
| Text.SplitKeepsCharacters | tweetIntentClassify/generateFeatureAccuracyPlot.py:114 | `split()` loses only whitespace: the tokens, concatenated, are the text's other characters in order |
| Text.SplitJoin | tweetIntentClassify/generateFeatureAccuracyPlot.py:128 | splitting the space-joined words gives the same words back |
| Text.LowerWord | tweetIntentClassify/generateFeatureAccuracyPlot.py:114 | `lower()` keeps a token a token, leaves no upper-case letter and is idempotent |
| Text.TokenizeSpec | tweetIntentClassify/generateFeatureAccuracyPlot.py:114 | one lower-case word per split token, and together they spell the lower-cased non-space text |
| Loader.StemmedTokens | tweetIntentClassify/generateFeatureAccuracyPlot.py:127-128 | if the stemmer maps words to words, the stemmed tweet splits into the stems of the original tokens |
| Loader.BucketMembers | tweetIntentClassify/generateFeatureAccuracyPlot.py:57-62 | a record is in the bucket for an intent if and only if it is an input record with that intent |
| Loader.BucketKeepsOrder | tweetIntentClassify/generateFeatureAccuracyPlot.py:57-62 | each bucket is a subsequence of the input: input order is kept |
| Loader.BucketsPartition | tweetIntentClassify/generateFeatureAccuracyPlot.py:54-62 | the three buckets plus the dropped records (other intents) are a rearrangement of the input |
| Splitter.Draw | tweetIntentClassify/generateFeatureAccuracyPlot.py:69-74 | one pick per draw, and the bucket shrinks by one per draw |
| Splitter.DrawConserves | tweetIntentClassify/generateFeatureAccuracyPlot.py:70-74 | the picked records plus those left behind are exactly the bucket's records |
| Splitter.DrawKeepsOrder | tweetIntentClassify/generateFeatureAccuracyPlot.py:70-74 | what stays in a bucket keeps its relative order |
| Splitter.ShortBucketCannotBeDrawn | tweetIntentClassify/generateFeatureAccuracyPlot.py:71 | a bucket with fewer records than draws admits no valid draws, because `randrange` would fail |
| Splitter.SplitConserves | tweetIntentClassify/generateFeatureAccuracyPlot.py:69-87 | the new training entries plus the new test entries are exactly the records of the three buckets |
| Vocabulary.AllWordsMembers | tweetIntentClassify/generateFeatureAccuracyPlot.py:92-94 | a word is in `allWords` if and only if some training example holds it |
| Vocabulary.RankSpec | tweetIntentClassify/generateFeatureAccuracyPlot.py:95-97 | the ranked list holds each distinct training token exactly once, strictly descending by (count, word) |
| Vocabulary.RankIsUnique | tweetIntentClassify/generateFeatureAccuracyPlot.py:95-97 | any list of the distinct tokens in that order is the ranking: the ranking is fully determined |
| Vocabulary.FilterLoopStep | tweetIntentClassify/generateFeatureAccuracyPlot.py:98-106 | one turn of the loop, examining index `j` and removing the word if excluded, keeps the loop state |
| Vocabulary.FilterKeepsOrder | tweetIntentClassify/generateFeatureAccuracyPlot.py:98-106 | the filtered list is a subsequence of the ranked list |
| Vocabulary.FilterKeepsUnexcluded | tweetIntentClassify/generateFeatureAccuracyPlot.py:98-106 | every word that none of the four tests rejects survives the filter |
| Vocabulary.FilterOnlyKeeps | tweetIntentClassify/generateFeatureAccuracyPlot.py:98-106 | the filter adds no word that was not ranked |
| Vocabulary.FilterExact | tweetIntentClassify/generateFeatureAccuracyPlot.py:98-106 | a word survives if and only if the loop never examined it or no test rejects it |
| Vocabulary.SkippedWordSurvives | tweetIntentClassify/generateFeatureAccuracyPlot.py:98-106 | after a removed word, the next word is not examined and survives, while the removed word does not |
| Features.FeatureMapSpec | tweetIntentClassify/generateFeatureAccuracyPlot.py:120-125 | the keys are exactly the feature words; a value is true if and only if the word is a token; token order and repeats do not matter |
| Features.NumCorrect | tweetIntentClassify/generateFeatureAccuracyPlot.py:144-148 | the correct count never exceeds the number of test tweets |
| Features.NumCorrectAll | tweetIntentClassify/generateFeatureAccuracyPlot.py:144-148 | the count equals the number of test tweets if and only if every prediction is right |
| Experiment.ExtractedSpec | tweetIntentClassify/generateFeatureAccuracyPlot.py:112-115 | one example per tweet, in order, with the tweet's tokens and its intent |
| Experiment.ExtractedTokens | tweetIntentClassify/generateFeatureAccuracyPlot.py:114 | every token of every training example is a lower-case word |
| Experiment.ExtractWords | tweetIntentClassify/generateFeatureAccuracyPlot.py:112-115 | the accumulator keeps its old entries and gains the tweets' examples, in order |
| Experiment.Sample | tweetIntentClassify/generateFeatureAccuracyPlot.py:140-148 | one point of the sweep: the correct count is at most the number of test tweets |
| Experiment.FilterWords | tweetIntentClassify/generateFeatureAccuracyPlot.py:98-106 | the remove-while-iterating loop with its `if`/`elif` chain computes `FilterWhileIterating` of the ranked list |
| Experiment.DrawInto | tweetIntentClassify/generateFeatureAccuracyPlot.py:69-74 | one drawing loop: the bucket is left as `Draw` leaves it, and the picks are appended to training in draw order |
| Experiment.Script.constructor | tweetIntentClassify/generateFeatureAccuracyPlot.py:37-44 | every list starts empty |
| Experiment.Script.InitializeLists | tweetIntentClassify/generateFeatureAccuracyPlot.py:54-62 | each bucket gains exactly the stemmed records of its intent, in input order |
| Experiment.Script.SeperateTestTraining | tweetIntentClassify/generateFeatureAccuracyPlot.py:68-87 | the buckets keep what the draws leave; training gains the r, p, n picks in that order; test gains the r, p, n leftovers; earlier contents of both are kept |
| Experiment.Script.Classifier | tweetIntentClassify/generateFeatureAccuracyPlot.py:91-108 | `wordListG` gains the whole filtered ranking, and the result is its first `noOfFeatures` words |
| Experiment.Script.ExtractFeatures | tweetIntentClassify/generateFeatureAccuracyPlot.py:120-125 | the keys are the feature words, each true if and only if the word is among the tweet's words |
| Experiment.Script.CountCorrect | tweetIntentClassify/generateFeatureAccuracyPlot.py:144-148 | the count is the number of test tweets whose intent the classifier predicts, at most their number |
| Experiment.Script.Load | tweetIntentClassify/generateFeatureAccuracyPlot.py:135-136 | from empty lists: each bucket holds what its draws leave of the stemmed records of its intent, training is the r, p, n picks and test the r, p, n leftovers |
| Experiment.Script.BuildVocabulary | tweetIntentClassify/generateFeatureAccuracyPlot.py:138-139 | the training examples are the extracted training tweets, `wordListG` is their filtered ranking, and the features are its first 50 words |
| Experiment.Script.Evaluate | tweetIntentClassify/generateFeatureAccuracyPlot.py:140-148 | the correct count of a classifier trained on the current features |
| Experiment.Script.UseFeatures | tweetIntentClassify/generateFeatureAccuracyPlot.py:154-155 | the feature list becomes `wordListG[:n]` |
| Experiment.Script.Sweep | tweetIntentClassify/generateFeatureAccuracyPlot.py:149-167 | `featuresCount` is `[50, 50, 51, …, 304]`; each count is the sample for that prefix of `wordListG`, at most the number of test tweets; the first two samples are equal |
| Experiment.Script.Run | tweetIntentClassify/generateFeatureAccuracyPlot.py:130-167 | the whole of `main` up to the plot: the buckets' leftovers, the split, the vocabulary and every sample of the sweep |

## Left out

- Reading `classifiedTweets.json` and parsing it as JSON (lines 52-55, 63) is left out. The model starts from a sequence of parsed `(text, intent)` records, so a record without `text` or `intent` (a `KeyError`) is not modelled.
- The Snowball stemmer (lines 10, 36, 128) is a library algorithm. It is the parameter `stem`, about which nothing is assumed except where a lemma says so.
- NLTK's `apply_features`, `NaiveBayesClassifier.train` and `classify` (lines 140-142, 146, 156-158, 162) are the parameter `train`. It maps a training set to a classifier, which is a function from feature sets to intents.
- `random.randrange` (lines 71, 77, 83) is replaced by caller-supplied indices. `ValidDraws` requires each one to be below the bucket's current length, which is the range `randrange` draws from.
- Experiment.Script.Sweep: records integer correct counts, not the floating-point accuracy `count/float(len(testTweets))` (lines 150, 167). The division, and its failure on an empty test list, are not modelled.
- The `print` progress line (line 165), the matplotlib figure (lines 168 onward) and the `zipimport` loading of NLTK (lines 8-9) are output and loading only, so they are left out.
- Text.IsSpace: Unicode whitespace beyond ASCII is not modelled; `split()` treats only the ASCII whitespace characters as separators.
- Text.Lower: only ASCII letters are lower-cased.
- Vocabulary.IsWordChar: `\w` is ASCII letters, digits and underscore.
- Vocabulary.StrLess: compares strings by code point, as wide (UCS-4) builds of Python 2 order unicode strings. Narrow builds compare UTF-16 code units, so characters above U+FFFF sort below U+E000 to U+FFFF there; that could change the word tie-break of the ranking, and the model does not capture it.
- Features.FeatureSet: the key `'contains(%s)' % word` is the word itself. The formatting is injective, so this loses nothing.
- Experiment.Script.SeperateTestTraining: the three drawing loops are one method, `DrawInto`, called once per bucket.
- Experiment.Script.Run: `main` is split into `Load`, `BuildVocabulary` and `Sweep`. `Sweep` reuses `Evaluate` for the sample before the loop and for each sample in it.
