/** The script itself: its module-level lists as the fields of one object, and
    `initializeLists`, `seperateTestTraining`, `classifier`, `extractFeatures`
    and `main` as the methods that fill them. */
module Experiment {
  import opened Sequences
  import opened Text
  import opened Loader
  import opened Splitter
  import opened Vocabulary
  import opened Features

  /** Line 133: each bucket gives `NoOfTweetsOfAType + 1` records to training. */
  const NoOfTweetsOfAType: nat := 15

  /** Line 134: the size of the first feature list. */
  const InitialFeatures: nat := 50

  /** What `extractWords` appends for `tweets`, `tokenize` standing for the
      split-and-lower-case of line 114: per tweet, its tokens and its intent. */
  function Extracted(tweets: seq<Tweet>, tokenize: string -> seq<string>): seq<Example> {
    if tweets == [] then []
    else
      var last := tweets[|tweets| - 1];
      Extracted(tweets[..|tweets| - 1], tokenize) + [Example(tokenize(last.text), last.intent)]
  }

  /** One example per tweet, in order, each holding the tweet's tokens and intent. */
  lemma {:induction false} ExtractedSpec(tweets: seq<Tweet>, tokenize: string -> seq<string>)
    ensures |Extracted(tweets, tokenize)| == |tweets|
    ensures forall i :: 0 <= i < |tweets| ==>
              Extracted(tweets, tokenize)[i] == Example(tokenize(tweets[i].text), tweets[i].intent)
    decreases |tweets|
  {
    if tweets != [] {
      var init := tweets[..|tweets| - 1];
      ExtractedSpec(init, tokenize);
      forall i | 0 <= i < |init|
        ensures Extracted(tweets, tokenize)[i] == Extracted(init, tokenize)[i] && tweets[i] == init[i]
      {
      }
    }
  }

  /** Every token of every extracted training example is a lower-case word. */
  lemma {:induction false} ExtractedTokens(tweets: seq<Tweet>)
    ensures forall i, k :: 0 <= i < |Extracted(tweets, Tokenize)| && 0 <= k < |Extracted(tweets, Tokenize)[i].words| ==>
              TokenIsLowerWord(Extracted(tweets, Tokenize)[i].words[k])
  {
    ExtractedSpec(tweets, Tokenize);
    forall i | 0 <= i < |tweets| {
      TokenizeSpec(tweets[i].text);
    }
  }

  /** `extractWords`: append, for every tweet, its lower-cased tokens with its intent. */
  method ExtractWords(appendTo: seq<Example>, fromTweets: seq<Tweet>) returns (r: seq<Example>)
    ensures r == appendTo + Extracted(fromTweets, Tokenize)
  {
    r := appendTo;
    for i := 0 to |fromTweets|
      invariant r == appendTo + Extracted(fromTweets[..i], Tokenize)
    {
      assert fromTweets[..i + 1][..i] == fromTweets[..i];
      var words := fromTweets[i].text;
      var ws := Split(words);
      var wordsFiltered := seq(|ws|, k requires 0 <= k < |ws| => Lower(ws[k]));
      r := r + [Example(wordsFiltered, fromTweets[i].intent)];
    }
    assert fromTweets[..|fromTweets|] == fromTweets;
  }

  /** How many test tweets the classifier trained on `examples` under the feature
      words `features` labels correctly: one point of the accuracy curve, before
      the division by the number of test tweets. */
  function Sample(examples: seq<Example>, tests: seq<Tweet>, features: seq<string>,
                  train: seq<(FeatureSet, string)> -> Classify): (c: nat)
    ensures c <= |tests|
  {
    NumCorrect(tests, features, train(TrainingSet(examples, features)))
  }

  /** The filter loop of `classifier`: `wordList.remove(word)` for every excluded
      word while iterating over the same list, so the word after each removed
      one is never examined. */
  method FilterWords(ranked: seq<string>) returns (wordList: seq<string>)
    requires NoDuplicates(ranked)
    ensures wordList == FilterWhileIterating(ranked, Excluded)
  {
    wordList := ranked;
    var i := 0;
    FilterStart(ranked, Excluded);
    while i < |wordList|
      invariant FilterProgress(wordList, i, ranked, Excluded)
      decreases |wordList| + 1 - i
    {
      ghost var before := wordList;
      var word := wordList[i];
      i := i + 1;
      if word in EnglishStopWords {
        wordList := RemoveFirst(wordList, word);
      } else if MatchesUrl(word) {
        wordList := RemoveFirst(wordList, word);
      } else if MatchesMention(word) {
        wordList := RemoveFirst(wordList, word);
      } else if MatchesEscape(word) {
        wordList := RemoveFirst(wordList, word);
      }
      FilterLoopStep(before, wordList, i - 1, ranked, Excluded);
    }
    FilterDone(wordList, i, ranked, Excluded);
  }

  /** One drawing loop of `seperateTestTraining`; the script repeats it for each
      bucket. Each turn appends the record at the drawn index to the training
      list and pops it from the bucket. */
  method DrawInto(bucket: seq<Tweet>, training: seq<Tweet>, noOfTweetsOfAType: nat, picks: seq<nat>)
    returns (rest: seq<Tweet>, trained: seq<Tweet>)
    requires |picks| == noOfTweetsOfAType + 1 && ValidDraws(bucket, picks)
    ensures rest == Draw(bucket, picks).rest
    ensures trained == training + Draw(bucket, picks).picked
  {
    rest, trained := bucket, training;
    var count := 0;
    while count <= noOfTweetsOfAType
      invariant count <= noOfTweetsOfAType + 1 && ValidDraws(bucket, picks[..count])
      invariant rest == Draw(bucket, picks[..count]).rest
      invariant trained == training + Draw(bucket, picks[..count]).picked
    {
      DrawStep(bucket, picks, count);
      var index := picks[count];
      trained := trained + [rest[index]];
      rest := rest[..index] + rest[index + 1..];
      count := count + 1;
    }
    assert picks[..count] == picks;
  }

  class Script {
    var recommendTweets: seq<Tweet>
    var purchaseTweets: seq<Tweet>
    var neutralTweets: seq<Tweet>
    var trainingTweets: seq<Tweet>
    var testTweets: seq<Tweet>
    var trainingTweetsWords: seq<Example>
    var wordFeatures: seq<string>
    var wordListG: seq<string>

    /** Every list as the script declares it, empty. */
    ghost predicate Initial()
      reads this
    {
      recommendTweets == [] && purchaseTweets == [] && neutralTweets == [] &&
      trainingTweets == [] && testTweets == [] && trainingTweetsWords == [] &&
      wordFeatures == [] && wordListG == []
    }

    constructor ()
      ensures Initial()
    {
      recommendTweets, purchaseTweets, neutralTweets := [], [], [];
      trainingTweets, testTweets, trainingTweetsWords := [], [], [];
      wordFeatures, wordListG := [], [];
    }

    /** `initializeLists`: stem every record and append it to the bucket of its
        intent; a record with any other intent is dropped. */
    method InitializeLists(records: seq<Tweet>, stem: string -> string)
      modifies this`recommendTweets, this`purchaseTweets, this`neutralTweets
      ensures recommendTweets == old(recommendTweets) + Bucket(Stemmed(stem, records), "r")
      ensures purchaseTweets == old(purchaseTweets) + Bucket(Stemmed(stem, records), "p")
      ensures neutralTweets == old(neutralTweets) + Bucket(Stemmed(stem, records), "n")
    {
      for i := 0 to |records|
        invariant recommendTweets == old(recommendTweets) + Bucket(Stemmed(stem, records[..i]), "r")
        invariant purchaseTweets == old(purchaseTweets) + Bucket(Stemmed(stem, records[..i]), "p")
        invariant neutralTweets == old(neutralTweets) + Bucket(Stemmed(stem, records[..i]), "n")
      {
        var tweet := Tweet(ApplyStemmerToTweet(stem, records[i].text), records[i].intent);
        StemmedSnoc(stem, records, i);
        BucketAppend(Stemmed(stem, records[..i]), [tweet], "r");
        BucketAppend(Stemmed(stem, records[..i]), [tweet], "p");
        BucketAppend(Stemmed(stem, records[..i]), [tweet], "n");
        if tweet.intent == "r" {
          recommendTweets := recommendTweets + [tweet];
        } else if tweet.intent == "p" {
          purchaseTweets := purchaseTweets + [tweet];
        } else if tweet.intent == "n" {
          neutralTweets := neutralTweets + [tweet];
        }
      }
      assert records[..|records|] == records;
    }

    /** `seperateTestTraining`: draw `noOfTweetsOfAType + 1` records from each
        bucket into the training list (`picks` are the random indices), then
        append what the buckets still hold to the test list. */
    method SeperateTestTraining(noOfTweetsOfAType: nat, rPicks: seq<nat>, pPicks: seq<nat>, nPicks: seq<nat>)
      requires |rPicks| == |pPicks| == |nPicks| == noOfTweetsOfAType + 1
      requires ValidDraws(recommendTweets, rPicks)
      requires ValidDraws(purchaseTweets, pPicks)
      requires ValidDraws(neutralTweets, nPicks)
      modifies this`recommendTweets, this`purchaseTweets, this`neutralTweets
      modifies this`trainingTweets, this`testTweets
      ensures recommendTweets == Draw(old(recommendTweets), rPicks).rest
      ensures purchaseTweets == Draw(old(purchaseTweets), pPicks).rest
      ensures neutralTweets == Draw(old(neutralTweets), nPicks).rest
      ensures trainingTweets == old(trainingTweets) + Draw(old(recommendTweets), rPicks).picked
              + Draw(old(purchaseTweets), pPicks).picked + Draw(old(neutralTweets), nPicks).picked
      ensures testTweets == old(testTweets) + (Draw(old(recommendTweets), rPicks).rest
              + Draw(old(purchaseTweets), pPicks).rest + Draw(old(neutralTweets), nPicks).rest)
    {
      recommendTweets, trainingTweets := DrawInto(recommendTweets, trainingTweets, noOfTweetsOfAType, rPicks);
      purchaseTweets, trainingTweets := DrawInto(purchaseTweets, trainingTweets, noOfTweetsOfAType, pPicks);
      neutralTweets, trainingTweets := DrawInto(neutralTweets, trainingTweets, noOfTweetsOfAType, nPicks);
      testTweets := testTweets + (recommendTweets + purchaseTweets + neutralTweets);
    }

    /** `classifier`: gather the training tokens, rank the distinct words, filter
        them with the remove-while-iterating loop, append the result to
        `wordListG` and return its first `noOfFeatures` words. */
    method Classifier(noOfFeatures: nat) returns (features: seq<string>)
      modifies this`wordListG
      ensures wordListG == old(wordListG) + FilteredVocabulary(AllWords(trainingTweetsWords))
      ensures features == Prefix(FilteredVocabulary(AllWords(trainingTweetsWords)), noOfFeatures)
    {
      var allWords: seq<string> := [];
      for i := 0 to |trainingTweetsWords|
        modifies {}
        invariant allWords == AllWords(trainingTweetsWords[..i])
      {
        assert trainingTweetsWords[..i + 1][..i] == trainingTweetsWords[..i];
        allWords := allWords + trainingTweetsWords[i].words;
      }
      assert trainingTweetsWords[..|trainingTweetsWords|] == trainingTweetsWords;
      var wordList := Rank(allWords);
      RankSpec(allWords);
      wordList := FilterWords(wordList);
      wordListG := wordListG + wordList;
      features := Prefix(wordList, noOfFeatures);
    }

    /** `extractFeatures`: one entry per feature word, true when the word is among
        the tweet's words. */
    method ExtractFeatures(tweetWords: seq<string>) returns (features: FeatureSet)
      ensures features.Keys == set w | w in wordFeatures
      ensures forall w :: w in wordFeatures ==> (features[w] <==> w in tweetWords)
      ensures features == FeatureMap(tweetWords, wordFeatures)
    {
      var words := set w | w in tweetWords;
      features := map[];
      for i := 0 to |wordFeatures|
        invariant features == FeatureMap(tweetWords, wordFeatures[..i])
      {
        assert forall w :: w in wordFeatures[..i + 1] <==> w in wordFeatures[..i] || w == wordFeatures[i];
        features := features[wordFeatures[i] := wordFeatures[i] in words];
      }
      assert wordFeatures[..|wordFeatures|] == wordFeatures;
    }

    /** The test loop of `main`: how many test tweets the classifier labels with their own intent. */
    method CountCorrect(classify: Classify) returns (count: nat)
      ensures count == NumCorrect(testTweets, wordFeatures, classify)
      ensures count <= |testTweets|
    {
      count := 0;
      for i := 0 to |testTweets|
        invariant count == NumCorrect(testTweets[..i], wordFeatures, classify)
      {
        assert testTweets[..i + 1][..i] == testTweets[..i];
        var tweetText, intent := testTweets[i].text, testTweets[i].intent;
        var features := ExtractFeatures(Split(tweetText));
        var prediction := classify(features);
        if prediction == intent {
          count := count + 1;
        }
      }
      assert testTweets[..|testTweets|] == testTweets;
    }
  
    /** Lines 135-136 of `main`: load and bucket the records, then draw the
        training tweets; what is left becomes the test tweets. */
    method Load(records: seq<Tweet>, stem: string -> string,
                rPicks: seq<nat>, pPicks: seq<nat>, nPicks: seq<nat>)
      requires Initial()
      requires |rPicks| == |pPicks| == |nPicks| == NoOfTweetsOfAType + 1
      requires ValidDraws(Bucket(Stemmed(stem, records), "r"), rPicks)
      requires ValidDraws(Bucket(Stemmed(stem, records), "p"), pPicks)
      requires ValidDraws(Bucket(Stemmed(stem, records), "n"), nPicks)
      modifies this`recommendTweets, this`purchaseTweets, this`neutralTweets
      modifies this`trainingTweets, this`testTweets
      ensures var r, p, n := Draw(Bucket(Stemmed(stem, records), "r"), rPicks),
                             Draw(Bucket(Stemmed(stem, records), "p"), pPicks),
                             Draw(Bucket(Stemmed(stem, records), "n"), nPicks);
        recommendTweets == r.rest && purchaseTweets == p.rest && neutralTweets == n.rest &&
        trainingTweets == r.picked + p.picked + n.picked &&
        testTweets == r.rest + p.rest + n.rest
    {
      var noOfTweetsOfAType := NoOfTweetsOfAType;
      ghost var stemmed := Stemmed(stem, records);
      InitializeLists(records, stem);
      assert recommendTweets == Bucket(stemmed, "r");
      assert purchaseTweets == Bucket(stemmed, "p");
      assert neutralTweets == Bucket(stemmed, "n");
      ghost var r, p, n := Draw(Bucket(stemmed, "r"), rPicks), Draw(Bucket(stemmed, "p"), pPicks),
                           Draw(Bucket(stemmed, "n"), nPicks);
      SeperateTestTraining(noOfTweetsOfAType, rPicks, pPicks, nPicks);
    }

    /** Lines 138-139 of `main`: extract the training words and take the first
        50 words of the vocabulary as the features. */
    method BuildVocabulary()
      requires trainingTweetsWords == [] && wordListG == [] && wordFeatures == []
      modifies this`trainingTweetsWords, this`wordListG, this`wordFeatures
      ensures trainingTweetsWords == Extracted(trainingTweets, Tokenize)
      ensures wordListG == FilteredVocabulary(AllWords(trainingTweetsWords))
      ensures wordFeatures == Prefix(wordListG, InitialFeatures)
    {
      var noOfFeatures := InitialFeatures;
      trainingTweetsWords := ExtractWords(trainingTweetsWords, trainingTweets);
      var features := Classifier(noOfFeatures);
      wordFeatures := wordFeatures + features;
    }

    /** Lines 140-148, repeated at 156-164: train a classifier on the training
        words under the current features and count its correct test predictions. */
    method Evaluate(train: seq<(FeatureSet, string)> -> Classify) returns (count: nat)
      ensures count == Sample(trainingTweetsWords, testTweets, wordFeatures, train)
      ensures count <= |testTweets|
    {
      var trainingSet := TrainingSet(trainingTweetsWords, wordFeatures);
      var classify := train(trainingSet);
      count := CountCorrect(classify);
    }

    /** Lines 154-155: empty the feature list, then fill it with the first `n`
        words of the filtered vocabulary. */
    method UseFeatures(n: nat)
      modifies this`wordFeatures
      ensures wordFeatures == Prefix(wordListG, n)
    {
      wordFeatures := [];
      wordFeatures := wordFeatures + Prefix(wordListG, n);
    }

    /** Lines 149-167 of `main`: one sample with the first 50 feature words, then
        one with the first `i` words for every `i` from 50 to 304. */
    method Sweep(train: seq<(FeatureSet, string)> -> Classify)
      returns (featuresCount: seq<int>, corrects: seq<nat>)
      requires wordFeatures == Prefix(wordListG, InitialFeatures)
      modifies this`wordFeatures
      ensures wordFeatures == Prefix(wordListG, 304)
      ensures featuresCount == [InitialFeatures] + seq(255, j => 50 + j)
      ensures |corrects| == |featuresCount|
      ensures forall j :: 0 <= j < |corrects| ==>
                featuresCount[j] >= 0 &&
                corrects[j] == Sample(trainingTweetsWords, testTweets, Prefix(wordListG, featuresCount[j]), train) &&
                corrects[j] <= |testTweets|
      ensures corrects[0] == corrects[1]
    {
      ghost var examples, tests, vocabulary := trainingTweetsWords, testTweets, wordListG;
      var noOfFeatures := InitialFeatures;
      var count := Evaluate(train);
      featuresCount := [noOfFeatures];
      corrects := [count];
      for i := 50 to 305
        invariant |featuresCount| == |corrects| == i - 49 && featuresCount[0] == 50
        invariant forall j :: 1 <= j < |featuresCount| ==> featuresCount[j] == 49 + j
        invariant forall j :: 0 <= j < |corrects| ==>
                    corrects[j] == Sample(examples, tests, Prefix(vocabulary, featuresCount[j]), train)
        invariant wordFeatures == Prefix(vocabulary, if i == 50 then 50 else i - 1)
      {
        noOfFeatures := i;
        UseFeatures(noOfFeatures);
        count := Evaluate(train);
        featuresCount := featuresCount + [noOfFeatures];
        corrects := corrects + [count];
      }
      assert featuresCount == [InitialFeatures] + seq(255, j => 50 + j);
    }

    /** `main`, with the plotting left out: `Load`, `BuildVocabulary`, then `Sweep`. */
    method Run(records: seq<Tweet>, stem: string -> string,
               rPicks: seq<nat>, pPicks: seq<nat>, nPicks: seq<nat>,
               train: seq<(FeatureSet, string)> -> Classify)
      returns (featuresCount: seq<int>, corrects: seq<nat>)
      requires Initial()
      requires |rPicks| == |pPicks| == |nPicks| == NoOfTweetsOfAType + 1
      requires ValidDraws(Bucket(Stemmed(stem, records), "r"), rPicks)
      requires ValidDraws(Bucket(Stemmed(stem, records), "p"), pPicks)
      requires ValidDraws(Bucket(Stemmed(stem, records), "n"), nPicks)
      modifies this
      ensures var r, p, n := Draw(Bucket(Stemmed(stem, records), "r"), rPicks),
                             Draw(Bucket(Stemmed(stem, records), "p"), pPicks),
                             Draw(Bucket(Stemmed(stem, records), "n"), nPicks);
        recommendTweets == r.rest && purchaseTweets == p.rest && neutralTweets == n.rest &&
        trainingTweets == r.picked + p.picked + n.picked &&
        testTweets == r.rest + p.rest + n.rest
      ensures trainingTweetsWords == Extracted(trainingTweets, Tokenize)
      ensures wordListG == FilteredVocabulary(AllWords(trainingTweetsWords))
      ensures wordFeatures == Prefix(wordListG, 304)
      ensures featuresCount == [InitialFeatures] + seq(255, j => 50 + j)
      ensures |corrects| == |featuresCount|
      ensures forall j :: 0 <= j < |corrects| ==>
                featuresCount[j] >= 0 &&
                corrects[j] == Sample(trainingTweetsWords, testTweets, Prefix(wordListG, featuresCount[j]), train) &&
                corrects[j] <= |testTweets|
      ensures corrects[0] == corrects[1]
    {
      Load(records, stem, rPicks, pPicks, nPicks);
      BuildVocabulary();
      featuresCount, corrects := Sweep(train);
    }
  }
}
