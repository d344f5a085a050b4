/** Feature sets as `extractFeatures` builds them, the training set that
    `apply_features` yields, and the count of correct predictions on the test
    tweets. The Naive Bayes classifier itself is a parameter. */
module Features {
  import opened Text
  import opened Loader

  /** `{'contains(w)': bool}`; the key is the word itself, since the formatting is injective. */
  type FeatureSet = map<string, bool>

  /** A trained classifier: a predicted intent for every feature set. */
  type Classify = FeatureSet -> string

  /** What `extractFeatures` returns: one entry per vocabulary word, true when
      the word is among the tokens. */
  function FeatureMap(tokens: seq<string>, vocabulary: seq<string>): FeatureSet {
    map w | w in vocabulary :: w in tokens
  }

  /** A feature set has exactly the vocabulary as keys, and it does not depend on
      the order of the tokens or on repeated tokens. */
  lemma {:induction false} FeatureMapSpec(tokens: seq<string>, others: seq<string>, vocabulary: seq<string>)
    requires forall w :: w in tokens <==> w in others
    ensures FeatureMap(tokens, vocabulary).Keys == set w | w in vocabulary
    ensures forall w :: w in vocabulary ==> (FeatureMap(tokens, vocabulary)[w] <==> w in tokens)
    ensures FeatureMap(tokens, vocabulary) == FeatureMap(others, vocabulary)
  {
  }

  /** Lines 140-141: `apply_features(extractFeatures, trainingTweetsWords)`. */
  function TrainingSet(examples: seq<Example>, vocabulary: seq<string>): seq<(FeatureSet, string)> {
    seq(|examples|, i requires 0 <= i < |examples| =>
      (FeatureMap(examples[i].words, vocabulary), examples[i].intent))
  }

  /** Whether the classifier gets a test tweet right; test texts are split but not lower-cased. */
  predicate PredictsCorrectly(t: Tweet, vocabulary: seq<string>, classify: Classify) {
    classify(FeatureMap(Split(t.text), vocabulary)) == t.intent
  }

  /** How many elements of `xs` pass `ok`. */
  function Hits<T>(xs: seq<T>, ok: T -> bool): (c: nat)
    ensures c <= |xs|
  {
    if xs == [] then 0
    else Hits(xs[..|xs| - 1], ok) + (if ok(xs[|xs| - 1]) then 1 else 0)
  }

  /** Every element passes exactly when the count is the full length. */
  lemma {:induction false} HitsAll<T>(xs: seq<T>, ok: T -> bool)
    ensures Hits(xs, ok) == |xs| <==> forall i :: 0 <= i < |xs| ==> ok(xs[i])
    decreases |xs|
  {
    if xs != [] {
      var init := xs[..|xs| - 1];
      HitsAll(init, ok);
      if Hits(xs, ok) == |xs| {
        forall i | 0 <= i < |xs| ensures ok(xs[i]) {
          if i < |init| {
            assert xs[i] == init[i];
          }
        }
      } else if forall i :: 0 <= i < |xs| ==> ok(xs[i]) {
        forall i | 0 <= i < |init| ensures ok(init[i]) {
          assert xs[i] == init[i];
        }
      }
    }
  }

  /** The number of test tweets whose intent the classifier predicts. */
  function NumCorrect(tests: seq<Tweet>, vocabulary: seq<string>, classify: Classify): (c: nat)
    ensures c <= |tests|
  {
    Hits(tests, t => PredictsCorrectly(t, vocabulary, classify))
  }

  /** The count reaches the number of test tweets exactly when every prediction is right. */
  lemma {:induction false} NumCorrectAll(tests: seq<Tweet>, vocabulary: seq<string>, classify: Classify)
    ensures NumCorrect(tests, vocabulary, classify) == |tests| <==>
            forall i :: 0 <= i < |tests| ==> PredictsCorrectly(tests[i], vocabulary, classify)
  {
    HitsAll(tests, t => PredictsCorrectly(t, vocabulary, classify));
  }
}
