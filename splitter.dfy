/** The random draws of `seperateTestTraining`, with the random indices supplied
    by the caller instead of `random.randrange`. */
module Splitter {
  import opened Sequences
  import opened Loader

  /** `picks[j]` is the index drawn at step `j`; `randrange` only yields indices
      below the bucket's current length, which is `|bucket| - j` at step `j`. */
  predicate ValidDraws(bucket: seq<Tweet>, picks: seq<nat>) {
    forall j :: 0 <= j < |picks| ==> picks[j] < |bucket| - j
  }

  /** What the draws take from a bucket (in draw order) and what they leave in it. */
  datatype Drawn = Drawn(picked: seq<Tweet>, rest: seq<Tweet>)

  /** The effect of the drawing loop: each step appends `bucket[index]` to the
      picks and pops it from the bucket. The sizes are those of the source: one
      pick per draw, the bucket shrinking by one per draw. */
  function Draw(bucket: seq<Tweet>, picks: seq<nat>): (d: Drawn)
    requires ValidDraws(bucket, picks)
    ensures |d.picked| == |picks| && |d.rest| == |bucket| - |picks|
    decreases |picks|
  {
    if picks == [] then Drawn([], bucket)
    else
      var prev := Draw(bucket, picks[..|picks| - 1]);
      var i := picks[|picks| - 1];
      Drawn(prev.picked + [prev.rest[i]], prev.rest[..i] + prev.rest[i + 1..])
  }

  /** Draw `n + 1` of a valid sequence of draws extends draw `n` by one pick. */
  lemma {:induction false} DrawStep(bucket: seq<Tweet>, picks: seq<nat>, n: nat)
    requires ValidDraws(bucket, picks) && n < |picks|
    ensures ValidDraws(bucket, picks[..n]) && ValidDraws(bucket, picks[..n + 1])
    ensures var prev := Draw(bucket, picks[..n]); var i := picks[n];
      i < |prev.rest| &&
      Draw(bucket, picks[..n + 1]) == Drawn(prev.picked + [prev.rest[i]], prev.rest[..i] + prev.rest[i + 1..])
  {
    assert picks[..n + 1][..n] == picks[..n];
  }

  /** Drawing moves records and never creates or loses one. */
  lemma {:induction false} DrawConserves(bucket: seq<Tweet>, picks: seq<nat>)
    requires ValidDraws(bucket, picks)
    ensures multiset(Draw(bucket, picks).picked) + multiset(Draw(bucket, picks).rest) == multiset(bucket)
    decreases |picks|
  {
    if picks != [] {
      var init := picks[..|picks| - 1];
      DrawConserves(bucket, init);
      var prev := Draw(bucket, init);
      var i := picks[|picks| - 1];
      assert prev.rest == prev.rest[..i] + [prev.rest[i]] + prev.rest[i + 1..];
    }
  }

  /** What is left in a bucket keeps its original relative order. */
  lemma {:induction false} DrawKeepsOrder(bucket: seq<Tweet>, picks: seq<nat>)
    requires ValidDraws(bucket, picks)
    ensures IsSubsequence(Draw(bucket, picks).rest, bucket)
    decreases |picks|
  {
    if picks == [] {
      SubsequenceReflexive(bucket);
    } else {
      var init := picks[..|picks| - 1];
      DrawKeepsOrder(bucket, init);
      var prev := Draw(bucket, init);
      var i := picks[|picks| - 1];
      RemoveAtIsSubsequence(prev.rest, i);
      SubsequenceTransitive(Draw(bucket, picks).rest, prev.rest, bucket);
    }
  }

  /** A bucket with fewer records than draws admits no valid draws: the draw
      after the bucket runs empty calls `randrange(0)`, which has no index to give. */
  lemma {:induction false} ShortBucketCannotBeDrawn(bucket: seq<Tweet>, picks: seq<nat>)
    requires |picks| > |bucket|
    ensures !ValidDraws(bucket, picks)
  {
    assert !(picks[|bucket|] < |bucket| - |bucket|);
  }

  /** The split as a whole: the records added to the training list and those added
      to the test list are, together, exactly the records of the three buckets. */
  lemma {:induction false} SplitConserves(r: seq<Tweet>, p: seq<Tweet>, n: seq<Tweet>,
                                          rPicks: seq<nat>, pPicks: seq<nat>, nPicks: seq<nat>)
    requires ValidDraws(r, rPicks) && ValidDraws(p, pPicks) && ValidDraws(n, nPicks)
    ensures multiset(Draw(r, rPicks).picked + Draw(p, pPicks).picked + Draw(n, nPicks).picked)
          + multiset(Draw(r, rPicks).rest + Draw(p, pPicks).rest + Draw(n, nPicks).rest)
         == multiset(r + p + n)
  {
    DrawConserves(r, rPicks);
    DrawConserves(p, pPicks);
    DrawConserves(n, nPicks);
  }
}
