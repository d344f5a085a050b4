/** The records the script reads and how `initializeLists` sorts them into the
    three intent buckets. */
module Loader {
  import opened Sequences
  import opened Text

  /** One classified tweet, `(text, intent)`; the intent is `"r"` (recommendation),
      `"p"` (purchase) or `"n"` (neutral), or anything else in a malformed record. */
  datatype Tweet = Tweet(text: string, intent: string)

  /** A training tweet after `extractWords`: its lower-cased tokens and its intent. */
  datatype Example = Example(words: seq<string>, intent: string)

  /** `applyStemmerToTweet`: stem every whitespace-separated word and rejoin with single spaces. */
  function ApplyStemmerToTweet(stem: string -> string, text: string): string {
    var ws := Split(text);
    Join(seq(|ws|, i requires 0 <= i < |ws| => stem(ws[i])))
  }

  /** The records with their texts stemmed, as line 56 rewrites them. */
  function Stemmed(stem: string -> string, records: seq<Tweet>): seq<Tweet> {
    seq(|records|, i requires 0 <= i < |records| =>
      Tweet(ApplyStemmerToTweet(stem, records[i].text), records[i].intent))
  }

  /** Stemming one more record appends its stemmed copy. */
  lemma {:induction false} StemmedSnoc(stem: string -> string, records: seq<Tweet>, i: nat)
    requires i < |records|
    ensures Stemmed(stem, records[..i + 1])
         == Stemmed(stem, records[..i]) + [Tweet(ApplyStemmerToTweet(stem, records[i].text), records[i].intent)]
  {
    var a, b := Stemmed(stem, records[..i + 1]), Stemmed(stem, records[..i]);
    assert forall k :: 0 <= k < i ==> a[k] == b[k];
  }

  /** The records whose intent is `intent`, in input order. */
  function Bucket(records: seq<Tweet>, intent: string): seq<Tweet> {
    if records == [] then []
    else (if records[0].intent == intent then [records[0]] else []) + Bucket(records[1..], intent)
  }

  /** A record is in the bucket for `intent` exactly when it is an input record with that intent. */
  lemma {:induction false} BucketMembers(records: seq<Tweet>, intent: string)
    ensures forall t :: t in Bucket(records, intent) <==> t in records && t.intent == intent
    decreases |records|
  {
    if records != [] {
      BucketMembers(records[1..], intent);
      assert records == [records[0]] + records[1..];
    }
  }

  lemma {:induction false} BucketAppend(a: seq<Tweet>, b: seq<Tweet>, intent: string)
    ensures Bucket(a + b, intent) == Bucket(a, intent) + Bucket(b, intent)
    decreases |a|
  {
    if a == [] {
      assert a + b == b;
    } else {
      var ab := a + b;
      assert ab[0] == a[0] && ab[1..] == a[1..] + b;
      BucketAppend(a[1..], b, intent);
      var head := if a[0].intent == intent then [a[0]] else [];
      assert Bucket(ab, intent) == head + Bucket(a[1..] + b, intent);
      assert Bucket(a, intent) == head + Bucket(a[1..], intent);
    }
  }

  /** A bucket keeps its records in input order. */
  lemma {:induction false} BucketKeepsOrder(records: seq<Tweet>, intent: string)
    ensures IsSubsequence(Bucket(records, intent), records)
    decreases |records|
  {
    if records != [] {
      BucketKeepsOrder(records[1..], intent);
      var b := Bucket(records, intent);
      if records[0].intent == intent {
        assert b[0] == records[0] && b[1..] == Bucket(records[1..], intent);
      } else {
        assert b == Bucket(records[1..], intent);
      }
    }
  }

  predicate KnownIntent(t: Tweet) {
    t.intent == "r" || t.intent == "p" || t.intent == "n"
  }

  /** The records that fall through all three branches and are silently dropped. */
  function Dropped(records: seq<Tweet>): seq<Tweet> {
    if records == [] then []
    else (if KnownIntent(records[0]) then [] else [records[0]]) + Dropped(records[1..])
  }

  /** The first record lands in the bucket of its own intent and in no other. */
  lemma {:induction false} BucketHead(records: seq<Tweet>, intent: string)
    requires records != []
    ensures multiset(Bucket(records, intent))
         == (if records[0].intent == intent then multiset{records[0]} else multiset{})
            + multiset(Bucket(records[1..], intent))
  {
  }

  /** The first record is dropped exactly when its intent is none of the three. */
  lemma {:induction false} DroppedHead(records: seq<Tweet>)
    requires records != []
    ensures multiset(Dropped(records))
         == (if KnownIntent(records[0]) then multiset{} else multiset{records[0]})
            + multiset(Dropped(records[1..]))
  {
  }

  /** The three buckets and the dropped records, as one multiset. */
  function Parts(records: seq<Tweet>): multiset<Tweet> {
    multiset(Bucket(records, "r")) + multiset(Bucket(records, "p"))
    + multiset(Bucket(records, "n")) + multiset(Dropped(records))
  }

  /** Four parts that each gain their head share gain, together, the whole head. */
  lemma {:induction false} SumOfHeads(r: multiset<Tweet>, p: multiset<Tweet>, n: multiset<Tweet>, d: multiset<Tweet>,
                                      r1: multiset<Tweet>, p1: multiset<Tweet>, n1: multiset<Tweet>, d1: multiset<Tweet>,
                                      t: Tweet)
    requires r + p + n + d == multiset{t}
    ensures (r + r1) + (p + p1) + (n + n1) + (d + d1) == multiset{t} + (r1 + p1 + n1 + d1)
  {
    forall x ensures ((r + r1) + (p + p1) + (n + n1) + (d + d1))[x] == (multiset{t} + (r1 + p1 + n1 + d1))[x] {
      assert (r + p + n + d)[x] == multiset{t}[x];
    }
  }

  lemma {:induction false} PartsHead(records: seq<Tweet>)
    requires records != []
    ensures Parts(records) == multiset{records[0]} + Parts(records[1..])
  {
    var t, rest := records[0], records[1..];
    BucketHead(records, "r");
    BucketHead(records, "p");
    BucketHead(records, "n");
    DroppedHead(records);
    var r := if t.intent == "r" then multiset{t} else multiset{};
    var p := if t.intent == "p" then multiset{t} else multiset{};
    var n := if t.intent == "n" then multiset{t} else multiset{};
    var d := if KnownIntent(t) then multiset{} else multiset{t};
    assert r + p + n + d == multiset{t} by {
      assert "r" != "p" && "r" != "n" && "p" != "n";
    }
    SumOfHeads(r, p, n, d, multiset(Bucket(rest, "r")), multiset(Bucket(rest, "p")),
               multiset(Bucket(rest, "n")), multiset(Dropped(rest)), t);
  }

  /** The three buckets and the dropped records together are a rearrangement of the input:
      no record is lost or duplicated. */
  lemma {:induction false} BucketsPartition(records: seq<Tweet>)
    ensures multiset(Bucket(records, "r")) + multiset(Bucket(records, "p"))
          + multiset(Bucket(records, "n")) + multiset(Dropped(records))
         == multiset(records)
    decreases |records|
  {
    if records != [] {
      var rest := records[1..];
      BucketsPartition(rest);
      PartsHead(records);
      assert records == [records[0]] + rest;
      assert multiset(records) == multiset{records[0]} + multiset(rest);
      assert Parts(rest) == multiset(rest);
    }
  }

  /** If the stemmer maps words to words, the stemmed text splits into the stemmed words. */
  lemma {:induction false} StemmedTokens(stem: string -> string, text: string)
    requires forall w :: IsWord(w) ==> IsWord(stem(w))
    ensures Split(ApplyStemmerToTweet(stem, text)) ==
            seq(|Split(text)|, i requires 0 <= i < |Split(text)| => stem(Split(text)[i]))
  {
    var ws := Split(text);
    var stems := seq(|ws|, i requires 0 <= i < |ws| => stem(ws[i]));
    SplitWords(text);
    forall i | 0 <= i < |stems| ensures IsWord(stems[i]) {
      assert IsWord(ws[i]);
    }
    SplitJoin(stems);
  }
}
