/** How `classifier` builds the feature vocabulary: count every training token,
    rank the distinct words by (count, word) descending, then drop stopwords and
    URL, mention and escape artefacts with a loop that removes from the list it
    is iterating over. */
module Vocabulary {
  import opened Sequences
  import opened Loader

  /** The fixed English stopword list of the script, in its order. */
  const EnglishStopWords: seq<string> := [
    "i", "me", "my", "myself", "we", "our", "ours", "ourselves", "you", "your", "yours",
    "yourself", "yourselves", "he", "him", "his", "himself", "she", "her", "hers",
    "herself", "it", "its", "itself", "they", "them", "their", "theirs", "themselves",
    "what", "which", "who", "whom", "this", "that", "these", "those", "am", "is", "are",
    "was", "were", "be", "been", "being", "have", "has", "had", "having", "do", "does",
    "did", "doing", "a", "an", "the", "and", "but", "if", "or", "because", "as", "until",
    "while", "of", "at", "by", "for", "with", "about", "against", "between", "into",
    "through", "during", "before", "after", "above", "below", "to", "from", "up", "down",
    "in", "out", "on", "off", "over", "under", "again", "further", "then", "once", "here",
    "there", "when", "where", "why", "how", "all", "any", "both", "each", "few", "more",
    "most", "other", "some", "such", "no", "nor", "not", "only", "own", "same", "so",
    "than", "too", "very", "s", "t", "can", "will", "just", "don", "should", "now"
  ]

  /** `\w` without the UNICODE flag: an ASCII letter, digit or underscore. */
  predicate IsWordChar(c: char) {
    'a' <= c <= 'z' || 'A' <= c <= 'Z' || '0' <= c <= '9' || c == '_'
  }

  /** At index `i` stands `http` followed by a `\w` character or a colon. */
  predicate HttpAt(w: string, i: nat)
    requires i + 5 <= |w|
  {
    w[i..i + 4] == "http" && (IsWordChar(w[i + 4]) || w[i + 4] == ':')
  }

  /** `re.search(r'http[\w:]+', w)` finds a match. */
  predicate MatchesUrl(w: string) {
    exists i: nat :: i + 5 <= |w| && HttpAt(w, i)
  }

  /** `re.search(r'[\w:?]*@\w*', w)` finds a match: both repetitions may be empty,
      so this is the presence of an `@`. */
  predicate MatchesMention(w: string) {
    '@' in w
  }

  /** At index `i` stands a backslash followed by `u`. */
  predicate EscapeAt(w: string, i: nat)
    requires i + 2 <= |w|
  {
    w[i] == '\\' && w[i + 1] == 'u'
  }

  /** `re.search(r'\\u[\w:@.]*', w)` finds a match: a literal backslash-u anywhere. */
  predicate MatchesEscape(w: string) {
    exists i: nat :: i + 2 <= |w| && EscapeAt(w, i)
  }

  /** The four tests of the `if`/`elif` chain; a word that any of them accepts is removed. */
  predicate Excluded(w: string) {
    w in EnglishStopWords || MatchesUrl(w) || MatchesMention(w) || MatchesEscape(w)
  }

  // ------------------------------------------------------------ ranking

  /** Python's `<` on strings: lexicographic by code point, a proper prefix first. */
  predicate StrLess(a: string, b: string)
    decreases |a|
  {
    if a == [] then b != []
    else b != [] && (a[0] < b[0] || (a[0] == b[0] && StrLess(a[1..], b[1..])))
  }

  /** Lines 93-94: the tokens of all training examples, one example after the other. */
  function AllWords(examples: seq<Example>): seq<string> {
    if examples == [] then []
    else AllWords(examples[..|examples| - 1]) + examples[|examples| - 1].words
  }

  /** A word is a training token exactly when some training example contains it. */
  lemma {:induction false} AllWordsMembers(examples: seq<Example>)
    ensures forall w :: w in AllWords(examples) <==> exists i :: 0 <= i < |examples| && w in examples[i].words
    decreases |examples|
  {
    if examples != [] {
      var init := examples[..|examples| - 1];
      AllWordsMembers(init);
      forall w | w in AllWords(examples)
        ensures exists i :: 0 <= i < |examples| && w in examples[i].words
      {
        if w !in examples[|examples| - 1].words {
          assert w in AllWords(init);
          var i :| 0 <= i < |init| && w in init[i].words;
          assert examples[i] == init[i];
        }
      }
      forall w, i | 0 <= i < |examples| && w in examples[i].words
        ensures w in AllWords(examples)
      {
        if i < |init| {
          assert init[i] == examples[i];
        }
      }
    }
  }

  /** `FreqDist(allWords)[w]`: how often `w` occurs among the training tokens. */
  function Occurrences(allWords: seq<string>, w: string): nat {
    multiset(allWords)[w]
  }

  /** `a` sorts before `b` under `key=(count, word)` with `reverse=True`. */
  predicate RanksAbove(allWords: seq<string>, a: string, b: string) {
    Occurrences(allWords, a) > Occurrences(allWords, b) ||
    (Occurrences(allWords, a) == Occurrences(allWords, b) && StrLess(b, a))
  }

  /** Strictly descending by (count, word). */
  predicate Descending(allWords: seq<string>, s: seq<string>) {
    forall i, j :: 0 <= i < j < |s| ==> RanksAbove(allWords, s[i], s[j])
  }

  /** The distinct words of `s` (the keys of the frequency distribution). */
  function Distinct(s: seq<string>): seq<string> {
    if s == [] then []
    else if s[0] in s[1..] then Distinct(s[1..])
    else [s[0]] + Distinct(s[1..])
  }

  function Insert(allWords: seq<string>, w: string, s: seq<string>): seq<string> {
    if s == [] then [w]
    else if RanksAbove(allWords, w, s[0]) then [w] + s
    else [s[0]] + Insert(allWords, w, s[1..])
  }

  function SortByRank(allWords: seq<string>, ws: seq<string>): seq<string> {
    if ws == [] then [] else Insert(allWords, ws[0], SortByRank(allWords, ws[1..]))
  }

  /** Lines 95-97: the distinct training words, most frequent first, ties broken
      by the larger word first. */
  function Rank(allWords: seq<string>): seq<string> {
    SortByRank(allWords, Distinct(allWords))
  }

  lemma {:induction false} StrLessIrreflexive(a: string)
    ensures !StrLess(a, a)
    decreases |a|
  {
    if a != [] {
      StrLessIrreflexive(a[1..]);
    }
  }

  lemma {:induction false} StrLessTransitive(a: string, b: string, c: string)
    requires StrLess(a, b) && StrLess(b, c)
    ensures StrLess(a, c)
    decreases |a|
  {
    if a != [] && a[0] == b[0] && b[0] == c[0] {
      StrLessTransitive(a[1..], b[1..], c[1..]);
    }
  }

  lemma {:induction false} StrLessTotal(a: string, b: string)
    requires a != b
    ensures StrLess(a, b) || StrLess(b, a)
    decreases |a|
  {
    if a != [] && b != [] && a[0] == b[0] {
      assert a == [a[0]] + a[1..] && b == [b[0]] + b[1..];
      StrLessTotal(a[1..], b[1..]);
    }
  }

  lemma {:induction false} RanksAboveIrreflexive(allWords: seq<string>, a: string)
    ensures !RanksAbove(allWords, a, a)
  {
    StrLessIrreflexive(a);
  }

  lemma {:induction false} RanksAboveTransitive(allWords: seq<string>, a: string, b: string, c: string)
    requires RanksAbove(allWords, a, b) && RanksAbove(allWords, b, c)
    ensures RanksAbove(allWords, a, c)
  {
    if Occurrences(allWords, a) == Occurrences(allWords, b) == Occurrences(allWords, c) {
      StrLessTransitive(c, b, a);
    }
  }

  lemma {:induction false} RanksAboveTotal(allWords: seq<string>, a: string, b: string)
    requires a != b
    ensures RanksAbove(allWords, a, b) || RanksAbove(allWords, b, a)
  {
    StrLessTotal(a, b);
  }

  lemma {:induction false} DistinctSpec(s: seq<string>)
    ensures NoDuplicates(Distinct(s))
    ensures forall w :: w in Distinct(s) <==> w in s
    decreases |s|
  {
    if s != [] {
      DistinctSpec(s[1..]);
      assert s == [s[0]] + s[1..];
    }
  }

  lemma {:induction false} InsertInFront(allWords: seq<string>, w: string, s: seq<string>)
    requires Descending(allWords, s) && s != [] && RanksAbove(allWords, w, s[0])
    ensures Descending(allWords, [w] + s)
  {
    var r := [w] + s;
    forall i, j | 0 <= i < j < |r| ensures RanksAbove(allWords, r[i], r[j]) {
      if i == 0 && j > 1 {
        RanksAboveTransitive(allWords, w, s[0], s[j - 1]);
      }
    }
  }

  lemma {:induction false} InsertBehindHead(allWords: seq<string>, w: string, s: seq<string>, tail: seq<string>)
    requires Descending(allWords, s) && s != [] && w != s[0] && !RanksAbove(allWords, w, s[0])
    requires Descending(allWords, tail) && multiset(tail) == multiset(s[1..]) + multiset{w}
    ensures Descending(allWords, [s[0]] + tail)
  {
    var r := [s[0]] + tail;
    RanksAboveTotal(allWords, w, s[0]);
    forall j | 0 < j < |r| ensures RanksAbove(allWords, s[0], r[j]) {
      assert r[j] == tail[j - 1];
      assert r[j] in multiset(tail);
      if r[j] != w {
        assert r[j] in multiset(s[1..]);
        var k :| 0 <= k < |s[1..]| && s[1..][k] == r[j];
        assert s[k + 1] == r[j];
      }
    }
  }

  /** The step of `InsertSpec` when the word goes behind the head. */
  lemma {:induction false} InsertBehind(allWords: seq<string>, w: string, s: seq<string>)
    requires Descending(allWords, s) && s != [] && w !in s && !RanksAbove(allWords, w, s[0])
    requires Descending(allWords, Insert(allWords, w, s[1..]))
    requires multiset(Insert(allWords, w, s[1..])) == multiset(s[1..]) + multiset{w}
    ensures multiset(Insert(allWords, w, s)) == multiset(s) + multiset{w}
    ensures Descending(allWords, Insert(allWords, w, s))
  {
    var tail := Insert(allWords, w, s[1..]);
    InsertBehindHead(allWords, w, s, tail);
    assert s == [s[0]] + s[1..];
    assert multiset([s[0]] + tail) == multiset{s[0]} + multiset(tail);
  }

  /** Inserting a new word into a descending list keeps it descending and adds exactly that word. */
  lemma {:induction false} InsertSpec(allWords: seq<string>, w: string, s: seq<string>)
    requires Descending(allWords, s) && w !in s
    ensures multiset(Insert(allWords, w, s)) == multiset(s) + multiset{w}
    ensures Descending(allWords, Insert(allWords, w, s))
    decreases |s|
  {
    if s == [] {
    } else if RanksAbove(allWords, w, s[0]) {
      InsertInFront(allWords, w, s);
    } else {
      assert w !in s[1..];
      InsertSpec(allWords, w, s[1..]);
      InsertBehind(allWords, w, s);
    }
  }

  lemma {:induction false} SortByRankSpec(allWords: seq<string>, ws: seq<string>)
    requires NoDuplicates(ws)
    ensures multiset(SortByRank(allWords, ws)) == multiset(ws)
    ensures Descending(allWords, SortByRank(allWords, ws))
    decreases |ws|
  {
    if ws != [] {
      assert NoDuplicates(ws[1..]);
      SortByRankSpec(allWords, ws[1..]);
      assert ws == [ws[0]] + ws[1..];
      assert ws[0] !in multiset(ws[1..]);
      InsertSpec(allWords, ws[0], SortByRank(allWords, ws[1..]));
    }
  }

  /** A descending list holds no word twice. */
  lemma {:induction false} DescendingNoDuplicates(allWords: seq<string>, s: seq<string>)
    requires Descending(allWords, s)
    ensures NoDuplicates(s)
  {
    forall i, j | 0 <= i < j < |s| ensures s[i] != s[j] {
      RanksAboveIrreflexive(allWords, s[i]);
    }
  }

  /** The ranked list holds every distinct training word exactly once, in strictly
      descending (count, word) order. */
  lemma {:induction false} RankSpec(allWords: seq<string>)
    ensures forall w :: w in Rank(allWords) <==> w in allWords
    ensures NoDuplicates(Rank(allWords))
    ensures Descending(allWords, Rank(allWords))
  {
    DistinctSpec(allWords);
    SortByRankSpec(allWords, Distinct(allWords));
    DescendingNoDuplicates(allWords, Rank(allWords));
    forall w ensures w in Rank(allWords) <==> w in Distinct(allWords) {
      assert w in Rank(allWords) <==> w in multiset(Rank(allWords));
    }
  }

  lemma {:induction false} TailMembers(s: seq<string>, t: seq<string>)
    requires s != [] && t != [] && s[0] == t[0] && NoDuplicates(s)
    requires forall w :: w in s ==> w in t
    ensures forall w :: w in s[1..] ==> w in t[1..]
  {
    forall w | w in s[1..] ensures w in t[1..] {
      var k :| 0 <= k < |s[1..]| && s[1..][k] == w;
      assert s[k + 1] == w && w != s[0];
      assert w in s;
      var m :| 0 <= m < |t| && t[m] == w;
      assert t[1..][m - 1] == w;
    }
  }

  /** Two descending lists of the same words are equal. */
  lemma {:induction false} DescendingUnique(allWords: seq<string>, s: seq<string>, t: seq<string>)
    requires Descending(allWords, s) && Descending(allWords, t)
    requires forall w :: w in s <==> w in t
    ensures s == t
    decreases |s|
  {
    assert |t| > 0 ==> t[0] in t;
    if s != [] {
      assert s[0] in s;
      assert t != [];
      assert t[0] in t;
      if s[0] != t[0] {
        var j :| 0 <= j < |t| && t[j] == s[0];
        var i :| 0 <= i < |s| && s[i] == t[0];
        RanksAboveTransitive(allWords, s[0], t[0], s[0]);
        RanksAboveIrreflexive(allWords, s[0]);
      }
      DescendingNoDuplicates(allWords, s);
      DescendingNoDuplicates(allWords, t);
      TailMembers(s, t);
      TailMembers(t, s);
      DescendingUnique(allWords, s[1..], t[1..]);
    }
  }

  /** The ranking is determined by the tokens alone: any list of the distinct
      training words in strictly descending (count, word) order is `Rank`. */
  lemma {:induction false} RankIsUnique(allWords: seq<string>, r: seq<string>)
    requires Descending(allWords, r)
    requires forall w :: w in r <==> w in allWords
    ensures r == Rank(allWords)
  {
    RankSpec(allWords);
    DescendingUnique(allWords, r, Rank(allWords));
  }
  // ------------------------------------------------------------ filtering

  /** Lines 98-106 as Python runs them, `excluded` standing for the four tests:
      the `for` loop walks the list by index while `remove` deletes from it, so
      after a word is removed its successor moves into the slot just visited and
      is never examined. */
  function FilterWhileIterating(ws: seq<string>, excluded: string -> bool): seq<string>
    decreases |ws|
  {
    if ws == [] then []
    else if !excluded(ws[0]) then [ws[0]] + FilterWhileIterating(ws[1..], excluded)
    else if |ws| == 1 then []
    else [ws[1]] + FilterWhileIterating(ws[2..], excluded)
  }

  /** Whether the loop looks at position `j` of the ranked list at all: the first
      word is examined, and a word is skipped exactly when its predecessor was
      examined and removed. */
  predicate Examined(ws: seq<string>, excluded: string -> bool, j: nat)
    requires j < |ws|
    decreases j
  {
    j == 0 || !Examined(ws, excluded, j - 1) || !excluded(ws[j - 1])
  }

  /** The vocabulary of `classifier` before it is cut: the ranked training words, filtered. */
  function FilteredVocabulary(allWords: seq<string>): seq<string> {
    FilterWhileIterating(Rank(allWords), Excluded)
  }

  /** The state of the loop of lines 98-106 after it has moved past index `i - 1`:
      the words before `i` are settled, and filtering the rest as the loop will
      gives the filter of the whole ranked list. `i` runs one past the end when
      the last word was removed. */
  predicate FilterProgress(wordList: seq<string>, i: nat, ranked: seq<string>, excluded: string -> bool) {
    i <= |wordList| + 1 && NoDuplicates(wordList) &&
    (i <= |wordList| ==>
       wordList[..i] + FilterWhileIterating(wordList[i..], excluded) == FilterWhileIterating(ranked, excluded)) &&
    (i == |wordList| + 1 ==> wordList == FilterWhileIterating(ranked, excluded))
  }

  lemma {:induction false} FilterStart(ranked: seq<string>, excluded: string -> bool)
    requires NoDuplicates(ranked)
    ensures FilterProgress(ranked, 0, ranked, excluded)
  {
    assert ranked[..0] + ranked[0..] == ranked;
  }

  /** One turn of the loop: the word at index `j` is examined and, when
      excluded, removed with `list.remove`. */
  lemma {:induction false} FilterLoopStep(before: seq<string>, after: seq<string>, j: nat,
                                          ranked: seq<string>, excluded: string -> bool)
    requires j < |before| && FilterProgress(before, j, ranked, excluded)
    requires after == if excluded(before[j]) then RemoveFirst(before, before[j]) else before
    ensures FilterProgress(after, j + 1, ranked, excluded)
    ensures |after| - j < |before| - j + 1
  {
    RemoveFirstWithoutDuplicates(before, j);
    FilterSlices(before, after, j, ranked, excluded);
  }

  /** The same turn on slices: deleting index `j` moves its successor into that slot. */
  lemma {:induction false} FilterSlices(before: seq<string>, after: seq<string>, j: nat,
                                        ranked: seq<string>, excluded: string -> bool)
    requires j < |before| && NoDuplicates(before)
    requires before[..j] + FilterWhileIterating(before[j..], excluded) == FilterWhileIterating(ranked, excluded)
    requires after == if excluded(before[j]) then before[..j] + before[j + 1..] else before
    ensures NoDuplicates(after) && j + 1 <= |after| + 1
    ensures j + 1 <= |after| ==>
              after[..j + 1] + FilterWhileIterating(after[j + 1..], excluded) == FilterWhileIterating(ranked, excluded)
    ensures j + 1 == |after| + 1 ==> after == FilterWhileIterating(ranked, excluded)
  {
    var rest := before[j..];
    assert rest[0] == before[j];
    if !excluded(before[j]) {
      assert rest[1..] == before[j + 1..];
      assert before[..j + 1] == before[..j] + [before[j]];
    } else {
      RemoveAtNoDuplicates(before, j);
      if j + 1 < |before| {
        assert rest[1] == before[j + 1] && rest[2..] == before[j + 2..];
        assert after[..j + 1] == before[..j] + [before[j + 1]];
        assert after[j + 1..] == before[j + 2..];
      } else {
        assert after == before[..j];
      }
    }
  }

  /** When the loop stops, the list is the filtered ranked list. */
  lemma {:induction false} FilterDone(wordList: seq<string>, i: nat, ranked: seq<string>, excluded: string -> bool)
    requires FilterProgress(wordList, i, ranked, excluded) && i >= |wordList|
    ensures wordList == FilterWhileIterating(ranked, excluded)
  {
    if i == |wordList| {
      assert wordList[..i] == wordList && wordList[i..] == [];
    }
  }

  /** The filter only deletes: what it keeps stays in ranking order. */
  lemma {:induction false} FilterKeepsOrder(ws: seq<string>, excluded: string -> bool)
    ensures IsSubsequence(FilterWhileIterating(ws, excluded), ws)
    decreases |ws|
  {
    if ws == [] {
    } else if !excluded(ws[0]) {
      FilterKeepsOrder(ws[1..], excluded);
    } else if |ws| == 1 {
    } else {
      var f := FilterWhileIterating(ws[2..], excluded);
      FilterKeepsOrder(ws[2..], excluded);
      assert ws[1..][1..] == ws[2..];
      assert IsSubsequence([ws[1]] + f, ws[1..]) by {
        assert ([ws[1]] + f)[1..] == f;
      }
    }
  }

  /** Every word that the tests do not reject survives the filter. */
  lemma {:induction false} FilterKeepsUnexcluded(ws: seq<string>, excluded: string -> bool)
    ensures forall w :: w in ws && !excluded(w) ==> w in FilterWhileIterating(ws, excluded)
    decreases |ws|
  {
    if ws == [] {
    } else if !excluded(ws[0]) {
      FilterKeepsUnexcluded(ws[1..], excluded);
      assert ws == [ws[0]] + ws[1..];
    } else if |ws| > 1 {
      FilterKeepsUnexcluded(ws[2..], excluded);
      assert ws == [ws[0], ws[1]] + ws[2..];
    }
  }

  /** Once position `m` is examined, examination from `m` on runs as on the list starting at `m`. */
  lemma {:induction false} ExaminedFrom(ws: seq<string>, excluded: string -> bool, m: nat, t: nat)
    requires m + t < |ws| && Examined(ws, excluded, m)
    ensures Examined(ws, excluded, m + t) == Examined(ws[m..], excluded, t)
    decreases t
  {
    if t > 0 {
      ExaminedFrom(ws, excluded, m, t - 1);
    }
  }

  lemma {:induction false} FilterOnlyKeeps(ws: seq<string>, excluded: string -> bool, w: string)
    ensures w in FilterWhileIterating(ws, excluded) ==> w in ws
  {
    FilterKeepsOrder(ws, excluded);
    if w in FilterWhileIterating(ws, excluded) {
      SubsequenceMembers(FilterWhileIterating(ws, excluded), ws, w);
    }
  }

  /** The exact outcome for each word of a duplicate-free list: it survives if
      and only if the loop never examined it or the tests do not reject it. */
  lemma {:induction false} FilterExact(ws: seq<string>, excluded: string -> bool, j: nat)
    requires NoDuplicates(ws) && j < |ws|
    ensures ws[j] in FilterWhileIterating(ws, excluded) <==> !Examined(ws, excluded, j) || !excluded(ws[j])
    decreases |ws|
  {
    var f := FilterWhileIterating(ws, excluded);
    if !excluded(ws[0]) {
      if j > 0 {
        assert NoDuplicates(ws[1..]);
        FilterExact(ws[1..], excluded, j - 1);
        ExaminedFrom(ws, excluded, 1, j - 1);
        assert ws[j] != ws[0];
      }
    } else if |ws| == 1 {
    } else {
      assert NoDuplicates(ws[2..]);
      if j == 0 {
        FilterOnlyKeeps(ws[2..], excluded, ws[0]);
        assert ws[0] !in ws[2..];
      } else if j >= 2 {
        FilterExact(ws[2..], excluded, j - 2);
        assert Examined(ws, excluded, 2);
        ExaminedFrom(ws, excluded, 2, j - 2);
        assert ws[j] != ws[1];
        assert ws[2..][j - 2] == ws[j];
      }
    }
  }

  /** The consequence of removing while iterating: the word right after a removed
      one is never examined and stays in the vocabulary even when it is a
      stopword or matches a pattern. */
  lemma {:induction false} SkippedWordSurvives(ws: seq<string>, excluded: string -> bool, j: nat)
    requires NoDuplicates(ws) && j + 1 < |ws|
    requires Examined(ws, excluded, j) && excluded(ws[j])
    ensures !Examined(ws, excluded, j + 1)
    ensures ws[j + 1] in FilterWhileIterating(ws, excluded)
    ensures ws[j] !in FilterWhileIterating(ws, excluded)
  {
    FilterExact(ws, excluded, j);
    FilterExact(ws, excluded, j + 1);
  }

}
